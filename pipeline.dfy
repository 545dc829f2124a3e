/** `process_review` (pipeline.py) and the pieces it composes that are not
    modelled elsewhere: the language-detection wrapper, the dedupe basis and
    hash, and the assembly of the annotated record. The foreign pieces — the
    VADER analyser, langdetect, MD5 and Python's `str()` of non-string
    values — are fields of an environment passed in. */
module Pipeline {
  import opened Wrappers
  import opened Json
  import opened Text
  import opened Tagging
  import opened Sentiment

  /** `PIPELINE_VERSION` (config.py). */
  const PipelineVersion: string := "0.1.0"

  /** The foreign pieces the pipeline calls:
      - `polarity`: VADER's `polarity_scores`, a map from score name to score;
      - `detect`: langdetect's `detect`, `None` where it raises
        `LangDetectException`;
      - `md5`: the hex digest of MD5 over the UTF-8 bytes of a string;
      - `show`: Python's `str()` of a value that is not a string, `None` or
        a boolean (numbers, lists, dictionaries). */
  datatype Env = Env(
    polarity: string -> map<string, real>,
    detect: string -> Option<string>,
    md5: string -> string,
    show: Value -> string)

  /** Why `process_review` raises instead of returning a record. */
  datatype RecordError =
    | TextNotString   // `text` present but not a string: `.strip()` fails
    | MetaNotMapping  // `meta` present but not a dictionary (e.g. `None`): `{**meta}` fails

  // ---------------------------------------------------------------------------
  // detect_language
  // ---------------------------------------------------------------------------

  /** `detect_language(text)`: langdetect's answer, or "unknown" where it
      fails. */
  function DetectLanguage(env: Env, text: string): (lang: string)
    ensures env.detect(text).Some? ==> lang == env.detect(text).value
    ensures env.detect(text).None? ==> lang == "unknown"
  {
    match env.detect(text)
    case Some(code) => code
    case None => "unknown"
  }

  /** The language `process_review` records for the cleaned text: detection
      is only attempted on a non-empty text. */
  function Language(env: Env, text: string): (lang: string)
    ensures text == "" ==> lang == "unknown"
    ensures text != "" ==> lang == DetectLanguage(env, text)
  {
    if text != "" then DetectLanguage(env, text) else "unknown"
  }

  // ---------------------------------------------------------------------------
  // dedupe_hash
  // ---------------------------------------------------------------------------

  /** How an f-string renders a value: a string as itself, `None` as "None",
      booleans as "True" and "False", anything else by `str()`. */
  function Render(v: Value, show: Value -> string): (s: string)
    ensures v.Str? ==> s == v.s
    ensures v == Null ==> s == "None"
    ensures v == Bool(true) ==> s == "True"
    ensures v == Bool(false) ==> s == "False"
  {
    match v
    case Str(s) => s
    case Null => "None"
    case Bool(b) => if b then "True" else "False"
    case _ => show(v)
  }

  /** The three fields joined by "|". */
  function Basis(productId: string, text: string, rating: string): string {
    productId + "|" + text + "|" + rating
  }

  /** The rendered field `key` of `doc`, "" when the key is absent. */
  function Field(doc: Record, key: string, show: Value -> string): (s: string)
    ensures key !in doc ==> s == ""
    ensures key in doc ==> s == Render(doc[key], show)
  {
    Render(Get(doc, key, Str("")), show)
  }

  /** The string `dedupe_hash` hashes: product id, text and rating. */
  function DedupeBasis(doc: Record, show: Value -> string): string {
    Basis(Field(doc, "product_id", show), Field(doc, "text", show), Field(doc, "rating", show))
  }

  /** `dedupe_hash(doc)`. */
  function DedupeHash(doc: Record, env: Env): string {
    env.md5(DedupeBasis(doc, env.show))
  }

  /** Where neither the product id nor the text holds a "|", the basis gives
      the three fields back: it is read by cutting at the first two "|". */
  lemma BasisInjective(p1: string, t1: string, r1: string, p2: string, t2: string, r2: string)
    requires '|' !in p1 && '|' !in t1 && '|' !in p2 && '|' !in t2
    requires Basis(p1, t1, r1) == Basis(p2, t2, r2)
    ensures p1 == p2 && t1 == t2 && r1 == r2
  {
    assert Basis(p1, t1, r1) == p1 + "|" + (t1 + "|" + r1);
    assert Basis(p2, t2, r2) == p2 + "|" + (t2 + "|" + r2);
    CutAtBar(p1, t1 + "|" + r1, p2, t2 + "|" + r2);
    CutAtBar(t1, r1, t2, r2);
  }

  /** A string `p + "|" + rest` with no "|" in `p` is cut apart at its
      first "|". */
  lemma CutAtBar(p1: string, rest1: string, p2: string, rest2: string)
    requires '|' !in p1 && '|' !in p2
    requires p1 + "|" + rest1 == p2 + "|" + rest2
    ensures p1 == p2 && rest1 == rest2
  {
    var s := p1 + "|" + rest1;
    assert s[|p1|] == '|' && (p2 + "|" + rest2)[|p2|] == '|';
    assert |p1| == |p2|;
    assert p1 == s[..|p1|] && p2 == s[..|p2|];
    assert rest1 == s[|p1| + 1..] && rest2 == s[|p2| + 1..];
  }

  /** With a "|" in the product id the basis is ambiguous: ("a|b", "c") and
      ("a", "b|c") give the same basis. */
  lemma BasisAmbiguous()
    ensures Basis("a|b", "c", "5") == Basis("a", "b|c", "5")
  {
  }

  /** A rating that is absent and one that is `None` give different bases:
      the first renders as "", the second as "None". */
  lemma AbsentAndNullRatingDiffer(doc: Record, show: Value -> string)
    requires "rating" !in doc
    ensures DedupeBasis(doc, show) != DedupeBasis(doc["rating" := Null], show)
  {
    var d2 := doc["rating" := Null];
    assert Field(d2, "product_id", show) == Field(doc, "product_id", show);
    assert Field(d2, "text", show) == Field(doc, "text", show);
    assert |DedupeBasis(d2, show)| == |DedupeBasis(doc, show)| + 4;
  }

  /** The hash reads only the product id, the text and the rating: documents
      that agree on those (present with equal values, or absent) hash the
      same. */
  lemma DedupeHashReadsThree(d1: Record, d2: Record, env: Env)
    requires forall key :: key in {"product_id", "text", "rating"} ==>
      (key in d1 <==> key in d2) && (key in d1 ==> d1[key] == d2[key])
    ensures DedupeHash(d1, env) == DedupeHash(d2, env)
  {
    assert Field(d1, "product_id", env.show) == Field(d2, "product_id", env.show);
    assert Field(d1, "text", env.show) == Field(d2, "text", env.show);
    assert Field(d1, "rating", env.show) == Field(d2, "rating", env.show);
  }

  // ---------------------------------------------------------------------------
  // The annotated record
  // ---------------------------------------------------------------------------

  function StrValues(ws: seq<string>): (vs: seq<Value>)
    ensures |vs| == |ws| && forall i :: 0 <= i < |ws| ==> vs[i] == Str(ws[i])
  {
    seq(|ws|, i requires 0 <= i < |ws| => Str(ws[i]))
  }

  /** A tag as the dictionary `tag_sdg12` appends; the score in thousandths
      becomes the number it stands for. */
  function TagValue(t: SignalTag): Value {
    Obj(map[
      "label" := Str(t.labelName),
      "score" := Num(t.scoreMilli as real / 1000.0),
      "method" := Str(t.methodName),
      "keywords_matched" := Arr(StrValues(t.keywordsMatched))])
  }

  function TagValues(tags: seq<SignalTag>): (vs: seq<Value>)
    ensures |vs| == |tags| && forall i :: 0 <= i < |tags| ==> vs[i] == TagValue(tags[i])
  {
    seq(|tags|, i requires 0 <= i < |tags| => TagValue(tags[i]))
  }

  /** The dictionary `sentiment` returns. */
  function SentimentValue(r: SentimentResult): Value {
    Obj(map[
      "score" := Num(r.score),
      "label" := Str(r.labelName),
      "model" := Str(r.modelName),
      "version" := Str(r.modelVersion)])
  }

  /** The `nlp` field of the annotated record. */
  function NlpValue(lang: string, sent: SentimentResult, tags: seq<SignalTag>): Value {
    Obj(map[
      "language" := Str(lang),
      "sentiment" := SentimentValue(sent),
      "sdg12_signals" := Arr(TagValues(tags)),
      "aspects" := Arr([])])
  }

  /** The raw text, "" when the key is absent. */
  function RawText(raw: Record): Value {
    Get(raw, "text", Str(""))
  }

  /** The raw meta, an empty dictionary when the key is absent. */
  function RawMeta(raw: Record): Value {
    Get(raw, "meta", Obj(map[]))
  }

  /** The `nlp` field computed from the cleaned text. */
  function Nlp(env: Env, text: string): Value {
    NlpValue(Language(env, text), Sentiment.Sentiment(env.polarity(text)), Tags(text))
  }

  /** `{**raw, "text": text, "nlp": nlp, "meta": meta}`: the raw record with
      three keys set, every other key kept. */
  function Assemble(raw: Record, text: string, nlp: Value, meta: map<string, Value>): (out: Record)
    ensures out.Keys == raw.Keys + {"text", "nlp", "meta"}
    ensures out["text"] == Str(text) && out["nlp"] == nlp && out["meta"] == Obj(meta)
    ensures forall key :: key in raw && key !in {"text", "nlp", "meta"} ==> out[key] == raw[key]
  {
    raw["text" := Str(text)]["nlp" := nlp]["meta" := Obj(meta)]
  }

  /** The hash of an assembled record reads the raw product id and rating and
      the new text. */
  lemma HashOfAssembled(raw: Record, text: string, nlp: Value, meta: map<string, Value>, env: Env)
    ensures DedupeHash(Assemble(raw, text, nlp, meta), env)
      == env.md5(Basis(Field(raw, "product_id", env.show), text, Field(raw, "rating", env.show)))
  {
    var out := Assemble(raw, text, nlp, meta);
    assert Field(out, "product_id", env.show) == Field(raw, "product_id", env.show);
    assert Field(out, "rating", env.show) == Field(raw, "rating", env.show);
  }

  /** The meta of the annotated record before the hash: the raw meta with
      the pipeline version set. */
  function BaseMeta(raw: Record): map<string, Value>
    requires RawMeta(raw).Obj?
  {
    RawMeta(raw).fields["pipeline_version" := Str(PipelineVersion)]
  }

  /** The annotated record for a raw record with a usable meta and its
      cleaned text: assembled once, hashed, and assembled again with the
      hash added to the meta. */
  function Overlaid(raw: Record, text: string, nlp: Value, env: Env): Record
    requires RawMeta(raw).Obj?
  {
    var hash := DedupeHash(Assemble(raw, text, nlp, BaseMeta(raw)), env);
    Assemble(raw, text, nlp, BaseMeta(raw)["dedupe_hash" := Str(hash)])
  }

  /** The overlay is the first assembly with the hash written into its
      meta: what the in-place update `out["meta"]["dedupe_hash"] = ...`
      leaves behind. */
  lemma OverlaidInPlace(raw: Record, text: string, nlp: Value, env: Env)
    requires RawMeta(raw).Obj?
    ensures var first := Assemble(raw, text, nlp, BaseMeta(raw));
      Overlaid(raw, text, nlp, env)
        == first["meta" := Obj(first["meta"].fields["dedupe_hash" := Str(DedupeHash(first, env))])]
  {
  }

  /** What `process_review(raw)` returns, or the error it raises. */
  function Annotated(raw: Record, env: Env): Result<Record, RecordError> {
    if !RawText(raw).Str? then Err(TextNotString)
    else if !RawMeta(raw).Obj? then Err(MetaNotMapping)
    else
      var text := CleanText(RawText(raw).s);
      Ok(Overlaid(raw, text, Nlp(env, text), env))
  }

  /** The success case of `Annotated`, stated over named intermediate
      values. */
  lemma AnnotatedOk(raw: Record, env: Env, text: string, nlp: Value, out: Record)
    requires RawText(raw).Str? && RawMeta(raw).Obj?
    requires text == CleanText(RawText(raw).s) && nlp == Nlp(env, text)
    requires out == Overlaid(raw, text, nlp, env)
    ensures Annotated(raw, env) == Ok(out)
  {
  }

  /** The annotation half of `process_review`: language (only for a
      non-empty text), sentiment and SDG12 signals of the cleaned text. */
  method Annotations(env: Env, text: string) returns (nlp: Value)
    ensures nlp == Nlp(env, text)
  {
    var lang := if text != "" then DetectLanguage(env, text) else "unknown";
    var sent := Sentiment.Sentiment(env.polarity(text));
    var sdg := TagSdg12(text);
    nlp := NlpValue(lang, sent, sdg);
  }

  /** The record-building tail of `process_review`: the raw record with
      the cleaned text, the annotations and the versioned meta, then the
      hash written into that meta in place. */
  method Overlay(raw: Record, text: string, nlp: Value, rawMeta: map<string, Value>, env: Env)
    returns (out: Record)
    requires RawMeta(raw) == Obj(rawMeta)
    ensures out == Overlaid(raw, text, nlp, env)
  {
    out := raw;
    out := out["text" := Str(text)];
    out := out["nlp" := nlp];
    out := out["meta" := Obj(rawMeta["pipeline_version" := Str(PipelineVersion)])];
    if "meta" !in out {
      out := out["meta" := Obj(map[])];
    }
    assert out == Assemble(raw, text, nlp, BaseMeta(raw));
    OverlaidInPlace(raw, text, nlp, env);
    var hash := DedupeHash(out, env);
    var meta := out["meta"].fields;
    out := out["meta" := Obj(meta["dedupe_hash" := Str(hash)])];
  }

  /** `process_review`, statement by statement: clean the text, detect its
      language, score and tag it, build the record over the raw one, then
      write the hash into its `meta` in place. */
  method ProcessReview(raw: Record, env: Env) returns (r: Result<Record, RecordError>)
    ensures r == Annotated(raw, env)
  {
    var rawText := Get(raw, "text", Str(""));
    if !rawText.Str? {
      return Err(TextNotString);
    }
    var text := CleanText(rawText.s);
    var nlp := Annotations(env, text);
    var rawMeta := Get(raw, "meta", Obj(map[]));
    if !rawMeta.Obj? {
      return Err(MetaNotMapping);
    }
    var out := Overlay(raw, text, nlp, rawMeta.fields, env);
    AnnotatedOk(raw, env, text, nlp, out);
    return Ok(out);
  }

  // ---------------------------------------------------------------------------
  // Properties of process_review
  // ---------------------------------------------------------------------------

  /** Assembling a record that already holds the given text, `nlp` and meta
      changes nothing. */
  lemma AssembleUnchanged(out: Record, text: string, nlp: Value, meta: map<string, Value>)
    requires "text" in out && out["text"] == Str(text)
    requires "nlp" in out && out["nlp"] == nlp
    requires "meta" in out && out["meta"] == Obj(meta)
    ensures Assemble(out, text, nlp, meta) == out
  {
  }

  /** The record is refused exactly when the text is present but not a
      string, or the meta is present but not a dictionary; a bad text is
      reported first, as it is read first. */
  lemma AnnotatedErrors(raw: Record, env: Env)
    ensures Annotated(raw, env) == Err(TextNotString) <==> "text" in raw && !raw["text"].Str?
    ensures Annotated(raw, env) == Err(MetaNotMapping)
      <==> !("text" in raw && !raw["text"].Str?) && "meta" in raw && !raw["meta"].Obj?
  {
  }

  /** Every raw key other than `text`, `nlp` and `meta` is copied unchanged,
      and those three are always present. */
  lemma AnnotatedCopiesOtherKeys(raw: Record, env: Env)
    requires Annotated(raw, env).Ok?
    ensures var out := Annotated(raw, env).value;
      && out.Keys == raw.Keys + {"text", "nlp", "meta"}
      && forall key :: key in raw && key !in {"text", "nlp", "meta"} ==> out[key] == raw[key]
  {
  }

  /** The text is the cleaned raw text ("" when absent); `nlp` holds the
      language, the sentiment of the cleaned text, its tags and no aspects. */
  lemma AnnotatedNlp(raw: Record, env: Env)
    requires Annotated(raw, env).Ok?
    ensures var out := Annotated(raw, env).value;
      var text := if "text" in raw then CleanText(raw["text"].s) else "";
      && out["text"] == Str(text)
      && out["nlp"] == Obj(map[
        "language" := Str(Language(env, text)),
        "sentiment" := SentimentValue(Sentiment.Sentiment(env.polarity(text))),
        "sdg12_signals" := Arr(TagValues(Tags(text))),
        "aspects" := Arr([])])
  {
    if "text" !in raw {
      CleanTextEmptyIff("");
    }
  }

  /** The meta an overlay writes: the base meta and the hash of the raw
      product id, the given text and the raw rating. */
  lemma OverlaidMeta(raw: Record, text: string, nlp: Value, env: Env)
    requires RawMeta(raw).Obj?
    ensures Overlaid(raw, text, nlp, env)["meta"] == Obj(BaseMeta(raw)["dedupe_hash" :=
      Str(env.md5(Basis(Field(raw, "product_id", env.show), text, Field(raw, "rating", env.show))))])
  {
    HashOfAssembled(raw, text, nlp, BaseMeta(raw), env);
  }

  /** `meta` is the raw meta (or an empty one) overlaid with the pipeline
      version and the hash of the raw product id, the cleaned text and the
      raw rating. */
  lemma AnnotatedMeta(raw: Record, env: Env)
    requires Annotated(raw, env).Ok?
    ensures var out := Annotated(raw, env).value;
      var text := CleanText(RawText(raw).s);
      var hash := env.md5(Basis(Field(raw, "product_id", env.show), text, Field(raw, "rating", env.show)));
      out["meta"] == Obj(RawMeta(raw).fields["pipeline_version" := Str(PipelineVersion)]["dedupe_hash" := Str(hash)])
  {
    var text := CleanText(RawText(raw).s);
    OverlaidMeta(raw, text, Nlp(env, text), env);
  }

  /** For an empty text, `nlp` records language "unknown" and no tags. */
  lemma NlpOfEmptyText(env: Env)
    ensures var nlp := Nlp(env, "").fields;
      nlp["language"] == Str("unknown") && nlp["sdg12_signals"] == Arr([]) && nlp["aspects"] == Arr([])
  {
    TagsOfEmptyText();
  }

  /** A missing or blank text is cleaned to "", so its `nlp` is that of the
      empty text. */
  lemma BlankTextUntagged(raw: Record, env: Env)
    requires Annotated(raw, env).Ok?
    requires AllSpace(RawText(raw).s)
    ensures Annotated(raw, env).value["nlp"] == Nlp(env, "")
  {
    CleanTextEmptyIff(RawText(raw).s);
  }

  /** Overlaying a record that is itself an overlay, with the same text and
      `nlp`, gives it back. */
  lemma OverlaidTwice(raw: Record, text: string, nlp: Value, env: Env)
    requires RawMeta(raw).Obj?
    ensures var out := Overlaid(raw, text, nlp, env);
      RawMeta(out).Obj? && Overlaid(out, text, nlp, env) == out
  {
    var out := Overlaid(raw, text, nlp, env);
    OverlaidMeta(raw, text, nlp, env);
    var hash := env.md5(Basis(Field(raw, "product_id", env.show), text, Field(raw, "rating", env.show)));
    assert RawMeta(out) == Obj(BaseMeta(raw)["dedupe_hash" := Str(hash)]);
    assert Field(out, "product_id", env.show) == Field(raw, "product_id", env.show);
    assert Field(out, "rating", env.show) == Field(raw, "rating", env.show);
    OverlaidMeta(out, text, nlp, env);
    MetaRewritten(RawMeta(raw).fields, Str(hash));
    AssembleUnchanged(out, text, nlp, BaseMeta(raw)["dedupe_hash" := Str(hash)]);
  }

  /** Writing the version and a hash into a meta that already holds them
      changes nothing. */
  lemma MetaRewritten(meta: map<string, Value>, hash: Value)
    ensures var m := meta["pipeline_version" := Str(PipelineVersion)]["dedupe_hash" := hash];
      m["pipeline_version" := Str(PipelineVersion)]["dedupe_hash" := hash] == m
  {
    var m := meta["pipeline_version" := Str(PipelineVersion)]["dedupe_hash" := hash];
    assert m["pipeline_version" := Str(PipelineVersion)]["dedupe_hash" := hash].Keys == m.Keys;
  }

  /** Processing an annotated record again gives it back unchanged: its
      text is already clean, so the language, sentiment, tags and hash come
      out the same, and the meta overlay writes the values already there. */
  lemma ReprocessIsIdentity(raw: Record, env: Env)
    requires Annotated(raw, env).Ok?
    ensures Annotated(Annotated(raw, env).value, env) == Annotated(raw, env)
  {
    var text := CleanText(RawText(raw).s);
    var out := Overlaid(raw, text, Nlp(env, text), env);
    CleanTextIdempotent(RawText(raw).s);
    assert RawText(out) == Str(text);
    OverlaidTwice(raw, text, Nlp(env, text), env);
  }
}
