# SDG12 review annotation pipeline, in Dafny

This project models the annotation core of a product-review service. The
core takes one raw review record, a Python dictionary with open keys. It
returns the annotated record the service stores:

- `clean_text` collapses the whitespace of the review text;
- `detect_language` wraps langdetect, answering "unknown" when it fails;
- `sentiment` turns VADER's compound polarity into a three-way label;
- `tag_sdg12` tags the text with the sustainable-consumption (SDG12) themes
  whose trigger phrases occur in it, each tag scored by the matched length;
- `dedupe_hash` hashes `product_id|text|rating`;
- `process_review` composes the five. It overlays the cleaned text, an
  `nlp` block and a versioned, hashed `meta` onto the raw record.

The second input is the taxonomy table `SDG12_KEYWORDS`: seven labels with
their phrase lists, in declared order.

Modules, one per concern:

- `Wrappers`: `Option` and `Result`.
- `Json`: the loosely typed values of a record (`Value`), and records as
  `map<string, Value>`.
- `Text`: Python's whitespace table, lower-casing, `needle in hay`, and
  `strip`, `split`, `join` and `clean_text`.
- `Taxonomy`: the table, and its well-formedness.
- `Sentiment`: the threshold labelling.
- `Tagging`: `tag_sdg12`, as a method with its loop and as the function
  that specifies it.
- `Pipeline`: the language wrapper, the dedupe basis and hash, and
  `process_review`, as a method over a record and as the function that
  specifies it.
- `Scenarios`: the two worked review texts, evaluated by proof.

The foreign pieces are fields of an environment `Pipeline.Env`:

- VADER's `polarity_scores`;
- langdetect's `detect`, as a function returning `None` where it raises;
- MD5's hex digest of a string;
- Python's `str()` of numbers, lists and dictionaries.

The model makes no assumption about these pieces. Every property below
holds for every environment.

Tag scores are kept exactly, in thousandths. `round(min(1, n / 30), 3)`
never meets a tie when `n` is an integer, so it is `(100 n + 1) / 3`
thousandths below 30 and 1000 from 30 on. `Tagging.ScoreMilliIsRounded`
proves this value lies within a third of a thousandth of the exact score,
and `Tagging.ScoreNeverTies` proves the exact score is at least a sixth of
a thousandth away from every rounding tie.

Constants of the source appear as Dafny constants:

- `Taxonomy.Sdg12Keywords` is `SDG12_KEYWORDS` (sdg12_taxonomy.py:1-23);
- `Pipeline.PipelineVersion` is `PIPELINE_VERSION` (config.py:6);
- `Sentiment.Threshold` is the 0.05 of pipeline.py:25;
- `Tagging.Divisor` is the 30.0 of pipeline.py:40.

The code tags "Fully recyclable and sustainably sourced, love it!" with
recyclability only, not with materials_sourcing:

- "sustainable" is not a substring of "sustainably";
- "sourced" alone is not the phrase "responsibly sourced".

`Scenarios.Review2Tags` is the proof.

## Model

| member | source | states |
|---|---|---|
| Json.Get | pipeline.py:56 | `d.get(key, default)`: the stored value when the key is present, the default exactly when it is absent |
| Text.LowerChar | pipeline.py:35 | a capital becomes the letter 32 code points above it, the result is never upper case, and a character that is not upper case is left alone |
| Text.Lower | pipeline.py:35 | `s.lower()`, character by character through `LowerChar`; `LowerIsLowerCase` states what it yields |
| Text.LowerIsLowerCase | pipeline.py:35 | `lower()` yields lower-case text, is idempotent, and is the identity on text that is already lower case |
| Text.Contains | pipeline.py:38 | `needle in hay`: the needle occurs at some offset of the haystack; `ContainsInfix`, `ContainsPiece`, `NotContainsMissingChar` and `Scenarios.SearchContains` state its properties |
| Text.ContainsInfix | pipeline.py:38 | `in` is monotone: a needle found in a slice of the haystack is found in the haystack |
| Text.NotContainsMissingChar | pipeline.py:38 | a needle holding a character the haystack lacks is not `in` it |
| Text.ContainsPiece | pipeline.py:38 | every slice of a needle that is `in` a haystack is `in` it too |
| Text.IsSpace | pipeline.py:12 | Python's `str.isspace()` table, the whitespace `strip()` and `split()` use; every contract about strip and split is stated over it |
| Text.StripLeft | pipeline.py:12 | `lstrip()` returns a suffix of the input that does not start with whitespace, and everything it drops is whitespace |
| Text.StripRight | pipeline.py:12 | `rstrip()` returns a prefix of the input that does not end with whitespace, and everything it drops is whitespace |
| Text.Strip | pipeline.py:12 | `strip()`, as `rstrip()` of `lstrip()`; `SplitStrip` states that `split()` ignores it |
| Text.TakeWord | pipeline.py:12 | the first word is a whitespace-free prefix followed by whitespace or the end of the input |
| Text.Split | pipeline.py:12 | every element of `split()` is a non-empty run with no whitespace; `SplitAtSpace` and `SplitOfWord` state where it cuts |
| Text.SplitAtSpace | pipeline.py:12 | any whitespace character, tab and newline included, separates words: `split(a + c + b) == split(a) + split(b)` |
| Text.SplitAtRun | pipeline.py:12 | a run of whitespace of any length separates words the same way |
| Text.SplitOfWord | pipeline.py:12 | a word with no whitespace splits to itself |
| Text.Join | pipeline.py:12 | `" ".join(ws)`; `SplitJoin`, `JoinNormalized` and `JoinAppend` state its properties |
| Text.JoinAppend | pipeline.py:12 | joining two non-empty lists puts one space between their joins |
| Text.SplitJoin | pipeline.py:12 | `split()` after `" ".join(ws)` gives back `ws`, for any list of words |
| Text.JoinNormalized | pipeline.py:12 | words joined by single spaces have no leading, trailing or repeated whitespace, and no whitespace other than `' '` |
| Text.NormalizedJoinSplit | pipeline.py:12 | a normalised string is the join of its own `split()`, and a non-empty one has at least one word |
| Text.SplitStripLeft | pipeline.py:12 | leading whitespace gives no words: `split(lstrip(s)) == split(s)` |
| Text.SplitStripRight | pipeline.py:12 | trailing whitespace gives no words: `split(rstrip(s)) == split(s)` |
| Text.SplitStrip | pipeline.py:12 | `split(strip(s)) == split(s)`: the `strip()` in `clean_text` changes nothing |
| Text.NonSpaceSplit | pipeline.py:12 | the non-whitespace characters of a string, in order, are its words laid end to end |
| Text.SplitEmptyIff | pipeline.py:12 | `split()` finds no word exactly when the string is empty or all whitespace |
| Text.CleanText | pipeline.py:11-12 | `clean_text`, as `" ".join(text.split())`; the `Text.CleanText…` lemmas below state what it does |
| Text.CleanTextStrips | pipeline.py:11-12 | the model of `clean_text` equals `" ".join(text.strip().split())` literally, strip included |
| Text.CleanTextWords | pipeline.py:11-12 | the cleaned text has exactly the words of the input |
| Text.CleanTextNormalized | pipeline.py:11-12 | the cleaned text has no leading or trailing whitespace, and every whitespace in it is one `' '` between two non-whitespace characters |
| Text.CleanTextIdempotent | pipeline.py:11-12 | cleaning twice is cleaning once |
| Text.CleanTextFixedPoint | pipeline.py:11-12 | `clean_text` leaves a text unchanged exactly when the text is normalised |
| Text.CleanTextKeepsNonSpace | pipeline.py:11-12 | every non-whitespace character survives, in order, and none is added |
| Text.CleanTextEmptyIff | pipeline.py:11-12 | the cleaned text is `""` exactly when the input is empty or all whitespace |
| Text.CleanTextAtRun | pipeline.py:11-12 | every run of whitespace between words, tabs and newlines included, becomes one space; a run with no word on one side disappears |
| Text.CleanTextCollapsesRun | pipeline.py:11-12 | two words with any whitespace run between them are cleaned to the words with one space between them |
| Taxonomy.Labels | sdg12_taxonomy.py:1-23 | the labels of a table, one per entry, in table order |
| Taxonomy.TaxonomyLabels | sdg12_taxonomy.py:1-23 | the table has exactly seven labels: packaging_waste, durability, repairability, recyclability, energy_efficiency, returns_overconsumption, materials_sourcing, in that order |
| Taxonomy.PackagingWasteWellFormed | sdg12_taxonomy.py:2-4 | packaging_waste has a non-empty list of distinct, non-empty, lower-case phrases |
| Taxonomy.PackagingWasteDistinct | sdg12_taxonomy.py:3 | no packaging_waste phrase is listed twice |
| Taxonomy.PackagingWasteLowerCase | sdg12_taxonomy.py:3 | every packaging_waste phrase is non-empty and lower case |
| Taxonomy.DurabilityWellFormed | sdg12_taxonomy.py:5-7 | durability has a non-empty list of distinct, non-empty, lower-case phrases |
| Taxonomy.DurabilityDistinct | sdg12_taxonomy.py:6 | no durability phrase is listed twice |
| Taxonomy.DurabilityLowerCase | sdg12_taxonomy.py:6 | every durability phrase is non-empty and lower case |
| Taxonomy.RepairabilityWellFormed | sdg12_taxonomy.py:8-10 | repairability has a non-empty list of distinct, non-empty, lower-case phrases |
| Taxonomy.RepairabilityDistinct | sdg12_taxonomy.py:9 | no repairability phrase is listed twice |
| Taxonomy.RepairabilityLowerCase | sdg12_taxonomy.py:9 | every repairability phrase is non-empty and lower case |
| Taxonomy.RecyclabilityWellFormed | sdg12_taxonomy.py:11-13 | recyclability has a non-empty list of distinct, non-empty, lower-case phrases |
| Taxonomy.RecyclabilityDistinct | sdg12_taxonomy.py:12 | no recyclability phrase is listed twice |
| Taxonomy.RecyclabilityLowerCase | sdg12_taxonomy.py:12 | every recyclability phrase is non-empty and lower case |
| Taxonomy.EnergyEfficiencyWellFormed | sdg12_taxonomy.py:14-16 | energy_efficiency has a non-empty list of distinct, non-empty, lower-case phrases |
| Taxonomy.EnergyEfficiencyDistinct | sdg12_taxonomy.py:15 | no energy_efficiency phrase is listed twice |
| Taxonomy.EnergyEfficiencyLowerCase | sdg12_taxonomy.py:15 | every energy_efficiency phrase is non-empty and lower case |
| Taxonomy.ReturnsOverconsumptionWellFormed | sdg12_taxonomy.py:17-19 | returns_overconsumption has a non-empty list of distinct, non-empty, lower-case phrases |
| Taxonomy.ReturnsOverconsumptionDistinct | sdg12_taxonomy.py:18 | no returns_overconsumption phrase is listed twice |
| Taxonomy.ReturnsOverconsumptionLowerCase | sdg12_taxonomy.py:18 | every returns_overconsumption phrase is non-empty and lower case |
| Taxonomy.MaterialsSourcingWellFormed | sdg12_taxonomy.py:20-22 | materials_sourcing has a non-empty list of distinct, non-empty, lower-case phrases |
| Taxonomy.MaterialsSourcingDistinct | sdg12_taxonomy.py:21 | no materials_sourcing phrase is listed twice |
| Taxonomy.MaterialsSourcingLowerCase | sdg12_taxonomy.py:21 | every materials_sourcing phrase is non-empty and lower case |
| Taxonomy.LabelsDistinct | sdg12_taxonomy.py:1-23 | no label appears twice |
| Taxonomy.EntryAtWellFormed | sdg12_taxonomy.py:2-22 | every entry, whatever its index, is well formed |
| Taxonomy.TaxonomyWellFormed | sdg12_taxonomy.py:1-23 | the whole table is well formed: distinct labels, and for each a non-empty list of distinct, non-empty, lower-case phrases |
| Taxonomy.PhrasesLowerCase | sdg12_taxonomy.py:3-21 | every phrase is its own `lower()`, so `kw.lower() in text_lc` is `kw in text_lc` |
| Sentiment.Compound | pipeline.py:24 | `scores.get("compound", 0.0)`: the compound score when present, 0.0 exactly when absent |
| Sentiment.Label | pipeline.py:25 | "positive" iff the score is at least 0.05, "negative" iff it is at most -0.05, "neutral" iff it lies strictly between |
| Sentiment.Sentiment | pipeline.py:22-31 | the score is the compound score passed through, the label follows the three thresholds both ways, and the model is "vader" "3.3.2" |
| Sentiment.LabelMonotone | pipeline.py:25 | a higher score never gets a lower label (negative < neutral < positive) |
| Sentiment.SentimentOnlyCompound | pipeline.py:22-31 | two score maps with the same compound score give the same result |
| Sentiment.SentimentWithoutCompound | pipeline.py:24-25 | without a compound entry the score is 0.0 and the label "neutral" |
| Sentiment.LabelIsOneOfThree | pipeline.py:25 | the label is always one of "positive", "negative", "neutral" |
| Tagging.TotalLength | pipeline.py:40 | `sum(len(m) for m in matched)`; it is the total that `ScoreMilli` and the score lemmas take |
| Tagging.ScoreMilli | pipeline.py:40-43 | `round(min(1.0, total / 30.0), 3)` in thousandths; `ScoreMilliIsRounded`, `ScoreNeverTies`, `ScoreMilliBounds` and `ScoreMilliBelow` state it |
| Tagging.ScoreNeverTies | pipeline.py:40-43 | below 30, the exact score is at least a sixth of a thousandth from every rounding tie |
| Tagging.ScoreMilliIsRounded | pipeline.py:40-43 | the thousandths lie within 1/3000 of the exact `min(1, total / 30)` |
| Tagging.ScoreMilliBounds | pipeline.py:40-43 | the score is monotone in the total, at most 1, exactly 1 from a total of 30 on, below 1 under 30, and positive for a positive total |
| Tagging.ScoreMilliBelow | pipeline.py:40-43 | below 30 the thousandths are the `m` with `3m <= 100 total + 1 < 3m + 3` |
| Tagging.Matched | pipeline.py:38 | the comprehension yields a subsequence of the entry's phrase list |
| Tagging.MatchedMembers | pipeline.py:38 | a phrase is matched exactly when it is one of the entry's phrases and its lower case is `in` the lower-cased text |
| Tagging.EntryTags | pipeline.py:38-46 | the tag the loop body appends for one entry, if any; `TagContentsOn` states its contents |
| Tagging.TagsOf | pipeline.py:37-46 | the tags after the loop has visited a list of entries; `TagsOfSound`, `TagsOfComplete`, `TagsOfOrdered` and `TagsOfCharacterized` state it |
| Tagging.Tags | pipeline.py:34-47 | `tag_sdg12(text)` as a value; `TagEmittedIff`, `TagContents`, `TagsInTableOrder` and `TagScoreBounds` state it |
| Tagging.TagWithTable | pipeline.py:35-47 | the loop over the table returns `TagsOf(table, lower(text))`, the entry-by-entry tags, at most one per entry, each with method "keywords", a non-empty match list and a score of at most 1 |
| Tagging.TagSdg12 | pipeline.py:34-47 | `tag_sdg12` returns `Tags(text)`, at most seven tags, each with method "keywords", a non-empty match list and a score of at most 1 |
| Tagging.TagsOfSound | pipeline.py:37-46 | every tag is the tag of some entry whose phrase list matched |
| Tagging.TagsOfComplete | pipeline.py:37-46 | every entry whose phrase list matched has its tag in the output |
| Tagging.TagsOfOrdered | pipeline.py:37-46 | the labels of the output are a subsequence of the table's labels: table order, none invented |
| Tagging.TagsOfCharacterized | pipeline.py:37-46 | on a table with distinct labels, a label is tagged iff its match list is non-empty, and its tag carries that list and its rounded score |
| Tagging.TagOfLabel | pipeline.py:37-46 | on a table with distinct labels, a tag carrying entry `j`'s label is entry `j`'s tag, and that entry matched |
| Tagging.MatchedOnWellFormed | pipeline.py:38 | on a well-formed table the matched phrases are exactly the entry's phrases that are `in` the lower-cased text, in declared order, without repetition |
| Tagging.TagEmittedIffOn | pipeline.py:37-46 | on a well-formed table, a label is tagged iff some phrase of it is `in` the lower-cased text |
| Tagging.TagContentsOn | pipeline.py:37-46 | on a well-formed table, a label's tag has method "keywords", lists exactly its phrases found in the text, in declared order, never none and never one twice, and scores their total length |
| Tagging.TagEmittedIff | pipeline.py:34-47 | `tag_sdg12` tags an SDG12 label iff some phrase of that label is `in` the lower-cased text |
| Tagging.TagContents | pipeline.py:34-47 | the tag `tag_sdg12` gives an SDG12 label lists exactly that label's phrases found in the text, in declared order, never none and never one twice, with method "keywords" and the rounded score of their total length |
| Tagging.RecycledTagsBoth | sdg12_taxonomy.py:11-21 | text containing "recycled" is tagged recyclability through "recycle" and materials_sourcing through "recycled" |
| Tagging.BrokenMatchesBoth | sdg12_taxonomy.py:6 | text containing "broken" gets a durability tag matching both "broke" and "broken" |
| Tagging.TagsInTableOrder | pipeline.py:37-46 | the tags come in taxonomy order, each label at most once, so there are at most seven |
| Tagging.TagScoreBoundsOn | pipeline.py:40-43 | on a well-formed table every score lies in (0, 1] and is 1 from a matched length of 30 on |
| Tagging.TagScoreBounds | pipeline.py:40-43 | every score of `tag_sdg12` lies in (0, 1] and is 1 from a matched length of 30 on |
| Tagging.MatchedInEmpty | pipeline.py:38 | no non-empty phrase is `in` the empty text |
| Tagging.TagsOfEmptyOn | pipeline.py:37-46 | on a table of well-formed entries the empty text gets no tag |
| Tagging.TagsOfEmptyText | pipeline.py:34-47 | `tag_sdg12("")` is `[]` |
| Pipeline.DetectLanguage | pipeline.py:15-19 | langdetect's answer when it succeeds, "unknown" exactly when it raises |
| Pipeline.Language | pipeline.py:57 | "unknown" for the empty text, without calling detection; otherwise `detect_language`'s answer |
| Pipeline.Render | pipeline.py:51 | an f-string renders a string as itself, `None` as "None", and booleans as "True"/"False" |
| Pipeline.Field | pipeline.py:51 | a missing field renders as "", a present one (even `None`) by its rendering |
| Pipeline.Basis | pipeline.py:51 | the three fields joined by "\|"; `BasisInjective` and `BasisAmbiguous` state when it can be read back |
| Pipeline.DedupeBasis | pipeline.py:51 | the basis of a record, from its rendered `product_id`, `text` and `rating` fields |
| Pipeline.DedupeHash | pipeline.py:50-52 | `dedupe_hash(doc)`: MD5 of the basis; `DedupeHashReadsThree` and `HashOfAssembled` state what it reads |
| Pipeline.BasisInjective | pipeline.py:51 | where neither the product id nor the text holds a "\|", equal bases have equal fields |
| Pipeline.BasisAmbiguous | pipeline.py:51 | with a "\|" in the product id, two different field triples give the same basis |
| Pipeline.AbsentAndNullRatingDiffer | pipeline.py:51 | an absent rating and a `None` rating give different bases |
| Pipeline.DedupeHashReadsThree | pipeline.py:50-52 | documents that agree on `product_id`, `text` and `rating` (presence and value) hash the same |
| Pipeline.Assemble | pipeline.py:61-74 | `{**raw, "text":…, "nlp":…, "meta":…}` has the raw keys plus the three, holds the given three values, and copies every other key |
| Pipeline.HashOfAssembled | pipeline.py:76 | the hash read from the assembled record is that of the raw product id, the given (cleaned) text and the raw rating |
| Pipeline.OverlaidInPlace | pipeline.py:75-76 | the overlay is the first assembly with the hash written into its meta, as the in-place update leaves it |
| Pipeline.Nlp | pipeline.py:57-69 | the `nlp` block of a cleaned text; `AnnotatedNlp` and `NlpOfEmptyText` state its contents |
| Pipeline.BaseMeta | pipeline.py:70-73 | the raw meta with `pipeline_version` set; `OverlaidMeta` and `AnnotatedMeta` state it |
| Pipeline.Overlaid | pipeline.py:61-76 | the record assembled, hashed and assembled again with the hash in its meta; `OverlaidInPlace`, `OverlaidMeta` and `OverlaidTwice` state it |
| Pipeline.Annotated | pipeline.py:55-77 | what `process_review` returns or raises; `AnnotatedErrors`, `AnnotatedCopiesOtherKeys`, `AnnotatedNlp`, `AnnotatedMeta` and `ReprocessIsIdentity` state it |
| Pipeline.AnnotatedOk | pipeline.py:55-77 | a record with a usable text and meta is annotated to the overlay of its cleaned text and `nlp` |
| Pipeline.Annotations | pipeline.py:56-69 | the `nlp` block the statements build is `Nlp(env, text)`: language, sentiment, tags and no aspects of the cleaned text |
| Pipeline.Overlay | pipeline.py:61-76 | building the record and then writing the hash into its meta in place yields `Overlaid`, the record assembled with the hashed meta |
| Pipeline.ProcessReview | pipeline.py:55-77 | `process_review`, statement by statement, returns `Annotated(raw, env)`: the overlaid record, or the error for a non-string text or a non-dictionary meta |
| Pipeline.AssembleUnchanged | pipeline.py:61-74 | assembling a record that already holds the given text, `nlp` and meta changes nothing |
| Pipeline.AnnotatedErrors | pipeline.py:56-71 | the record is refused for its text iff the text is present but not a string; for its meta iff the text is fine and the meta is present but not a dictionary (e.g. `None`) |
| Pipeline.AnnotatedCopiesOtherKeys | pipeline.py:61-74 | the output has the raw keys plus `text`, `nlp`, `meta`, and every other raw key is copied unchanged |
| Pipeline.AnnotatedNlp | pipeline.py:56-69 | the text is the cleaned raw text ("" when absent), and `nlp` holds its language, its sentiment, its tags and `aspects == []` |
| Pipeline.OverlaidMeta | pipeline.py:70-76 | the overlay's meta is the base meta plus the hash of the raw product id, the given text and the raw rating |
| Pipeline.AnnotatedMeta | pipeline.py:70-76 | `meta` is the raw meta (or `{}`) with `pipeline_version` "0.1.0" and the hash of the raw product id, the cleaned text and the raw rating |
| Pipeline.NlpOfEmptyText | pipeline.py:57-68 | for an empty text, `nlp` has language "unknown", no signals and no aspects |
| Pipeline.BlankTextUntagged | pipeline.py:56-59 | a blank raw text is annotated as the empty text |
| Pipeline.OverlaidTwice | pipeline.py:61-76 | overlaying an overlay again with the same text and `nlp` gives it back |
| Pipeline.MetaRewritten | pipeline.py:70-76 | writing the version and a hash into a meta that already holds them leaves it unchanged |
| Pipeline.ReprocessIsIdentity | pipeline.py:55-77 | processing an annotated record again returns it unchanged |
| Scenarios.SearchContains | pipeline.py:38 | the index search used in the examples decides `needle in hay` exactly |
| Scenarios.LacksSustainable | sdg12_taxonomy.py:21 | "sustainable" is absent from a text none of whose words contains "nable" |
| Scenarios.MatchedUpToIs | pipeline.py:38 | the comprehension over the first `n` phrases, read index by index |
| Scenarios.TagsUpToIs | pipeline.py:37-46 | the loop over the first `n` entries, read index by index |
| Scenarios.EntryTagsOfMatched | pipeline.py:38-46 | an entry's tag is determined by its match list |
| Scenarios.TagsVia | pipeline.py:34-35 | `tag_sdg12(text)` is the loop over the table on `text.lower()` |
| Scenarios.Review1Tags | pipeline.py:34-47 | "The packaging was excessive and it broke after a week, terrible!" gets exactly packaging_waste ["packaging"] at 0.3 and durability ["broke"] at 0.167 |
| Scenarios.Review2Tags | pipeline.py:34-47 | "Fully recyclable and sustainably sourced, love it!" gets exactly recyclability ["recyclable"] at 0.333 |

## Left out

- main.py (HTTP routes, request models, the MongoDB queries, `utcnow()`) and db.py (client and index set-up) are I/O and are not part of this model.
- config.py: only `PIPELINE_VERSION` (config.py:6, the constant `Pipeline.PipelineVersion`) is modelled; the environment-variable lookups are I/O.
- VADER's lexicon scoring is foreign floating-point code: `polarity_scores` is an input, and its range [-1, 1] is neither assumed nor needed.
- langdetect's statistical model is foreign. `detect` is a function of the text, so the model treats it as deterministic; `Pipeline.ReprocessIsIdentity` holds for a deterministic (seeded) detector only.
- MD5's internals are foreign: the digest is an uninterpreted function of the basis string, and the UTF-8 encoding step is folded into it.
- `str()` of numbers, lists and dictionaries is an input (`Env.show`); Python's float and int formatting is not modelled, and `Num` does not tell an int from a float.
- Text.LowerChar: lower-cases ASCII and Latin-1 capitals only (each to the letter 32 code points above, as Python does), because full Unicode case mapping (including characters whose lower case is longer than one character) is out of reach here.
- Floating point: the sentiment score is a `real`, and a tag score is held as exact thousandths rather than as the float `round()` returns. The exact value is never within a sixth of a thousandth of a rounding tie (`Tagging.ScoreNeverTies`), so the float's decimal form is the same.
- Key order of dictionaries: records and `nlp` are maps, so the insertion order of the output's keys is not modelled.
- Exceptions other than the two record errors are not modelled: an exception raised inside VADER or langdetect other than `LangDetectException`, and a `RecursionError` from `str()` of a deeply nested rating.
- `basis.encode("utf-8")` raises `UnicodeEncodeError` on a lone surrogate, which a Python `str` can hold. A Dafny `string` holds Unicode scalar values only, so this case cannot be expressed and is not modelled.
- `clean_text` is defined without its `strip()`, as `" ".join(text.split())`; `Text.CleanTextStrips` proves the two forms equal, so nothing is lost.
- `aspects` is always the empty list in the source; nothing computes it, and the model writes `[]`.
