/** The SDG12 signal tagger, `tag_sdg12` (pipeline.py): multi-label keyword
    matching of the lower-cased text against the taxonomy table. */
module Tagging {
  import opened Text
  import opened Taxonomy

  /** One entry of the tagger's output list. The score is held exactly, in
      thousandths: the source's `round(score, 3)` is `scoreMilli / 1000`. */
  datatype SignalTag = SignalTag(labelName: string, scoreMilli: nat, methodName: string, keywordsMatched: seq<string>)

  /** The calibration constant the matched length is divided by. */
  const Divisor: nat := 30

  /** `sum(len(m) for m in matched)`. */
  function TotalLength(ws: seq<string>): nat {
    if |ws| == 0 then 0 else TotalLength(ws[..|ws| - 1]) + |ws[|ws| - 1]|
  }

  /** `round(min(1.0, total / 30.0), 3)`, in thousandths. `100 * total / 3`
      has fractional part 0, 1/3 or 2/3 and never lands on a tie, so rounding
      to the nearest thousandth is the integer division `(100 * total + 1) / 3`. */
  function ScoreMilli(total: nat): nat {
    if total >= Divisor then 1000 else (100 * total + 1) / 3
  }

  /** The thousandths are the exact score `min(1, total / 30)` rounded to the
      nearest thousandth: they lie within 1/3 of a thousandth of it. */
  lemma ScoreMilliIsRounded(total: nat)
    ensures var exact: real := if total >= Divisor then 1.0 else total as real / Divisor as real;
      -1.0 / 3000.0 <= ScoreMilli(total) as real / 1000.0 - exact <= 1.0 / 3000.0
  {
    if total < Divisor {
      var m := (100 * total + 1) / 3;
      assert 3 * m <= 100 * total + 1 < 3 * m + 3;
      assert (m as real) / 1000.0 - total as real / 30.0 == (3 * m - 100 * total) as real / 3000.0;
    }
  }

  /** Below 30, the exact score in thousandths, `100 * total / 3`, is at
      least a sixth of a thousandth away from every rounding tie `k + 1/2`,
      so half-way rounding rules never come into play. */
  lemma ScoreNeverTies(total: nat, k: int)
    requires total < Divisor
    ensures var gap: real := (100 * total) as real / 3.0 - (k as real + 0.5);
      gap >= 1.0 / 6.0 || gap <= -1.0 / 6.0
  {
    var d := 200 * total - 6 * k - 3;
    assert d == 2 * (100 * total - 3 * k - 2) + 1;
    assert (100 * total) as real / 3.0 - (k as real + 0.5) == d as real / 6.0;
  }

  /** The score lies in [0, 1], is 1 from a total matched length of 30 on,
      is positive for any match, and never decreases as the total grows. */
  lemma ScoreMilliBounds(total: nat, larger: nat)
    requires total <= larger
    ensures ScoreMilli(total) <= ScoreMilli(larger) <= 1000
    ensures total >= Divisor ==> ScoreMilli(total) == 1000
    ensures total > 0 ==> ScoreMilli(total) > 0
    ensures total < Divisor ==> ScoreMilli(total) < 1000
  {
    if larger < Divisor {
      assert 100 * total + 1 <= 100 * larger + 1;
    }
  }

  /** Below 30, the thousandths are the `m` whose triple lies within 3 of
      `100 * total + 1` from below. */
  lemma ScoreMilliBelow(total: nat, m: nat)
    requires total < Divisor
    requires 3 * m <= 100 * total + 1 < 3 * m + 3
    ensures ScoreMilli(total) == m
  {
  }

  /** Phrase identity up to order: `a` lists some of the elements of `b`, in
      the order `b` lists them. */
  predicate IsSubsequence<T(==)>(a: seq<T>, b: seq<T>)
    decreases |b|
  {
    if |a| == 0 then true
    else if |b| == 0 then false
    else if a[|a| - 1] == b[|b| - 1] then IsSubsequence(a[..|a| - 1], b[..|b| - 1])
    else IsSubsequence(a, b[..|b| - 1])
  }

  /** `[kw for kw in kws if kw.lower() in text_lc]`. */
  function Matched(kws: seq<string>, textLc: string): (m: seq<string>)
    ensures IsSubsequence(m, kws)
  {
    if |kws| == 0 then []
    else
      var kw, init := kws[|kws| - 1], kws[..|kws| - 1];
      assert kws == init + [kw];
      var m' := Matched(init, textLc);
      if Contains(textLc, Lower(kw)) then
        assert (m' + [kw])[..|m'|] == m';
        m' + [kw]
      else
        WeakenSubsequence(m', kws);
        m'
  }

  /** A phrase is matched exactly when it is one of the entry's phrases and
      its lower case occurs in the lower-cased text. */
  lemma {:induction false} MatchedMembers(kws: seq<string>, textLc: string, kw: string)
    ensures kw in Matched(kws, textLc) <==> kw in kws && Contains(textLc, Lower(kw))
  {
    if |kws| > 0 {
      var init := kws[..|kws| - 1];
      MatchedMembers(init, textLc, kw);
      assert kws == init + [kws[|kws| - 1]];
    }
  }

  /** The tag the loop body appends for one taxonomy entry, if any. */
  function EntryTags(e: Entry, textLc: string): seq<SignalTag> {
    var matched := Matched(e.1, textLc);
    if matched == [] then [] else [SignalTag(e.0, ScoreMilli(TotalLength(matched)), "keywords", matched)]
  }

  /** The tags the loop has appended after visiting `entries`. */
  function TagsOf(entries: seq<Entry>, textLc: string): seq<SignalTag> {
    if |entries| == 0 then []
    else TagsOf(entries[..|entries| - 1], textLc) + EntryTags(entries[|entries| - 1], textLc)
  }

  /** `tag_sdg12(text)`, as a value. */
  function Tags(text: string): seq<SignalTag> {
    TagsOf(Sdg12Keywords, Lower(text))
  }

  function TagLabels(tags: seq<SignalTag>): (ls: seq<string>)
    ensures |ls| == |tags|
    ensures forall k :: 0 <= k < |tags| ==> ls[k] == tags[k].labelName
  {
    if |tags| == 0 then [] else TagLabels(tags[..|tags| - 1]) + [tags[|tags| - 1].labelName]
  }

  /** The loop of `tag_sdg12` (pipeline.py), over a given table: for each
      entry in order, collect the phrases found in the lower-cased text and,
      if there are any, append a tag. */
  method TagWithTable(table: seq<Entry>, text: string) returns (tags: seq<SignalTag>)
    ensures tags == TagsOf(table, Lower(text))
    ensures |tags| <= |table|
    ensures forall k :: 0 <= k < |tags| ==>
      tags[k].methodName == "keywords" && tags[k].keywordsMatched != [] && tags[k].scoreMilli <= 1000
  {
    var textLc := Lower(text);
    tags := [];
    var i := 0;
    while i < |table|
      invariant 0 <= i <= |table|
      invariant tags == TagsOf(table[..i], textLc)
      invariant |tags| <= i
      invariant forall k :: 0 <= k < |tags| ==>
        tags[k].methodName == "keywords" && tags[k].keywordsMatched != [] && tags[k].scoreMilli <= 1000
    {
      var (name, kws) := table[i];
      var matched := Matched(kws, textLc);
      if matched != [] {
        var score := ScoreMilli(TotalLength(matched));
        tags := tags + [SignalTag(name, score, "keywords", matched)];
      }
      assert table[..i + 1][..i] == table[..i];
      assert TagsOf(table[..i + 1], textLc) == TagsOf(table[..i], textLc) + EntryTags(table[i], textLc);
      assert tags == TagsOf(table[..i + 1], textLc);
      i := i + 1;
    }
    assert table[..i] == table;
  }

  /** `tag_sdg12` (pipeline.py): the loop above over `SDG12_KEYWORDS`. */
  method TagSdg12(text: string) returns (tags: seq<SignalTag>)
    ensures tags == Tags(text)
    ensures |tags| <= 7
    ensures forall k :: 0 <= k < |tags| ==>
      tags[k].methodName == "keywords" && tags[k].keywordsMatched != [] && tags[k].scoreMilli <= 1000
  {
    tags := TagWithTable(Sdg12Keywords, text);
  }

  // ---------------------------------------------------------------------------
  // Lemmas about the tagger on any table
  // ---------------------------------------------------------------------------

  lemma {:induction false} SubsequenceDistinct<T>(a: seq<T>, b: seq<T>)
    requires IsSubsequence(a, b)
    requires Distinct(b)
    ensures Distinct(a)
    ensures |a| <= |b|
    ensures forall x :: x in a ==> x in b
    decreases |b|
  {
    if |a| > 0 && |b| > 0 {
      var b' := b[..|b| - 1];
      assert Distinct(b');
      if a[|a| - 1] == b[|b| - 1] {
        var a' := a[..|a| - 1];
        SubsequenceDistinct(a', b');
        forall i, j | 0 <= i < j < |a| ensures a[i] != a[j] {
          if j == |a| - 1 {
            assert a[i] in a';
            assert a[i] in b';
            var p :| 0 <= p < |b'| && b'[p] == a[i];
            assert b[p] != b[|b| - 1];
          } else {
            assert a[i] == a'[i] && a[j] == a'[j];
          }
        }
        forall x | x in a ensures x in b {
          if x != a[|a| - 1] {
            assert x in a';
          }
        }
      } else {
        SubsequenceDistinct(a, b');
      }
    }
  }

  /** Each tag is the tag of some entry whose phrase list matched. */
  lemma {:induction false} TagsOfSound(entries: seq<Entry>, textLc: string, k: int)
    requires 0 <= k < |TagsOf(entries, textLc)|
    ensures exists j :: (0 <= j < |entries| && Matched(entries[j].1, textLc) != []
      && TagsOf(entries, textLc)[k] == EntryTags(entries[j], textLc)[0])
  {
    var n := |entries|;
    var prefix := TagsOf(entries[..n - 1], textLc);
    if k < |prefix| {
      TagsOfSound(entries[..n - 1], textLc, k);
      var j :| 0 <= j < n - 1 && Matched(entries[..n - 1][j].1, textLc) != []
        && prefix[k] == EntryTags(entries[..n - 1][j], textLc)[0];
      assert entries[..n - 1][j] == entries[j];
    } else {
      assert TagsOf(entries, textLc)[k] == EntryTags(entries[n - 1], textLc)[0];
    }
  }

  /** Each entry whose phrase list matched has its tag in the output. */
  lemma {:induction false} TagsOfComplete(entries: seq<Entry>, textLc: string, j: int)
    requires 0 <= j < |entries|
    requires Matched(entries[j].1, textLc) != []
    ensures EntryTags(entries[j], textLc)[0] in TagsOf(entries, textLc)
  {
    var n := |entries|;
    if j < n - 1 {
      TagsOfComplete(entries[..n - 1], textLc, j);
      assert entries[..n - 1][j] == entries[j];
    }
  }

  /** The labels of the output follow the table's order and omit some. */
  lemma {:induction false} TagsOfOrdered(entries: seq<Entry>, textLc: string)
    ensures IsSubsequence(TagLabels(TagsOf(entries, textLc)), Labels(entries))
  {
    var n := |entries|;
    if n > 0 {
      var init := entries[..n - 1];
      TagsOfOrdered(init, textLc);
      var prefix := TagsOf(init, textLc);
      var es := EntryTags(entries[n - 1], textLc);
      assert Labels(entries)[..n - 1] == Labels(init);
      if es == [] {
        assert TagsOf(entries, textLc) == prefix;
        SubsequenceSnoc(TagLabels(prefix), Labels(init), entries[n - 1].0);
      } else {
        var all := TagsOf(entries, textLc);
        assert all[..|all| - 1] == prefix;
        assert TagLabels(all)[..|all| - 1] == TagLabels(prefix);
      }
    }
  }

  lemma SubsequenceSnoc<T>(a: seq<T>, b: seq<T>, x: T)
    requires IsSubsequence(a, b)
    ensures IsSubsequence(a, b + [x])
  {
    if |a| > 0 && a[|a| - 1] == x {
      SubsequenceSnocSame(a, b);
    }
    assert (b + [x])[..|b|] == b;
  }

  lemma {:induction false} SubsequenceSnocSame<T>(a: seq<T>, b: seq<T>)
    requires |a| > 0 && IsSubsequence(a, b)
    ensures IsSubsequence(a[..|a| - 1], b)
    decreases |b|, 1
  {
    if |b| > 0 {
      var b' := b[..|b| - 1];
      if a[|a| - 1] != b[|b| - 1] {
        SubsequenceSnocSame(a, b');
      }
      WeakenSubsequence(a[..|a| - 1], b);
    }
  }

  /** A subsequence of a prefix is a subsequence of the whole. */
  lemma {:induction false} WeakenSubsequence<T>(a: seq<T>, b: seq<T>)
    requires |b| > 0 ==> IsSubsequence(a, b[..|b| - 1])
    requires |b| == 0 ==> |a| == 0
    ensures IsSubsequence(a, b)
    decreases |b|, 0
  {
    if |a| > 0 && |b| > 0 && a[|a| - 1] == b[|b| - 1] {
      SubsequenceSnocSame(a, b[..|b| - 1]);
    }
  }

  /** On a table with distinct labels, a label gets a tag exactly when one of
      its phrases matched, and that tag carries the matched phrases and their
      score. */
  lemma TagsOfCharacterized(entries: seq<Entry>, textLc: string, j: int)
    requires Distinct(Labels(entries))
    requires 0 <= j < |entries|
    ensures var tags, m := TagsOf(entries, textLc), Matched(entries[j].1, textLc);
      && ((exists k :: 0 <= k < |tags| && tags[k].labelName == entries[j].0) <==> m != [])
      && forall k :: 0 <= k < |tags| && tags[k].labelName == entries[j].0 ==>
           tags[k] == SignalTag(entries[j].0, ScoreMilli(TotalLength(m)), "keywords", m)
  {
    var tags, m := TagsOf(entries, textLc), Matched(entries[j].1, textLc);
    if m != [] {
      TagsOfComplete(entries, textLc, j);
      var k :| 0 <= k < |tags| && tags[k] == EntryTags(entries[j], textLc)[0];
      assert tags[k].labelName == entries[j].0;
    }
    forall k | 0 <= k < |tags| && tags[k].labelName == entries[j].0
      ensures m != [] && tags[k] == SignalTag(entries[j].0, ScoreMilli(TotalLength(m)), "keywords", m)
    {
      TagOfLabel(entries, textLc, j, k);
    }
  }

  /** On a table with distinct labels, a tag carrying the label of entry `j`
      is the tag of entry `j`. */
  lemma TagOfLabel(entries: seq<Entry>, textLc: string, j: int, k: int)
    requires Distinct(Labels(entries))
    requires 0 <= j < |entries|
    requires 0 <= k < |TagsOf(entries, textLc)|
    requires TagsOf(entries, textLc)[k].labelName == entries[j].0
    ensures Matched(entries[j].1, textLc) != []
    ensures TagsOf(entries, textLc)[k] == EntryTags(entries[j], textLc)[0]
  {
    TagsOfSound(entries, textLc, k);
    var j' :| 0 <= j' < |entries| && Matched(entries[j'].1, textLc) != []
      && TagsOf(entries, textLc)[k] == EntryTags(entries[j'], textLc)[0];
    assert Labels(entries)[j'] == Labels(entries)[j];
  }

  // ---------------------------------------------------------------------------
  // Lemmas about tag_sdg12 on the SDG12 table
  // ---------------------------------------------------------------------------

  /** On a well-formed table, `kw.lower() in text_lc` is `kw in text_lc`,
      and an entry's matched phrases are exactly its phrases that occur in
      the lower-cased text, in declared order and without repetition. */
  lemma MatchedOnWellFormed(table: seq<Entry>, j: int, textLc: string)
    requires WellFormed(table)
    requires 0 <= j < |table|
    ensures forall kw :: kw in Matched(table[j].1, textLc) <==> kw in table[j].1 && Contains(textLc, kw)
    ensures IsSubsequence(Matched(table[j].1, textLc), table[j].1)
    ensures Distinct(Matched(table[j].1, textLc))
  {
    var kws := table[j].1;
    var m := Matched(kws, textLc);
    assert EntryWellFormed(table[j]);
    forall kw ensures kw in m <==> kw in kws && Contains(textLc, kw) {
      MatchedMembers(kws, textLc, kw);
      if kw in kws {
        var k :| 0 <= k < |kws| && kws[k] == kw;
        LowerIsLowerCase(kw);
      }
    }
    SubsequenceDistinct(m, kws);
  }

  /** On a well-formed table, the tagger emits a tag for a label exactly
      when some phrase of that label occurs in the lower-cased text. */
  lemma TagEmittedIffOn(table: seq<Entry>, textLc: string, j: int)
    requires WellFormed(table)
    requires 0 <= j < |table|
    ensures (exists k :: 0 <= k < |TagsOf(table, textLc)| && TagsOf(table, textLc)[k].labelName == table[j].0)
        <==> (exists kw :: kw in table[j].1 && Contains(textLc, kw))
  {
    TagsOfCharacterized(table, textLc, j);
    MatchedOnWellFormed(table, j, textLc);
    var m := Matched(table[j].1, textLc);
    if m != [] {
      assert m[0] in m;
    }
  }

  /** On a well-formed table, the tag of a label lists exactly the phrases of
      that label that occur in the lower-cased text, in declared order, never
      none and never one twice, with method "keywords" and score
      `round(min(1, total / 30), 3)` of their total length. */
  lemma TagContentsOn(table: seq<Entry>, textLc: string, j: int, k: int)
    requires WellFormed(table)
    requires 0 <= j < |table|
    requires 0 <= k < |TagsOf(table, textLc)|
    requires TagsOf(table, textLc)[k].labelName == table[j].0
    ensures var t := TagsOf(table, textLc)[k];
      && t.methodName == "keywords"
      && t.keywordsMatched != []
      && Distinct(t.keywordsMatched)
      && IsSubsequence(t.keywordsMatched, table[j].1)
      && (forall kw :: kw in t.keywordsMatched <==> kw in table[j].1 && Contains(textLc, kw))
      && t.scoreMilli == ScoreMilli(TotalLength(t.keywordsMatched))
  {
    TagsOfCharacterized(table, textLc, j);
    MatchedOnWellFormed(table, j, textLc);
  }

  /** `tag_sdg12` emits a tag for an SDG12 label exactly when some phrase of
      that label occurs in the lower-cased text. */
  lemma TagEmittedIff(text: string, j: int)
    requires 0 <= j < |Sdg12Keywords|
    ensures (exists k :: 0 <= k < |Tags(text)| && Tags(text)[k].labelName == Sdg12Keywords[j].0)
        <==> (exists kw :: kw in Sdg12Keywords[j].1 && Contains(Lower(text), kw))
  {
    TaxonomyWellFormed();
    TagEmittedIffOn(Sdg12Keywords, Lower(text), j);
    assert Tags(text) == TagsOf(Sdg12Keywords, Lower(text));
  }

  /** The tag `tag_sdg12` emits for an SDG12 label lists exactly that label's
      phrases that occur in the lower-cased text, in declared order, never
      none and never one twice, with method "keywords" and the rounded score
      of their total length. */
  lemma TagContents(text: string, j: int, k: int)
    requires 0 <= j < |Sdg12Keywords|
    requires 0 <= k < |Tags(text)|
    requires Tags(text)[k].labelName == Sdg12Keywords[j].0
    ensures var t := Tags(text)[k];
      && t.methodName == "keywords"
      && t.keywordsMatched != []
      && Distinct(t.keywordsMatched)
      && IsSubsequence(t.keywordsMatched, Sdg12Keywords[j].1)
      && (forall kw :: kw in t.keywordsMatched <==> kw in Sdg12Keywords[j].1 && Contains(Lower(text), kw))
      && t.scoreMilli == ScoreMilli(TotalLength(t.keywordsMatched))
  {
    TaxonomyWellFormed();
    TagContentsOn(Sdg12Keywords, Lower(text), j, k);
  }

  /** There is no word boundary: text containing "recycled" is tagged
      recyclability through its prefix "recycle" and materials_sourcing
      through "recycled" itself. */
  lemma RecycledTagsBoth(text: string)
    requires Contains(Lower(text), "recycled")
    ensures exists k :: (0 <= k < |Tags(text)|
      && Tags(text)[k].labelName == "recyclability" && "recycle" in Tags(text)[k].keywordsMatched)
    ensures exists k :: (0 <= k < |Tags(text)|
      && Tags(text)[k].labelName == "materials_sourcing" && "recycled" in Tags(text)[k].keywordsMatched)
  {
    ContainsPiece(Lower(text), "recycled", 0, 7);
    assert "recycled"[0..7] == "recycle";
    assert "recycle" in Sdg12Keywords[3].1 && "recycled" in Sdg12Keywords[6].1;
    TagEmittedIff(text, 3);
    TagEmittedIff(text, 6);
    var k3 :| 0 <= k3 < |Tags(text)| && Tags(text)[k3].labelName == Sdg12Keywords[3].0;
    var k6 :| 0 <= k6 < |Tags(text)| && Tags(text)[k6].labelName == Sdg12Keywords[6].0;
    TagContents(text, 3, k3);
    TagContents(text, 6, k6);
  }

  /** Text containing "broken" matches both "broke" and "broken" for
      durability. */
  lemma BrokenMatchesBoth(text: string)
    requires Contains(Lower(text), "broken")
    ensures exists k :: (0 <= k < |Tags(text)| && Tags(text)[k].labelName == "durability"
      && "broke" in Tags(text)[k].keywordsMatched && "broken" in Tags(text)[k].keywordsMatched)
  {
    ContainsPiece(Lower(text), "broken", 0, 5);
    assert "broken"[0..5] == "broke";
    assert "broke" in Sdg12Keywords[1].1 && "broken" in Sdg12Keywords[1].1;
    TagEmittedIff(text, 1);
    var k :| 0 <= k < |Tags(text)| && Tags(text)[k].labelName == Sdg12Keywords[1].0;
    TagContents(text, 1, k);
  }

  /** Tags come in taxonomy order, each label at most once, so there are at
      most seven. */
  lemma TagsInTableOrder(text: string)
    ensures IsSubsequence(TagLabels(Tags(text)), Labels(Sdg12Keywords))
    ensures Distinct(TagLabels(Tags(text)))
    ensures |Tags(text)| <= 7
  {
    TaxonomyWellFormed();
    TagsOfOrdered(Sdg12Keywords, Lower(text));
    SubsequenceDistinct(TagLabels(Tags(text)), Labels(Sdg12Keywords));
  }

  /** On a well-formed table every tag's score lies in (0, 1], and is 1
      from a matched length of 30 on. */
  lemma TagScoreBoundsOn(table: seq<Entry>, textLc: string, k: int)
    requires WellFormed(table)
    requires 0 <= k < |TagsOf(table, textLc)|
    ensures var t := TagsOf(table, textLc)[k];
      && 0 < t.scoreMilli <= 1000
      && (TotalLength(t.keywordsMatched) >= Divisor ==> t.scoreMilli == 1000)
  {
    var t := TagsOf(table, textLc)[k];
    TagsOfSound(table, textLc, k);
    var j :| 0 <= j < |table| && Matched(table[j].1, textLc) != []
      && t == EntryTags(table[j], textLc)[0];
    var m := t.keywordsMatched;
    assert EntryWellFormed(table[j]);
    MatchedOnWellFormed(table, j, textLc);
    NonEmptyPhrasesTotal(m, table[j].1);
    ScoreMilliBounds(TotalLength(m), TotalLength(m));
  }

  /** No non-empty phrase occurs in the empty text. */
  lemma {:induction false} MatchedInEmpty(kws: seq<string>)
    requires forall k :: 0 <= k < |kws| ==> |kws[k]| > 0
    ensures Matched(kws, "") == []
  {
    if |kws| > 0 {
      var kw := kws[|kws| - 1];
      assert |Lower(kw)| > 0;
      assert !Contains("", Lower(kw));
      MatchedInEmpty(kws[..|kws| - 1]);
    }
  }

  /** On a well-formed table the empty text gets no tag, since no phrase is
      empty. */
  lemma {:induction false} TagsOfEmptyOn(table: seq<Entry>)
    requires forall j :: 0 <= j < |table| ==> EntryWellFormed(table[j])
    ensures TagsOf(table, "") == []
  {
    if |table| > 0 {
      MatchedInEmpty(table[|table| - 1].1);
      TagsOfEmptyOn(table[..|table| - 1]);
    }
  }

  /** Every score of `tag_sdg12` lies in (0, 1], and is 1 from a matched
      length of 30 on. */
  lemma TagScoreBounds(text: string, k: int)
    requires 0 <= k < |Tags(text)|
    ensures 0 < Tags(text)[k].scoreMilli <= 1000
    ensures TotalLength(Tags(text)[k].keywordsMatched) >= Divisor ==> Tags(text)[k].scoreMilli == 1000
  {
    TaxonomyWellFormed();
    TagScoreBoundsOn(Sdg12Keywords, Lower(text), k);
  }

  /** `tag_sdg12("")` is `[]`. */
  lemma TagsOfEmptyText()
    ensures Tags("") == []
  {
    TaxonomyWellFormed();
    TagsOfEmptyOn(Sdg12Keywords);
    assert Lower("") == "";
  }

  /** Matched phrases drawn from a list of non-empty phrases have a positive
      total length. */
  lemma NonEmptyPhrasesTotal(m: seq<string>, kws: seq<string>)
    requires m != []
    requires forall x :: x in m ==> x in kws
    requires forall k :: 0 <= k < |kws| ==> |kws[k]| > 0
    ensures TotalLength(m) > 0
  {
    var last := m[|m| - 1];
    assert last in m;
    var k :| 0 <= k < |kws| && kws[k] == last;
  }
}
