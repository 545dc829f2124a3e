/** The two worked examples of `tag_sdg12` (pipeline.py) on concrete
    review texts, together with a decision procedure for containment that
    lets the verifier evaluate `needle in hay` on short literal strings. */
module Scenarios {
  import opened Text
  import opened Taxonomy
  import opened Tagging

  // ---------------------------------------------------------------------------
  // Deciding containment on literal text
  // ---------------------------------------------------------------------------

  /** The needle matches the haystack at offset `i` from its `j`-th
      character on. */
  predicate MatchFrom(hay: string, needle: string, i: nat, j: nat)
    requires i + |needle| <= |hay|
    decreases |needle| - j
  {
    j >= |needle| || (hay[i + j] == needle[j] && MatchFrom(hay, needle, i, j + 1))
  }

  /** The needle occurs in the haystack at some offset from `i` on. */
  predicate SearchFrom(hay: string, needle: string, i: nat)
    decreases |hay| - i
  {
    i + |needle| <= |hay| && (MatchFrom(hay, needle, i, 0) || SearchFrom(hay, needle, i + 1))
  }

  lemma {:induction false} MatchFromCorrect(hay: string, needle: string, i: nat, j: nat)
    requires i + |needle| <= |hay|
    requires j <= |needle|
    ensures MatchFrom(hay, needle, i, j) <==> forall k :: j <= k < |needle| ==> hay[i + k] == needle[k]
    decreases |needle| - j
  {
    if j < |needle| {
      MatchFromCorrect(hay, needle, i, j + 1);
    }
  }

  /** The search decides containment. */
  lemma {:induction false} SearchFromCorrect(hay: string, needle: string, i: nat)
    ensures SearchFrom(hay, needle, i) <==> exists p :: i <= p <= |hay| - |needle| && OccursAt(hay, needle, p)
    decreases |hay| - i
  {
    if i + |needle| <= |hay| {
      MatchFromCorrect(hay, needle, i, 0);
      SearchFromCorrect(hay, needle, i + 1);
      if MatchFrom(hay, needle, i, 0) {
        assert hay[i..i + |needle|] == needle;
      }
      if OccursAt(hay, needle, i) {
        forall k | 0 <= k < |needle| ensures hay[i + k] == needle[k] {
          assert hay[i..i + |needle|][k] == hay[i + k];
        }
      }
    }
  }

  lemma SearchContains(hay: string, needle: string)
    ensures SearchFrom(hay, needle, 0) <==> Contains(hay, needle)
  {
    SearchFromCorrect(hay, needle, 0);
  }

  /** A needle with no space before its last character. */
  predicate NoInnerSpace(n: string) {
    forall k :: 0 <= k < |n| - 1 ==> n[k] != ' '
  }

  /** Every word from the `i`-th on, but the last, ends in a space. */
  predicate SpaceEnded(ws: seq<string>, i: nat)
    decreases |ws| - i
  {
    i + 1 >= |ws| || (|ws[i]| > 0 && ws[i][|ws[i]| - 1] == ' ' && SpaceEnded(ws, i + 1))
  }

  /** No word from the `i`-th on contains the needle, by the search above. */
  predicate NoneContains(ws: seq<string>, n: string, i: nat)
    decreases |ws| - i
  {
    i >= |ws| || (!SearchFrom(ws[i], n, 0) && NoneContains(ws, n, i + 1))
  }

  /** The needle occurs in no word from the `i`-th on. */
  predicate AbsentFromEach(ws: seq<string>, n: string, i: nat) {
    forall k :: i <= k < |ws| ==> !Contains(ws[k], n)
  }

  lemma {:induction false} NoneContainsEach(ws: seq<string>, n: string, i: nat)
    requires NoneContains(ws, n, i)
    ensures AbsentFromEach(ws, n, i)
    decreases |ws| - i
  {
    if i < |ws| {
      SearchContains(ws[i], n);
      NoneContainsEach(ws, n, i + 1);
    }
  }

  /** In text cut after its spaces, a needle with no inner space occurs only
      inside one piece. */
  lemma {:induction false} NotContainsSpaced(ws: seq<string>, n: string, i: nat)
    requires i <= |ws|
    requires |n| > 0 && NoInnerSpace(n)
    requires SpaceEnded(ws, i)
    requires AbsentFromEach(ws, n, i)
    ensures !Contains(Concat(ws[i..]), n)
    decreases |ws| - i
  {
    if i < |ws| {
      var w, rest := ws[i], Concat(ws[i + 1..]);
      assert ws[i..][0] == w && ws[i..][1..] == ws[i + 1..];
      assert Concat(ws[i..]) == w + rest;
      NotContainsSpaced(ws, n, i + 1);
      forall p | 0 <= p <= |w + rest| - |n| ensures !OccursAt(w + rest, n, p) {
        if p + |n| <= |w| {
          assert (w + rest)[p..p + |n|] == w[p..p + |n|];
          assert !OccursAt(w, n, p);
        } else if p >= |w| {
          assert (w + rest)[p..p + |n|] == rest[p - |w|..p - |w| + |n|];
          assert !OccursAt(rest, n, p - |w|);
        } else {
          var q := |w| - 1 - p;
          assert |rest| > 0 && i + 1 < |ws|;
          assert (w + rest)[p..p + |n|][q] == ' ';
          assert n[q] != ' ';
        }
      }
    }
  }

  /** A numeric code for three characters (each below 0x200000), so that
      sets of triples are sets of numbers. */
  function Tri(a: char, b: char, c: char): int {
    ((a as int) * 0x20_0000 + b as int) * 0x20_0000 + c as int
  }

  /** Every three consecutive characters of `w` from the `k`-th on have
      their code in `t`. */
  predicate TrisIn(w: string, t: set<int>, k: nat)
    decreases |w| - k
  {
    k + 3 > |w| || (Tri(w[k], w[k + 1], w[k + 2]) in t && TrisIn(w, t, k + 1))
  }

  /** The same, for every word from the `i`-th on. */
  predicate AllTrisIn(ws: seq<string>, t: set<int>, i: nat)
    decreases |ws| - i
  {
    i >= |ws| || (TrisIn(ws[i], t, 0) && AllTrisIn(ws, t, i + 1))
  }

  lemma {:induction false} TrisInAbsent(w: string, t: set<int>, k: nat, a: char, b: char, c: char)
    requires TrisIn(w, t, k)
    requires Tri(a, b, c) !in t
    ensures forall p :: k <= p <= |w| - 3 ==> !OccursAt(w, [a, b, c], p)
    decreases |w| - k
  {
    if k + 3 <= |w| {
      TrisInAbsent(w, t, k + 1, a, b, c);
      assert w[k..k + 3][0] == w[k] && w[k..k + 3][1] == w[k + 1] && w[k..k + 3][2] == w[k + 2];
    }
  }

  lemma {:induction false} AllTrisAbsent(ws: seq<string>, t: set<int>, i: nat, a: char, b: char, c: char)
    requires AllTrisIn(ws, t, i)
    requires Tri(a, b, c) !in t
    ensures AbsentFromEach(ws, [a, b, c], i)
    decreases |ws| - i
  {
    if i < |ws| {
      TrisInAbsent(ws[i], t, 0, a, b, c);
      AllTrisAbsent(ws, t, i + 1, a, b, c);
    }
  }

  /** What occurs in one piece occurs in the text. */
  lemma {:induction false} ContainsInPiece(ws: seq<string>, k: int, n: string)
    requires 0 <= k < |ws|
    requires SearchFrom(ws[k], n, 0)
    ensures Contains(Concat(ws), n)
  {
    var w, rest := ws[0], Concat(ws[1..]);
    if k == 0 {
      SearchContains(w, n);
      assert (w + rest)[0..|w|] == w;
      ContainsInfix(w + rest, 0, |w|, n);
    } else {
      ContainsInPiece(ws[1..], k - 1, n);
      assert (w + rest)[|w|..|w + rest|] == rest;
      ContainsInfix(w + rest, |w|, |w + rest|, n);
    }
  }

  /** A needle, one of whose pieces is absent from the text, is absent. */
  lemma AbsentByPiece(ws: seq<string>, n: string, p: string, lo: int)
    requires 0 <= lo && 0 < |p| && lo + |p| <= |n| && n[lo..lo + |p|] == p
    requires !Contains(Concat(ws), p)
    ensures !Contains(Concat(ws), n)
  {
    if Contains(Concat(ws), n) {
      ContainsPiece(Concat(ws), n, lo, lo + |p|);
    }
  }

  /** A needle with no inner space that no word of the cut text contains is
      absent from the text. */
  lemma AbsentFromWords(ws: seq<string>, p: string)
    requires |p| > 0 && NoInnerSpace(p)
    requires SpaceEnded(ws, 0)
    requires NoneContains(ws, p, 0)
    ensures !Contains(Concat(ws), p)
  {
    NoneContainsEach(ws, p, 0);
    NotContainsSpaced(ws, p, 0);
    assert ws[0..] == ws;
  }

  /** "sustainable" is absent from a cut text none of whose words contains
      its last five letters. */
  lemma LacksSustainable(ws: seq<string>)
    requires SpaceEnded(ws, 0) && NoneContains(ws, "nable", 0)
    ensures !Contains(Concat(ws), "sustainable")
  {
    assert NoInnerSpace("nable");
    AbsentFromWords(ws, "nable");
    assert "sustainable"[6..11] == "nable";
    AbsentByPiece(ws, "sustainable", "nable", 6);
  }

  /** A needle three of whose consecutive characters, the first two not
      spaces, form a triple the cut text lacks is absent from the text. */
  lemma AbsentByTriple(ws: seq<string>, t: set<int>, n: string, lo: int)
    requires SpaceEnded(ws, 0) && AllTrisIn(ws, t, 0)
    requires 0 <= lo && lo + 3 <= |n| && n[lo] != ' ' && n[lo + 1] != ' '
    requires Tri(n[lo], n[lo + 1], n[lo + 2]) !in t
    ensures !Contains(Concat(ws), n)
  {
    var p := n[lo..lo + 3];
    assert p == [n[lo], n[lo + 1], n[lo + 2]];
    AllTrisAbsent(ws, t, 0, n[lo], n[lo + 1], n[lo + 2]);
    NotContainsSpaced(ws, p, 0);
    assert ws[0..] == ws;
    AbsentByPiece(ws, n, p, lo);
  }

  /** Lower-casing works character by character. */
  lemma LowerAppend(a: string, b: string)
    ensures Lower(a + b) == Lower(a) + Lower(b)
  {
  }

  lemma {:induction false} ConcatAppend(a: seq<string>, b: seq<string>)
    ensures Concat(a + b) == Concat(a) + Concat(b)
  {
    if |a| == 0 {
      assert a + b == b;
    } else {
      assert (a + b)[0] == a[0];
      assert (a + b)[1..] == a[1..] + b;
      ConcatAppend(a[1..], b);
    }
  }

  /** Characters `i..` of `w` lower-case to those of `l`, checked one by one. */
  predicate CharsLowerTo(w: string, l: string, i: nat)
    decreases |w| - i
  {
    |w| == |l| && (i >= |w| || (LowerChar(w[i]) == l[i] && CharsLowerTo(w, l, i + 1)))
  }

  lemma {:induction false} CharsLowerToCorrect(w: string, l: string, i: nat)
    requires CharsLowerTo(w, l, i)
    ensures forall k :: i <= k < |w| ==> LowerChar(w[k]) == l[k]
    decreases |w| - i
  {
    if i < |w| {
      CharsLowerToCorrect(w, l, i + 1);
    }
  }

  /** Words `k..` of `ws` lower-case to those of `ls`. */
  predicate WordsLowerTo(ws: seq<string>, ls: seq<string>, k: nat)
    decreases |ws| - k
  {
    |ws| == |ls| && (k >= |ws| || (CharsLowerTo(ws[k], ls[k], 0) && WordsLowerTo(ws, ls, k + 1)))
  }

  lemma {:induction false} LowerConcatWords(ws: seq<string>, ls: seq<string>, k: nat)
    requires k <= |ws| && WordsLowerTo(ws, ls, k)
    ensures Lower(Concat(ws[k..])) == Concat(ls[k..])
    decreases |ws| - k
  {
    if k < |ws| {
      CharsLowerToCorrect(ws[k], ls[k], 0);
      assert Lower(ws[k]) == ls[k];
      assert ws[k..][1..] == ws[k + 1..];
      assert ls[k..][1..] == ls[k + 1..];
      LowerAppend(ws[k], Concat(ws[k + 1..]));
      LowerConcatWords(ws, ls, k + 1);
    }
  }

  // ---------------------------------------------------------------------------
  // Reading the tagger phrase by phrase and entry by entry
  // ---------------------------------------------------------------------------

  /** The matches among the first `n` phrases, for phrases that are their
      own lower case. */
  function MatchedUpTo(kws: seq<string>, textLc: string, n: nat): seq<string>
    requires n <= |kws|
  {
    if n == 0 then []
    else MatchedUpTo(kws, textLc, n - 1) + (if Contains(textLc, kws[n - 1]) then [kws[n - 1]] else [])
  }

  lemma {:induction false} MatchedUpToIs(kws: seq<string>, textLc: string, n: nat)
    requires n <= |kws|
    requires forall k :: 0 <= k < |kws| ==> Lower(kws[k]) == kws[k]
    ensures Matched(kws[..n], textLc) == MatchedUpTo(kws, textLc, n)
  {
    if n > 0 {
      assert kws[..n][..n - 1] == kws[..n - 1];
      assert kws[..n][n - 1] == kws[n - 1];
      MatchedUpToIs(kws, textLc, n - 1);
    }
  }

  /** The tags of the first `n` entries. */
  function TagsUpTo(es: seq<Entry>, textLc: string, n: nat): seq<SignalTag>
    requires n <= |es|
  {
    if n == 0 then [] else TagsUpTo(es, textLc, n - 1) + EntryTags(es[n - 1], textLc)
  }

  lemma {:induction false} TagsUpToIs(es: seq<Entry>, textLc: string, n: nat)
    requires n <= |es|
    ensures TagsOf(es[..n], textLc) == TagsUpTo(es, textLc, n)
  {
    if n > 0 {
      assert es[..n][..n - 1] == es[..n - 1];
      assert es[..n][n - 1] == es[n - 1];
      TagsUpToIs(es, textLc, n - 1);
    }
  }

  /** An entry's tag once its matches are known. */
  lemma EntryTagsOfMatched(e: Entry, textLc: string, m: seq<string>)
    requires forall k :: 0 <= k < |e.1| ==> Lower(e.1[k]) == e.1[k]
    requires MatchedUpTo(e.1, textLc, |e.1|) == m
    ensures EntryTags(e, textLc) == if m == [] then [] else [SignalTag(e.0, ScoreMilli(TotalLength(m)), "keywords", m)]
  {
    MatchedUpToIs(e.1, textLc, |e.1|);
    assert e.1[..|e.1|] == e.1;
  }

  /** The tags of a text, read off the tags of its lower case. */
  lemma TagsVia(text: string, textLc: string, expected: seq<SignalTag>)
    requires Lower(text) == textLc
    requires TagsOf(Sdg12Keywords, textLc) == expected
    ensures Tags(text) == expected
  {
  }

  // ---------------------------------------------------------------------------
  // "The packaging was excessive and it broke after a week, terrible!"
  // ---------------------------------------------------------------------------

  /** The review text, spelled out word by word (each word with the space
      after it). */
  const Review1Words: seq<string> :=
    ["The ", "packaging ", "was ", "excessive ", "and ", "it ", "broke ", "after ", "a ", "week, ", "terrible!"]

  /** "The packaging was excessive and it broke after a week, terrible!",
      the words above laid end to end. */
  const Review1: string := Concat(Review1Words)

  /** Its lower case, cut after each space. */
  const Review1Lower: seq<string> :=
    ["the ", "packaging ", "was ", "excessive ", "and ", "it ", "broke ", "after ", "a ", "week, ", "terrible!"]

  /** The codes, as `Tri` computes them, of the triples of consecutive
      characters within its lower-cased words. Each word's triples are
      proved members of this set below (`TrisIn`), so a wrong or missing
      code fails verification. */
  const Review1Triples: set<int> :=
    {426610719195243, 426610725486708, 426610727583849, 426610742263908, 426610752749600, 431008784580709,
     431008797163631, 435406816411763, 435406828994657, 444202909433963, 444202922016812, 444202936696864,
     444202936696946, 444202938794099, 444202949279843, 448600987402341, 452999010844782, 457397048967200,
     461795089186924, 461795114352743, 461795126935584, 461795131129957, 470591068962848, 470591180111975,
     470591188500512, 474989235011617, 483785325936672, 483785332228128, 488183387127909, 492581412667491,
     501377522466914, 501377535049835, 501377541341289, 505775568978038, 505775589949545, 510173607100530,
     510173613391973, 518969700122656, 523367738245235, 523367746633829, 527765788950629}

  lemma Review1Word0Lowered()
    ensures CharsLowerTo(Review1Words[0], Review1Lower[0], 0)
  {
  }

  lemma Review1Word1Lowered()
    ensures CharsLowerTo(Review1Words[1], Review1Lower[1], 0)
  {
  }

  lemma Review1Word2Lowered()
    ensures CharsLowerTo(Review1Words[2], Review1Lower[2], 0)
  {
  }

  lemma Review1Word3Lowered()
    ensures CharsLowerTo(Review1Words[3], Review1Lower[3], 0)
  {
  }

  lemma Review1Word4Lowered()
    ensures CharsLowerTo(Review1Words[4], Review1Lower[4], 0)
  {
  }

  lemma Review1Word5Lowered()
    ensures CharsLowerTo(Review1Words[5], Review1Lower[5], 0)
  {
  }

  lemma Review1Word6Lowered()
    ensures CharsLowerTo(Review1Words[6], Review1Lower[6], 0)
  {
  }

  lemma Review1Word7Lowered()
    ensures CharsLowerTo(Review1Words[7], Review1Lower[7], 0)
  {
  }

  lemma Review1Word8Lowered()
    ensures CharsLowerTo(Review1Words[8], Review1Lower[8], 0)
  {
  }

  lemma Review1Word9Lowered()
    ensures CharsLowerTo(Review1Words[9], Review1Lower[9], 0)
  {
  }

  lemma Review1Word10Lowered()
    ensures CharsLowerTo(Review1Words[10], Review1Lower[10], 0)
  {
  }

  lemma Review1WordsLowered()
    ensures WordsLowerTo(Review1Words, Review1Lower, 0)
  {
    Review1Word0Lowered();
    Review1Word1Lowered();
    Review1Word2Lowered();
    Review1Word3Lowered();
    Review1Word4Lowered();
    Review1Word5Lowered();
    Review1Word6Lowered();
    Review1Word7Lowered();
    Review1Word8Lowered();
    Review1Word9Lowered();
    Review1Word10Lowered();
    assert WordsLowerTo(Review1Words, Review1Lower, 10);
    assert WordsLowerTo(Review1Words, Review1Lower, 9);
    assert WordsLowerTo(Review1Words, Review1Lower, 8);
    assert WordsLowerTo(Review1Words, Review1Lower, 7);
    assert WordsLowerTo(Review1Words, Review1Lower, 6);
    assert WordsLowerTo(Review1Words, Review1Lower, 5);
    assert WordsLowerTo(Review1Words, Review1Lower, 4);
    assert WordsLowerTo(Review1Words, Review1Lower, 3);
    assert WordsLowerTo(Review1Words, Review1Lower, 2);
    assert WordsLowerTo(Review1Words, Review1Lower, 1);
  }

  lemma Review1Lowered()
    ensures Lower(Review1) == Concat(Review1Lower)
  {
    Review1WordsLowered();
    LowerConcatWords(Review1Words, Review1Lower, 0);
    assert Review1Words[0..] == Review1Words;
    assert Review1Lower[0..] == Review1Lower;
  }

  lemma Review1Word0Covered()
    ensures TrisIn(Review1Lower[0], Review1Triples, 0)
  {
  }

  lemma Review1Word1Covered()
    ensures TrisIn(Review1Lower[1], Review1Triples, 0)
  {
  }

  lemma Review1Word2Covered()
    ensures TrisIn(Review1Lower[2], Review1Triples, 0)
  {
  }

  lemma Review1Word3Covered()
    ensures TrisIn(Review1Lower[3], Review1Triples, 0)
  {
  }

  lemma Review1Word4Covered()
    ensures TrisIn(Review1Lower[4], Review1Triples, 0)
  {
  }

  lemma Review1Word5Covered()
    ensures TrisIn(Review1Lower[5], Review1Triples, 0)
  {
  }

  lemma Review1Word6Covered()
    ensures TrisIn(Review1Lower[6], Review1Triples, 0)
  {
  }

  lemma Review1Word7Covered()
    ensures TrisIn(Review1Lower[7], Review1Triples, 0)
  {
  }

  lemma Review1Word9Covered()
    ensures TrisIn(Review1Lower[9], Review1Triples, 0)
  {
  }

  lemma Review1Word10Covered()
    ensures TrisIn(Review1Lower[10], Review1Triples, 0)
  {
  }

  lemma Review1SpaceEnded()
    ensures SpaceEnded(Review1Lower, 0)
  {
    assert SpaceEnded(Review1Lower, 10);
    assert SpaceEnded(Review1Lower, 9);
    assert SpaceEnded(Review1Lower, 8);
    assert SpaceEnded(Review1Lower, 7);
    assert SpaceEnded(Review1Lower, 6);
    assert SpaceEnded(Review1Lower, 5);
    assert SpaceEnded(Review1Lower, 4);
    assert SpaceEnded(Review1Lower, 3);
    assert SpaceEnded(Review1Lower, 2);
    assert SpaceEnded(Review1Lower, 1);
  }

  lemma Review1CoveredFrom5()
    ensures AllTrisIn(Review1Lower, Review1Triples, 5)
  {
    Review1Word5Covered();
    Review1Word6Covered();
    Review1Word7Covered();
    Review1Word9Covered();
    Review1Word10Covered();
    assert AllTrisIn(Review1Lower, Review1Triples, 10);
    assert AllTrisIn(Review1Lower, Review1Triples, 9);
    assert AllTrisIn(Review1Lower, Review1Triples, 8);
    assert AllTrisIn(Review1Lower, Review1Triples, 7);
    assert AllTrisIn(Review1Lower, Review1Triples, 6);
  }

  lemma Review1Covered()
    ensures SpaceEnded(Review1Lower, 0) && AllTrisIn(Review1Lower, Review1Triples, 0)
  {
    Review1SpaceEnded();
    Review1CoveredFrom5();
    Review1Word0Covered();
    Review1Word1Covered();
    Review1Word2Covered();
    Review1Word3Covered();
    Review1Word4Covered();
    assert AllTrisIn(Review1Lower, Review1Triples, 4);
    assert AllTrisIn(Review1Lower, Review1Triples, 3);
    assert AllTrisIn(Review1Lower, Review1Triples, 2);
    assert AllTrisIn(Review1Lower, Review1Triples, 1);
  }

  lemma Review1PackagingWasteFacts(ws: seq<string>, t: set<int>)
    requires SpaceEnded(ws, 0) && AllTrisIn(ws, t, 0)
    requires |ws| > 1 && SearchFrom(ws[1], "packaging", 0)
    requires Tri('p', 'l', 'a') !in t
    requires Tri('s', 's', ' ') !in t
    requires Tri('t', 'o', 'o') !in t
    requires Tri('b', 'u', 'b') !in t
    requires Tri('p', 'o', 'l') !in t
    ensures var text := Concat(ws); Contains(text, "packaging") && !Contains(text, "plastic") && !Contains(text, "excess packaging") && !Contains(text, "too much packaging") && !Contains(text, "bubble wrap") && !Contains(text, "polystyrene")
  {
    ContainsInPiece(ws, 1, "packaging");
    AbsentByTriple(ws, t, "plastic", 0);
    AbsentByTriple(ws, t, "excess packaging", 4);
    AbsentByTriple(ws, t, "too much packaging", 0);
    AbsentByTriple(ws, t, "bubble wrap", 0);
    AbsentByTriple(ws, t, "polystyrene", 0);
  }

  lemma Review1NoPla()
    ensures Tri('p', 'l', 'a') !in Review1Triples
  {
  }

  lemma Review1NoSsSpace()
    ensures Tri('s', 's', ' ') !in Review1Triples
  {
  }

  lemma Review1NoToo()
    ensures Tri('t', 'o', 'o') !in Review1Triples
  {
  }

  lemma Review1NoBub()
    ensures Tri('b', 'u', 'b') !in Review1Triples
  {
  }

  lemma Review1NoPol()
    ensures Tri('p', 'o', 'l') !in Review1Triples
  {
  }

  lemma Review1PackagingWasteFound()
    ensures var text := Concat(Review1Lower); Contains(text, "packaging") && !Contains(text, "plastic") && !Contains(text, "excess packaging") && !Contains(text, "too much packaging") && !Contains(text, "bubble wrap") && !Contains(text, "polystyrene")
  {
    Review1Covered();
    Review1NoPla();
    Review1NoSsSpace();
    Review1NoToo();
    Review1NoBub();
    Review1NoPol();
    Review1PackagingWasteFacts(Review1Lower, Review1Triples);
  }

  /** The phrases of packaging_waste found in the review: "packaging". */
  lemma Review1PackagingWasteMatched(text: string)
    requires Contains(text, "packaging")
    requires !Contains(text, "plastic")
    requires !Contains(text, "excess packaging")
    requires !Contains(text, "too much packaging")
    requires !Contains(text, "bubble wrap")
    requires !Contains(text, "polystyrene")
    ensures MatchedUpTo(Sdg12Keywords[0].1, text, 6) == ["packaging"]
  {
    var kws := Sdg12Keywords[0].1;
    assert MatchedUpTo(kws, text, 1) == ["packaging"];
    assert MatchedUpTo(kws, text, 2) == ["packaging"];
    assert MatchedUpTo(kws, text, 3) == ["packaging"];
    assert MatchedUpTo(kws, text, 4) == ["packaging"];
    assert MatchedUpTo(kws, text, 5) == ["packaging"];
    assert MatchedUpTo(kws, text, 6) == ["packaging"];
  }

  lemma Review1DurabilityFacts(ws: seq<string>, t: set<int>)
    requires SpaceEnded(ws, 0) && AllTrisIn(ws, t, 0)
    requires |ws| > 6 && SearchFrom(ws[6], "broke", 0)
    requires Tri('k', 'e', 'n') !in t
    requires Tri('s', 't', 'o') !in t
    requires Tri('f', 'e', 'l') !in t
    requires Tri('d', 'u', 'r') !in t
    requires Tri('l', 'a', 's') !in t
    requires Tri('s', 't', 'u') !in t
    ensures var text := Concat(ws); Contains(text, "broke") && !Contains(text, "broken") && !Contains(text, "stopped working") && !Contains(text, "fell apart") && !Contains(text, "durable") && !Contains(text, "lasted") && !Contains(text, "sturdy")
  {
    ContainsInPiece(ws, 6, "broke");
    AbsentByTriple(ws, t, "broken", 3);
    AbsentByTriple(ws, t, "stopped working", 0);
    AbsentByTriple(ws, t, "fell apart", 0);
    AbsentByTriple(ws, t, "durable", 0);
    AbsentByTriple(ws, t, "lasted", 0);
    AbsentByTriple(ws, t, "sturdy", 0);
  }

  lemma Review1NoKen()
    ensures Tri('k', 'e', 'n') !in Review1Triples
  {
  }

  lemma Review1NoSto()
    ensures Tri('s', 't', 'o') !in Review1Triples
  {
  }

  lemma Review1NoFel()
    ensures Tri('f', 'e', 'l') !in Review1Triples
  {
  }

  lemma Review1NoDur()
    ensures Tri('d', 'u', 'r') !in Review1Triples
  {
  }

  lemma Review1NoLas()
    ensures Tri('l', 'a', 's') !in Review1Triples
  {
  }

  lemma Review1NoStu()
    ensures Tri('s', 't', 'u') !in Review1Triples
  {
  }

  lemma Review1DurabilityFound()
    ensures var text := Concat(Review1Lower); Contains(text, "broke") && !Contains(text, "broken") && !Contains(text, "stopped working") && !Contains(text, "fell apart") && !Contains(text, "durable") && !Contains(text, "lasted") && !Contains(text, "sturdy")
  {
    Review1Covered();
    Review1NoKen();
    Review1NoSto();
    Review1NoFel();
    Review1NoDur();
    Review1NoLas();
    Review1NoStu();
    Review1DurabilityFacts(Review1Lower, Review1Triples);
  }

  /** The phrases of durability found in the review: "broke". */
  lemma Review1DurabilityMatched(text: string)
    requires Contains(text, "broke")
    requires !Contains(text, "broken")
    requires !Contains(text, "stopped working")
    requires !Contains(text, "fell apart")
    requires !Contains(text, "durable")
    requires !Contains(text, "lasted")
    requires !Contains(text, "sturdy")
    ensures MatchedUpTo(Sdg12Keywords[1].1, text, 7) == ["broke"]
  {
    var kws := Sdg12Keywords[1].1;
    assert MatchedUpTo(kws, text, 1) == ["broke"];
    assert MatchedUpTo(kws, text, 2) == ["broke"];
    assert MatchedUpTo(kws, text, 3) == ["broke"];
    assert MatchedUpTo(kws, text, 4) == ["broke"];
    assert MatchedUpTo(kws, text, 5) == ["broke"];
    assert MatchedUpTo(kws, text, 6) == ["broke"];
    assert MatchedUpTo(kws, text, 7) == ["broke"];
  }

  lemma RepairabilityFacts(ws: seq<string>, t: set<int>)
    requires SpaceEnded(ws, 0) && AllTrisIn(ws, t, 0)
    requires Tri('r', 'e', 'p') !in t
    requires Tri('f', 'i', 'x') !in t
    requires Tri('s', 'p', 'a') !in t
    requires Tri('s', 'e', 'r') !in t
    requires Tri('w', 'a', 'r') !in t
    ensures var text := Concat(ws); !Contains(text, "repair") && !Contains(text, "fix") && !Contains(text, "spare parts") && !Contains(text, "replacement parts") && !Contains(text, "service center") && !Contains(text, "warranty")
  {
    AbsentByTriple(ws, t, "repair", 0);
    AbsentByTriple(ws, t, "fix", 0);
    AbsentByTriple(ws, t, "spare parts", 0);
    AbsentByTriple(ws, t, "replacement parts", 0);
    AbsentByTriple(ws, t, "service center", 0);
    AbsentByTriple(ws, t, "warranty", 0);
  }

  lemma Review1NoRep()
    ensures Tri('r', 'e', 'p') !in Review1Triples
  {
  }

  lemma Review1NoFix()
    ensures Tri('f', 'i', 'x') !in Review1Triples
  {
  }

  lemma Review1NoSpa()
    ensures Tri('s', 'p', 'a') !in Review1Triples
  {
  }

  lemma Review1NoSer()
    ensures Tri('s', 'e', 'r') !in Review1Triples
  {
  }

  lemma Review1NoWar()
    ensures Tri('w', 'a', 'r') !in Review1Triples
  {
  }

  lemma Review1RepairabilityFound()
    ensures var text := Concat(Review1Lower); !Contains(text, "repair") && !Contains(text, "fix") && !Contains(text, "spare parts") && !Contains(text, "replacement parts") && !Contains(text, "service center") && !Contains(text, "warranty")
  {
    Review1Covered();
    Review1NoRep();
    Review1NoFix();
    Review1NoSpa();
    Review1NoRep();
    Review1NoSer();
    Review1NoWar();
    RepairabilityFacts(Review1Lower, Review1Triples);
  }

  /** The phrases of repairability found in the review: none. */
  lemma RepairabilityMatched(text: string)
    requires !Contains(text, "repair")
    requires !Contains(text, "fix")
    requires !Contains(text, "spare parts")
    requires !Contains(text, "replacement parts")
    requires !Contains(text, "service center")
    requires !Contains(text, "warranty")
    ensures MatchedUpTo(Sdg12Keywords[2].1, text, 6) == []
  {
    var kws := Sdg12Keywords[2].1;
    assert MatchedUpTo(kws, text, 1) == [];
    assert MatchedUpTo(kws, text, 2) == [];
    assert MatchedUpTo(kws, text, 3) == [];
    assert MatchedUpTo(kws, text, 4) == [];
    assert MatchedUpTo(kws, text, 5) == [];
    assert MatchedUpTo(kws, text, 6) == [];
  }

  lemma Review1RecyclabilityFacts(ws: seq<string>, t: set<int>)
    requires SpaceEnded(ws, 0) && AllTrisIn(ws, t, 0)
    requires Tri('r', 'e', 'c') !in t
    requires Tri('b', 'i', 'o') !in t
    requires Tri('c', 'o', 'm') !in t
    ensures var text := Concat(ws); !Contains(text, "recyclable") && !Contains(text, "recycle") && !Contains(text, "biodegradable") && !Contains(text, "compostable")
  {
    AbsentByTriple(ws, t, "recyclable", 0);
    AbsentByTriple(ws, t, "recycle", 0);
    AbsentByTriple(ws, t, "biodegradable", 0);
    AbsentByTriple(ws, t, "compostable", 0);
  }

  lemma Review1NoRec()
    ensures Tri('r', 'e', 'c') !in Review1Triples
  {
  }

  lemma Review1NoBio()
    ensures Tri('b', 'i', 'o') !in Review1Triples
  {
  }

  lemma Review1NoCom()
    ensures Tri('c', 'o', 'm') !in Review1Triples
  {
  }

  lemma Review1RecyclabilityFound()
    ensures var text := Concat(Review1Lower); !Contains(text, "recyclable") && !Contains(text, "recycle") && !Contains(text, "biodegradable") && !Contains(text, "compostable")
  {
    Review1Covered();
    Review1NoRec();
    Review1NoRec();
    Review1NoBio();
    Review1NoCom();
    Review1RecyclabilityFacts(Review1Lower, Review1Triples);
  }

  /** The phrases of recyclability found in the review: none. */
  lemma Review1RecyclabilityMatched(text: string)
    requires !Contains(text, "recyclable")
    requires !Contains(text, "recycle")
    requires !Contains(text, "biodegradable")
    requires !Contains(text, "compostable")
    ensures MatchedUpTo(Sdg12Keywords[3].1, text, 4) == []
  {
    var kws := Sdg12Keywords[3].1;
    assert MatchedUpTo(kws, text, 1) == [];
    assert MatchedUpTo(kws, text, 2) == [];
    assert MatchedUpTo(kws, text, 3) == [];
    assert MatchedUpTo(kws, text, 4) == [];
  }

  lemma EnergyEfficiencyFacts(ws: seq<string>, t: set<int>)
    requires SpaceEnded(ws, 0) && AllTrisIn(ws, t, 0)
    requires Tri('e', 'n', 'e') !in t
    requires Tri('p', 'o', 'w') !in t
    requires Tri('e', 'l', 'e') !in t
    ensures var text := Concat(ws); !Contains(text, "energy efficient") && !Contains(text, "power consumption") && !Contains(text, "electricity bill") && !Contains(text, "energy rating")
  {
    AbsentByTriple(ws, t, "energy efficient", 0);
    AbsentByTriple(ws, t, "power consumption", 0);
    AbsentByTriple(ws, t, "electricity bill", 0);
    AbsentByTriple(ws, t, "energy rating", 0);
  }

  lemma Review1NoEne()
    ensures Tri('e', 'n', 'e') !in Review1Triples
  {
  }

  lemma Review1NoPow()
    ensures Tri('p', 'o', 'w') !in Review1Triples
  {
  }

  lemma Review1NoEle()
    ensures Tri('e', 'l', 'e') !in Review1Triples
  {
  }

  lemma Review1EnergyEfficiencyFound()
    ensures var text := Concat(Review1Lower); !Contains(text, "energy efficient") && !Contains(text, "power consumption") && !Contains(text, "electricity bill") && !Contains(text, "energy rating")
  {
    Review1Covered();
    Review1NoEne();
    Review1NoPow();
    Review1NoEle();
    Review1NoEne();
    EnergyEfficiencyFacts(Review1Lower, Review1Triples);
  }

  /** The phrases of energy_efficiency found in the review: none. */
  lemma EnergyEfficiencyMatched(text: string)
    requires !Contains(text, "energy efficient")
    requires !Contains(text, "power consumption")
    requires !Contains(text, "electricity bill")
    requires !Contains(text, "energy rating")
    ensures MatchedUpTo(Sdg12Keywords[4].1, text, 4) == []
  {
    var kws := Sdg12Keywords[4].1;
    assert MatchedUpTo(kws, text, 1) == [];
    assert MatchedUpTo(kws, text, 2) == [];
    assert MatchedUpTo(kws, text, 3) == [];
    assert MatchedUpTo(kws, text, 4) == [];
  }

  lemma Review1ReturnsOverconsumptionFacts(ws: seq<string>, t: set<int>)
    requires SpaceEnded(ws, 0) && AllTrisIn(ws, t, 0)
    requires Tri('r', 'e', 't') !in t
    requires Tri('r', 'e', 'f') !in t
    requires Tri('x', 'c', 'h') !in t
    requires Tri('o', 'v', 'e') !in t
    requires Tri('u', 'n', 'u') !in t
    requires Tri('a', 's', 't') !in t
    ensures var text := Concat(ws); !Contains(text, "return") && !Contains(text, "refund") && !Contains(text, "exchanged") && !Contains(text, "overbuy") && !Contains(text, "unused") && !Contains(text, "waste")
  {
    AbsentByTriple(ws, t, "return", 0);
    AbsentByTriple(ws, t, "refund", 0);
    AbsentByTriple(ws, t, "exchanged", 1);
    AbsentByTriple(ws, t, "overbuy", 0);
    AbsentByTriple(ws, t, "unused", 0);
    AbsentByTriple(ws, t, "waste", 1);
  }

  lemma Review1NoRet()
    ensures Tri('r', 'e', 't') !in Review1Triples
  {
  }

  lemma Review1NoRef()
    ensures Tri('r', 'e', 'f') !in Review1Triples
  {
  }

  lemma Review1NoXch()
    ensures Tri('x', 'c', 'h') !in Review1Triples
  {
  }

  lemma Review1NoOve()
    ensures Tri('o', 'v', 'e') !in Review1Triples
  {
  }

  lemma Review1NoUnu()
    ensures Tri('u', 'n', 'u') !in Review1Triples
  {
  }

  lemma Review1NoAst()
    ensures Tri('a', 's', 't') !in Review1Triples
  {
  }

  lemma Review1ReturnsOverconsumptionFound()
    ensures var text := Concat(Review1Lower); !Contains(text, "return") && !Contains(text, "refund") && !Contains(text, "exchanged") && !Contains(text, "overbuy") && !Contains(text, "unused") && !Contains(text, "waste")
  {
    Review1Covered();
    Review1NoRet();
    Review1NoRef();
    Review1NoXch();
    Review1NoOve();
    Review1NoUnu();
    Review1NoAst();
    Review1ReturnsOverconsumptionFacts(Review1Lower, Review1Triples);
  }

  /** The phrases of returns_overconsumption found in the review: none. */
  lemma ReturnsOverconsumptionMatched(text: string)
    requires !Contains(text, "return")
    requires !Contains(text, "refund")
    requires !Contains(text, "exchanged")
    requires !Contains(text, "overbuy")
    requires !Contains(text, "unused")
    requires !Contains(text, "waste")
    ensures MatchedUpTo(Sdg12Keywords[5].1, text, 6) == []
  {
    var kws := Sdg12Keywords[5].1;
    assert MatchedUpTo(kws, text, 1) == [];
    assert MatchedUpTo(kws, text, 2) == [];
    assert MatchedUpTo(kws, text, 3) == [];
    assert MatchedUpTo(kws, text, 4) == [];
    assert MatchedUpTo(kws, text, 5) == [];
    assert MatchedUpTo(kws, text, 6) == [];
  }

  lemma Review1MaterialsSourcingFacts(ws: seq<string>, t: set<int>)
    requires SpaceEnded(ws, 0) && AllTrisIn(ws, t, 0)
    requires Tri('r', 'e', 'c') !in t
    requires Tri('s', 'u', 's') !in t
    requires Tri('o', 'r', 'g') !in t
    requires Tri('r', 'e', 's') !in t
    requires Tri('m', 'a', 't') !in t
    ensures var text := Concat(ws); !Contains(text, "recycled") && !Contains(text, "sustainable") && !Contains(text, "organic") && !Contains(text, "responsibly sourced") && !Contains(text, "materials")
  {
    AbsentByTriple(ws, t, "recycled", 0);
    AbsentByTriple(ws, t, "sustainable", 0);
    AbsentByTriple(ws, t, "organic", 0);
    AbsentByTriple(ws, t, "responsibly sourced", 0);
    AbsentByTriple(ws, t, "materials", 0);
  }

  lemma Review1NoSus()
    ensures Tri('s', 'u', 's') !in Review1Triples
  {
  }

  lemma Review1NoOrg()
    ensures Tri('o', 'r', 'g') !in Review1Triples
  {
  }

  lemma Review1NoRes()
    ensures Tri('r', 'e', 's') !in Review1Triples
  {
  }

  lemma Review1NoMat()
    ensures Tri('m', 'a', 't') !in Review1Triples
  {
  }

  lemma Review1MaterialsSourcingFound()
    ensures var text := Concat(Review1Lower); !Contains(text, "recycled") && !Contains(text, "sustainable") && !Contains(text, "organic") && !Contains(text, "responsibly sourced") && !Contains(text, "materials")
  {
    Review1Covered();
    Review1NoRec();
    Review1NoSus();
    Review1NoOrg();
    Review1NoRes();
    Review1NoMat();
    Review1MaterialsSourcingFacts(Review1Lower, Review1Triples);
  }

  /** The phrases of materials_sourcing found in the review: none. */
  lemma MaterialsSourcingMatched(text: string)
    requires !Contains(text, "recycled")
    requires !Contains(text, "sustainable")
    requires !Contains(text, "organic")
    requires !Contains(text, "responsibly sourced")
    requires !Contains(text, "materials")
    ensures MatchedUpTo(Sdg12Keywords[6].1, text, 5) == []
  {
    var kws := Sdg12Keywords[6].1;
    assert MatchedUpTo(kws, text, 1) == [];
    assert MatchedUpTo(kws, text, 2) == [];
    assert MatchedUpTo(kws, text, 3) == [];
    assert MatchedUpTo(kws, text, 4) == [];
    assert MatchedUpTo(kws, text, 5) == [];
  }

  lemma Review1PackagingWasteTag(text: string)
    requires MatchedUpTo(Sdg12Keywords[0].1, text, 6) == ["packaging"]
    ensures EntryTags(Sdg12Keywords[0], text) == [SignalTag("packaging_waste", 300, "keywords", ["packaging"])]
  {
    PhrasesLowerCase(0);
    EntryTagsOfMatched(Sdg12Keywords[0], text, ["packaging"]);
    assert TotalLength(["packaging"]) == 9;
    ScoreMilliBelow(9, 300);
    assert Sdg12Keywords[0].0 == "packaging_waste";
  }

  lemma Review1DurabilityTag(text: string)
    requires MatchedUpTo(Sdg12Keywords[1].1, text, 7) == ["broke"]
    ensures EntryTags(Sdg12Keywords[1], text) == [SignalTag("durability", 167, "keywords", ["broke"])]
  {
    PhrasesLowerCase(1);
    EntryTagsOfMatched(Sdg12Keywords[1], text, ["broke"]);
    assert TotalLength(["broke"]) == 5;
    ScoreMilliBelow(5, 167);
    assert Sdg12Keywords[1].0 == "durability";
  }

  lemma RepairabilityTag(text: string)
    requires MatchedUpTo(Sdg12Keywords[2].1, text, 6) == []
    ensures EntryTags(Sdg12Keywords[2], text) == []
  {
    PhrasesLowerCase(2);
    EntryTagsOfMatched(Sdg12Keywords[2], text, []);
  }

  lemma Review1RecyclabilityTag(text: string)
    requires MatchedUpTo(Sdg12Keywords[3].1, text, 4) == []
    ensures EntryTags(Sdg12Keywords[3], text) == []
  {
    PhrasesLowerCase(3);
    EntryTagsOfMatched(Sdg12Keywords[3], text, []);
  }

  lemma EnergyEfficiencyTag(text: string)
    requires MatchedUpTo(Sdg12Keywords[4].1, text, 4) == []
    ensures EntryTags(Sdg12Keywords[4], text) == []
  {
    PhrasesLowerCase(4);
    EntryTagsOfMatched(Sdg12Keywords[4], text, []);
  }

  lemma ReturnsOverconsumptionTag(text: string)
    requires MatchedUpTo(Sdg12Keywords[5].1, text, 6) == []
    ensures EntryTags(Sdg12Keywords[5], text) == []
  {
    PhrasesLowerCase(5);
    EntryTagsOfMatched(Sdg12Keywords[5], text, []);
  }

  lemma MaterialsSourcingTag(text: string)
    requires MatchedUpTo(Sdg12Keywords[6].1, text, 5) == []
    ensures EntryTags(Sdg12Keywords[6], text) == []
  {
    PhrasesLowerCase(6);
    EntryTagsOfMatched(Sdg12Keywords[6], text, []);
  }

  lemma Review1TagsFromEntries(text: string)
    requires EntryTags(Sdg12Keywords[0], text) == [SignalTag("packaging_waste", 300, "keywords", ["packaging"])]
    requires EntryTags(Sdg12Keywords[1], text) == [SignalTag("durability", 167, "keywords", ["broke"])]
    requires EntryTags(Sdg12Keywords[2], text) == []
    requires EntryTags(Sdg12Keywords[3], text) == []
    requires EntryTags(Sdg12Keywords[4], text) == []
    requires EntryTags(Sdg12Keywords[5], text) == []
    requires EntryTags(Sdg12Keywords[6], text) == []
    ensures TagsOf(Sdg12Keywords, text) == [SignalTag("packaging_waste", 300, "keywords", ["packaging"]), SignalTag("durability", 167, "keywords", ["broke"])]
  {
    var es := Sdg12Keywords;
    assert TagsUpTo(es, text, 1) == [SignalTag("packaging_waste", 300, "keywords", ["packaging"])];
    assert TagsUpTo(es, text, 2) == [SignalTag("packaging_waste", 300, "keywords", ["packaging"]), SignalTag("durability", 167, "keywords", ["broke"])];
    assert TagsUpTo(es, text, 3) == [SignalTag("packaging_waste", 300, "keywords", ["packaging"]), SignalTag("durability", 167, "keywords", ["broke"])];
    assert TagsUpTo(es, text, 4) == [SignalTag("packaging_waste", 300, "keywords", ["packaging"]), SignalTag("durability", 167, "keywords", ["broke"])];
    assert TagsUpTo(es, text, 5) == [SignalTag("packaging_waste", 300, "keywords", ["packaging"]), SignalTag("durability", 167, "keywords", ["broke"])];
    assert TagsUpTo(es, text, 6) == [SignalTag("packaging_waste", 300, "keywords", ["packaging"]), SignalTag("durability", 167, "keywords", ["broke"])];
    assert TagsUpTo(es, text, 7) == [SignalTag("packaging_waste", 300, "keywords", ["packaging"]), SignalTag("durability", 167, "keywords", ["broke"])];
    TagsUpToIs(es, text, 7);
    assert es[..7] == es;
  }

  lemma Review1TagsOf(text: string)
    requires Contains(text, "packaging")
    requires !Contains(text, "plastic")
    requires !Contains(text, "excess packaging")
    requires !Contains(text, "too much packaging")
    requires !Contains(text, "bubble wrap")
    requires !Contains(text, "polystyrene")
    requires Contains(text, "broke")
    requires !Contains(text, "broken")
    requires !Contains(text, "stopped working")
    requires !Contains(text, "fell apart")
    requires !Contains(text, "durable")
    requires !Contains(text, "lasted")
    requires !Contains(text, "sturdy")
    requires !Contains(text, "repair")
    requires !Contains(text, "fix")
    requires !Contains(text, "spare parts")
    requires !Contains(text, "replacement parts")
    requires !Contains(text, "service center")
    requires !Contains(text, "warranty")
    requires !Contains(text, "recyclable")
    requires !Contains(text, "recycle")
    requires !Contains(text, "biodegradable")
    requires !Contains(text, "compostable")
    requires !Contains(text, "energy efficient")
    requires !Contains(text, "power consumption")
    requires !Contains(text, "electricity bill")
    requires !Contains(text, "energy rating")
    requires !Contains(text, "return")
    requires !Contains(text, "refund")
    requires !Contains(text, "exchanged")
    requires !Contains(text, "overbuy")
    requires !Contains(text, "unused")
    requires !Contains(text, "waste")
    requires !Contains(text, "recycled")
    requires !Contains(text, "sustainable")
    requires !Contains(text, "organic")
    requires !Contains(text, "responsibly sourced")
    requires !Contains(text, "materials")
    ensures TagsOf(Sdg12Keywords, text) == [SignalTag("packaging_waste", 300, "keywords", ["packaging"]), SignalTag("durability", 167, "keywords", ["broke"])]
  {
    Review1PackagingWasteMatched(text);
    Review1PackagingWasteTag(text);
    Review1DurabilityMatched(text);
    Review1DurabilityTag(text);
    RepairabilityMatched(text);
    RepairabilityTag(text);
    Review1RecyclabilityMatched(text);
    Review1RecyclabilityTag(text);
    EnergyEfficiencyMatched(text);
    EnergyEfficiencyTag(text);
    ReturnsOverconsumptionMatched(text);
    ReturnsOverconsumptionTag(text);
    MaterialsSourcingMatched(text);
    MaterialsSourcingTag(text);
    Review1TagsFromEntries(text);
  }

  lemma Review1TagsLowered()
    ensures TagsOf(Sdg12Keywords, Concat(Review1Lower)) == [SignalTag("packaging_waste", 300, "keywords", ["packaging"]), SignalTag("durability", 167, "keywords", ["broke"])]
  {
    Review1PackagingWasteFound();
    Review1DurabilityFound();
    Review1RepairabilityFound();
    Review1RecyclabilityFound();
    Review1EnergyEfficiencyFound();
    Review1ReturnsOverconsumptionFound();
    Review1MaterialsSourcingFound();
    Review1TagsOf(Concat(Review1Lower));
  }

  /** `tag_sdg12` on the first review: packaging_waste through "packaging"
      (9 characters, score 0.3) and durability through "broke" (5
      characters, score 0.167), nothing else. */
  lemma Review1Tags()
    ensures Tags(Review1) == [SignalTag("packaging_waste", 300, "keywords", ["packaging"]), SignalTag("durability", 167, "keywords", ["broke"])]
  {
    Review1Lowered();
    Review1TagsLowered();
    TagsVia(Review1, Concat(Review1Lower), [SignalTag("packaging_waste", 300, "keywords", ["packaging"]), SignalTag("durability", 167, "keywords", ["broke"])]);
  }

  // ---------------------------------------------------------------------------
  // "Fully recyclable and sustainably sourced, love it!"
  // ---------------------------------------------------------------------------

  /** The review text, spelled out word by word (each word with the space
      after it). */
  const Review2Words: seq<string> :=
    ["Fully ", "recyclable ", "and ", "sustainably ", "sourced, ", "love ", "it!"]

  /** "Fully recyclable and sustainably sourced, love it!", the words above
      laid end to end. */
  const Review2: string := Concat(Review2Words)

  /** Its lower case, cut after each space. */
  const Review2Lower: seq<string> :=
    ["fully ", "recyclable ", "and ", "sustainably ", "sourced, ", "love ", "it!"]

  /** The codes, as `Tri` computes them, of the triples of consecutive
      characters within its lower-cased words. Each word's triples are
      proved members of this set below (`TrisIn`), so a wrong or missing
      code fails verification. */
  const Review2Triples: set<int> :=
    {426610717098092, 426610731778158, 426610742263908, 431008784580709, 431008784580729, 435406816411748,
     435406831091809, 435406858354787, 439804743385120, 444202905239673, 444202907336748, 448600989499500,
     461795114352737, 461795126935585, 474989226623074, 474989235011616, 474989249691769, 474989255983222,
     474989276954656, 483785319645282, 483785325936672, 488183408099442, 488183410196581, 501377509884005,
     501377514078307, 505775581560949, 505775592046689, 505775594143859, 510173598711913, 514571668291692,
     514571680874595, 514571682971764, 518969700122656, 532163835461740}

  lemma Review2Word0Lowered()
    ensures CharsLowerTo(Review2Words[0], Review2Lower[0], 0)
  {
  }

  lemma Review2Word1Lowered()
    ensures CharsLowerTo(Review2Words[1], Review2Lower[1], 0)
  {
  }

  lemma Review2Word2Lowered()
    ensures CharsLowerTo(Review2Words[2], Review2Lower[2], 0)
  {
  }

  lemma Review2Word3Lowered()
    ensures CharsLowerTo(Review2Words[3], Review2Lower[3], 0)
  {
  }

  lemma Review2Word4Lowered()
    ensures CharsLowerTo(Review2Words[4], Review2Lower[4], 0)
  {
  }

  lemma Review2Word5Lowered()
    ensures CharsLowerTo(Review2Words[5], Review2Lower[5], 0)
  {
  }

  lemma Review2Word6Lowered()
    ensures CharsLowerTo(Review2Words[6], Review2Lower[6], 0)
  {
  }

  lemma Review2WordsLowered()
    ensures WordsLowerTo(Review2Words, Review2Lower, 0)
  {
    Review2Word0Lowered();
    Review2Word1Lowered();
    Review2Word2Lowered();
    Review2Word3Lowered();
    Review2Word4Lowered();
    Review2Word5Lowered();
    Review2Word6Lowered();
    assert WordsLowerTo(Review2Words, Review2Lower, 6);
    assert WordsLowerTo(Review2Words, Review2Lower, 5);
    assert WordsLowerTo(Review2Words, Review2Lower, 4);
    assert WordsLowerTo(Review2Words, Review2Lower, 3);
    assert WordsLowerTo(Review2Words, Review2Lower, 2);
    assert WordsLowerTo(Review2Words, Review2Lower, 1);
  }

  lemma Review2Lowered()
    ensures Lower(Review2) == Concat(Review2Lower)
  {
    Review2WordsLowered();
    LowerConcatWords(Review2Words, Review2Lower, 0);
    assert Review2Words[0..] == Review2Words;
    assert Review2Lower[0..] == Review2Lower;
  }

  lemma Review2Word0Covered()
    ensures TrisIn(Review2Lower[0], Review2Triples, 0)
  {
  }

  lemma Review2Word1Covered()
    ensures TrisIn(Review2Lower[1], Review2Triples, 0)
  {
  }

  lemma Review2Word2Covered()
    ensures TrisIn(Review2Lower[2], Review2Triples, 0)
  {
  }

  lemma Review2Word3Covered()
    ensures TrisIn(Review2Lower[3], Review2Triples, 0)
  {
  }

  lemma Review2Word4Covered()
    ensures TrisIn(Review2Lower[4], Review2Triples, 0)
  {
  }

  lemma Review2Word5Covered()
    ensures TrisIn(Review2Lower[5], Review2Triples, 0)
  {
  }

  lemma Review2Word6Covered()
    ensures TrisIn(Review2Lower[6], Review2Triples, 0)
  {
  }

  lemma Review2Covered()
    ensures SpaceEnded(Review2Lower, 0) && AllTrisIn(Review2Lower, Review2Triples, 0)
  {
    Review2Word0Covered();
    Review2Word1Covered();
    Review2Word2Covered();
    Review2Word3Covered();
    Review2Word4Covered();
    Review2Word5Covered();
    Review2Word6Covered();
    assert AllTrisIn(Review2Lower, Review2Triples, 6);
    assert AllTrisIn(Review2Lower, Review2Triples, 5);
    assert AllTrisIn(Review2Lower, Review2Triples, 4);
    assert AllTrisIn(Review2Lower, Review2Triples, 3);
    assert AllTrisIn(Review2Lower, Review2Triples, 2);
    assert AllTrisIn(Review2Lower, Review2Triples, 1);
  }

  lemma Review2Word0LacksNable()
    ensures !SearchFrom(Review2Lower[0], "nable", 0)
  {
  }

  lemma Review2Word1LacksNable()
    ensures !SearchFrom(Review2Lower[1], "nable", 0)
  {
  }

  lemma Review2Word2LacksNable()
    ensures !SearchFrom(Review2Lower[2], "nable", 0)
  {
  }

  lemma Review2Word3LacksNable()
    ensures !SearchFrom(Review2Lower[3], "nable", 0)
  {
  }

  lemma Review2Word4LacksNable()
    ensures !SearchFrom(Review2Lower[4], "nable", 0)
  {
  }

  lemma Review2Word5LacksNable()
    ensures !SearchFrom(Review2Lower[5], "nable", 0)
  {
  }

  lemma Review2Word6LacksNable()
    ensures !SearchFrom(Review2Lower[6], "nable", 0)
  {
  }

  /** No triple rules "sustainable" out: "sustainably" has its first ten
      letters, and "recyclable" its last three. */
  lemma Review2LacksSustainable()
    ensures !Contains(Concat(Review2Lower), "sustainable")
  {
    Review2Covered();
    Review2Word0LacksNable();
    Review2Word1LacksNable();
    Review2Word2LacksNable();
    Review2Word3LacksNable();
    Review2Word4LacksNable();
    Review2Word5LacksNable();
    Review2Word6LacksNable();
    assert NoneContains(Review2Lower, "nable", 6);
    assert NoneContains(Review2Lower, "nable", 5);
    assert NoneContains(Review2Lower, "nable", 4);
    assert NoneContains(Review2Lower, "nable", 3);
    assert NoneContains(Review2Lower, "nable", 2);
    assert NoneContains(Review2Lower, "nable", 1);
    assert NoneContains(Review2Lower, "nable", 0);
    LacksSustainable(Review2Lower);
  }

  lemma Review2PackagingWasteFacts(ws: seq<string>, t: set<int>)
    requires SpaceEnded(ws, 0) && AllTrisIn(ws, t, 0)
    requires Tri('p', 'a', 'c') !in t
    requires Tri('p', 'l', 'a') !in t
    requires Tri('e', 'x', 'c') !in t
    requires Tri('t', 'o', 'o') !in t
    requires Tri('b', 'u', 'b') !in t
    requires Tri('p', 'o', 'l') !in t
    ensures var text := Concat(ws); !Contains(text, "packaging") && !Contains(text, "plastic") && !Contains(text, "excess packaging") && !Contains(text, "too much packaging") && !Contains(text, "bubble wrap") && !Contains(text, "polystyrene")
  {
    AbsentByTriple(ws, t, "packaging", 0);
    AbsentByTriple(ws, t, "plastic", 0);
    AbsentByTriple(ws, t, "excess packaging", 0);
    AbsentByTriple(ws, t, "too much packaging", 0);
    AbsentByTriple(ws, t, "bubble wrap", 0);
    AbsentByTriple(ws, t, "polystyrene", 0);
  }

  lemma Review2NoPac()
    ensures Tri('p', 'a', 'c') !in Review2Triples
  {
  }

  lemma Review2NoPla()
    ensures Tri('p', 'l', 'a') !in Review2Triples
  {
  }

  lemma Review2NoExc()
    ensures Tri('e', 'x', 'c') !in Review2Triples
  {
  }

  lemma Review2NoToo()
    ensures Tri('t', 'o', 'o') !in Review2Triples
  {
  }

  lemma Review2NoBub()
    ensures Tri('b', 'u', 'b') !in Review2Triples
  {
  }

  lemma Review2NoPol()
    ensures Tri('p', 'o', 'l') !in Review2Triples
  {
  }

  lemma Review2PackagingWasteFound()
    ensures var text := Concat(Review2Lower); !Contains(text, "packaging") && !Contains(text, "plastic") && !Contains(text, "excess packaging") && !Contains(text, "too much packaging") && !Contains(text, "bubble wrap") && !Contains(text, "polystyrene")
  {
    Review2Covered();
    Review2NoPac();
    Review2NoPla();
    Review2NoExc();
    Review2NoToo();
    Review2NoBub();
    Review2NoPol();
    Review2PackagingWasteFacts(Review2Lower, Review2Triples);
  }

  /** The phrases of packaging_waste found in the review: none. */
  lemma Review2PackagingWasteMatched(text: string)
    requires !Contains(text, "packaging")
    requires !Contains(text, "plastic")
    requires !Contains(text, "excess packaging")
    requires !Contains(text, "too much packaging")
    requires !Contains(text, "bubble wrap")
    requires !Contains(text, "polystyrene")
    ensures MatchedUpTo(Sdg12Keywords[0].1, text, 6) == []
  {
    var kws := Sdg12Keywords[0].1;
    assert MatchedUpTo(kws, text, 1) == [];
    assert MatchedUpTo(kws, text, 2) == [];
    assert MatchedUpTo(kws, text, 3) == [];
    assert MatchedUpTo(kws, text, 4) == [];
    assert MatchedUpTo(kws, text, 5) == [];
    assert MatchedUpTo(kws, text, 6) == [];
  }

  lemma Review2DurabilityFacts(ws: seq<string>, t: set<int>)
    requires SpaceEnded(ws, 0) && AllTrisIn(ws, t, 0)
    requires Tri('b', 'r', 'o') !in t
    requires Tri('s', 't', 'o') !in t
    requires Tri('f', 'e', 'l') !in t
    requires Tri('d', 'u', 'r') !in t
    requires Tri('l', 'a', 's') !in t
    requires Tri('s', 't', 'u') !in t
    ensures var text := Concat(ws); !Contains(text, "broke") && !Contains(text, "broken") && !Contains(text, "stopped working") && !Contains(text, "fell apart") && !Contains(text, "durable") && !Contains(text, "lasted") && !Contains(text, "sturdy")
  {
    AbsentByTriple(ws, t, "broke", 0);
    AbsentByTriple(ws, t, "broken", 0);
    AbsentByTriple(ws, t, "stopped working", 0);
    AbsentByTriple(ws, t, "fell apart", 0);
    AbsentByTriple(ws, t, "durable", 0);
    AbsentByTriple(ws, t, "lasted", 0);
    AbsentByTriple(ws, t, "sturdy", 0);
  }

  lemma Review2NoBro()
    ensures Tri('b', 'r', 'o') !in Review2Triples
  {
  }

  lemma Review2NoSto()
    ensures Tri('s', 't', 'o') !in Review2Triples
  {
  }

  lemma Review2NoFel()
    ensures Tri('f', 'e', 'l') !in Review2Triples
  {
  }

  lemma Review2NoDur()
    ensures Tri('d', 'u', 'r') !in Review2Triples
  {
  }

  lemma Review2NoLas()
    ensures Tri('l', 'a', 's') !in Review2Triples
  {
  }

  lemma Review2NoStu()
    ensures Tri('s', 't', 'u') !in Review2Triples
  {
  }

  lemma Review2DurabilityFound()
    ensures var text := Concat(Review2Lower); !Contains(text, "broke") && !Contains(text, "broken") && !Contains(text, "stopped working") && !Contains(text, "fell apart") && !Contains(text, "durable") && !Contains(text, "lasted") && !Contains(text, "sturdy")
  {
    Review2Covered();
    Review2NoBro();
    Review2NoBro();
    Review2NoSto();
    Review2NoFel();
    Review2NoDur();
    Review2NoLas();
    Review2NoStu();
    Review2DurabilityFacts(Review2Lower, Review2Triples);
  }

  /** The phrases of durability found in the review: none. */
  lemma Review2DurabilityMatched(text: string)
    requires !Contains(text, "broke")
    requires !Contains(text, "broken")
    requires !Contains(text, "stopped working")
    requires !Contains(text, "fell apart")
    requires !Contains(text, "durable")
    requires !Contains(text, "lasted")
    requires !Contains(text, "sturdy")
    ensures MatchedUpTo(Sdg12Keywords[1].1, text, 7) == []
  {
    var kws := Sdg12Keywords[1].1;
    assert MatchedUpTo(kws, text, 1) == [];
    assert MatchedUpTo(kws, text, 2) == [];
    assert MatchedUpTo(kws, text, 3) == [];
    assert MatchedUpTo(kws, text, 4) == [];
    assert MatchedUpTo(kws, text, 5) == [];
    assert MatchedUpTo(kws, text, 6) == [];
    assert MatchedUpTo(kws, text, 7) == [];
  }

  lemma Review2NoRep()
    ensures Tri('r', 'e', 'p') !in Review2Triples
  {
  }

  lemma Review2NoFix()
    ensures Tri('f', 'i', 'x') !in Review2Triples
  {
  }

  lemma Review2NoSpa()
    ensures Tri('s', 'p', 'a') !in Review2Triples
  {
  }

  lemma Review2NoSer()
    ensures Tri('s', 'e', 'r') !in Review2Triples
  {
  }

  lemma Review2NoWar()
    ensures Tri('w', 'a', 'r') !in Review2Triples
  {
  }

  lemma Review2RepairabilityFound()
    ensures var text := Concat(Review2Lower); !Contains(text, "repair") && !Contains(text, "fix") && !Contains(text, "spare parts") && !Contains(text, "replacement parts") && !Contains(text, "service center") && !Contains(text, "warranty")
  {
    Review2Covered();
    Review2NoRep();
    Review2NoFix();
    Review2NoSpa();
    Review2NoRep();
    Review2NoSer();
    Review2NoWar();
    RepairabilityFacts(Review2Lower, Review2Triples);
  }

  /** The phrases of repairability found in the review: none. */
  lemma Review2RecyclabilityFacts(ws: seq<string>, t: set<int>)
    requires SpaceEnded(ws, 0) && AllTrisIn(ws, t, 0)
    requires |ws| > 1 && SearchFrom(ws[1], "recyclable", 0)
    requires Tri('c', 'l', 'e') !in t
    requires Tri('b', 'i', 'o') !in t
    requires Tri('c', 'o', 'm') !in t
    ensures var text := Concat(ws); Contains(text, "recyclable") && !Contains(text, "recycle") && !Contains(text, "biodegradable") && !Contains(text, "compostable")
  {
    ContainsInPiece(ws, 1, "recyclable");
    AbsentByTriple(ws, t, "recycle", 4);
    AbsentByTriple(ws, t, "biodegradable", 0);
    AbsentByTriple(ws, t, "compostable", 0);
  }

  lemma Review2NoCle()
    ensures Tri('c', 'l', 'e') !in Review2Triples
  {
  }

  lemma Review2NoBio()
    ensures Tri('b', 'i', 'o') !in Review2Triples
  {
  }

  lemma Review2NoCom()
    ensures Tri('c', 'o', 'm') !in Review2Triples
  {
  }

  lemma Review2RecyclabilityFound()
    ensures var text := Concat(Review2Lower); Contains(text, "recyclable") && !Contains(text, "recycle") && !Contains(text, "biodegradable") && !Contains(text, "compostable")
  {
    Review2Covered();
    Review2NoCle();
    Review2NoBio();
    Review2NoCom();
    Review2RecyclabilityFacts(Review2Lower, Review2Triples);
  }

  /** The phrases of recyclability found in the review: "recyclable". */
  lemma Review2RecyclabilityMatched(text: string)
    requires Contains(text, "recyclable")
    requires !Contains(text, "recycle")
    requires !Contains(text, "biodegradable")
    requires !Contains(text, "compostable")
    ensures MatchedUpTo(Sdg12Keywords[3].1, text, 4) == ["recyclable"]
  {
    var kws := Sdg12Keywords[3].1;
    assert MatchedUpTo(kws, text, 1) == ["recyclable"];
    assert MatchedUpTo(kws, text, 2) == ["recyclable"];
    assert MatchedUpTo(kws, text, 3) == ["recyclable"];
    assert MatchedUpTo(kws, text, 4) == ["recyclable"];
  }

  lemma Review2NoEne()
    ensures Tri('e', 'n', 'e') !in Review2Triples
  {
  }

  lemma Review2NoPow()
    ensures Tri('p', 'o', 'w') !in Review2Triples
  {
  }

  lemma Review2NoEle()
    ensures Tri('e', 'l', 'e') !in Review2Triples
  {
  }

  lemma Review2EnergyEfficiencyFound()
    ensures var text := Concat(Review2Lower); !Contains(text, "energy efficient") && !Contains(text, "power consumption") && !Contains(text, "electricity bill") && !Contains(text, "energy rating")
  {
    Review2Covered();
    Review2NoEne();
    Review2NoPow();
    Review2NoEle();
    Review2NoEne();
    EnergyEfficiencyFacts(Review2Lower, Review2Triples);
  }

  /** The phrases of energy_efficiency found in the review: none. */
  lemma Review2ReturnsOverconsumptionFacts(ws: seq<string>, t: set<int>)
    requires SpaceEnded(ws, 0) && AllTrisIn(ws, t, 0)
    requires Tri('r', 'e', 't') !in t
    requires Tri('r', 'e', 'f') !in t
    requires Tri('e', 'x', 'c') !in t
    requires Tri('v', 'e', 'r') !in t
    requires Tri('u', 'n', 'u') !in t
    requires Tri('w', 'a', 's') !in t
    ensures var text := Concat(ws); !Contains(text, "return") && !Contains(text, "refund") && !Contains(text, "exchanged") && !Contains(text, "overbuy") && !Contains(text, "unused") && !Contains(text, "waste")
  {
    AbsentByTriple(ws, t, "return", 0);
    AbsentByTriple(ws, t, "refund", 0);
    AbsentByTriple(ws, t, "exchanged", 0);
    AbsentByTriple(ws, t, "overbuy", 1);
    AbsentByTriple(ws, t, "unused", 0);
    AbsentByTriple(ws, t, "waste", 0);
  }

  lemma Review2NoRet()
    ensures Tri('r', 'e', 't') !in Review2Triples
  {
  }

  lemma Review2NoRef()
    ensures Tri('r', 'e', 'f') !in Review2Triples
  {
  }

  lemma Review2NoVer()
    ensures Tri('v', 'e', 'r') !in Review2Triples
  {
  }

  lemma Review2NoUnu()
    ensures Tri('u', 'n', 'u') !in Review2Triples
  {
  }

  lemma Review2NoWas()
    ensures Tri('w', 'a', 's') !in Review2Triples
  {
  }

  lemma Review2ReturnsOverconsumptionFound()
    ensures var text := Concat(Review2Lower); !Contains(text, "return") && !Contains(text, "refund") && !Contains(text, "exchanged") && !Contains(text, "overbuy") && !Contains(text, "unused") && !Contains(text, "waste")
  {
    Review2Covered();
    Review2NoRet();
    Review2NoRef();
    Review2NoExc();
    Review2NoVer();
    Review2NoUnu();
    Review2NoWas();
    Review2ReturnsOverconsumptionFacts(Review2Lower, Review2Triples);
  }

  /** The phrases of returns_overconsumption found in the review: none. */
  lemma Review2MaterialsSourcingFacts(ws: seq<string>, t: set<int>)
    requires SpaceEnded(ws, 0) && AllTrisIn(ws, t, 0)
    requires Tri('c', 'l', 'e') !in t
    requires !Contains(Concat(ws), "sustainable")
    requires Tri('o', 'r', 'g') !in t
    requires Tri('r', 'e', 's') !in t
    requires Tri('m', 'a', 't') !in t
    ensures var text := Concat(ws); !Contains(text, "recycled") && !Contains(text, "sustainable") && !Contains(text, "organic") && !Contains(text, "responsibly sourced") && !Contains(text, "materials")
  {
    AbsentByTriple(ws, t, "recycled", 4);
    AbsentByTriple(ws, t, "organic", 0);
    AbsentByTriple(ws, t, "responsibly sourced", 0);
    AbsentByTriple(ws, t, "materials", 0);
  }

  lemma Review2NoOrg()
    ensures Tri('o', 'r', 'g') !in Review2Triples
  {
  }

  lemma Review2NoRes()
    ensures Tri('r', 'e', 's') !in Review2Triples
  {
  }

  lemma Review2NoMat()
    ensures Tri('m', 'a', 't') !in Review2Triples
  {
  }

  lemma Review2MaterialsSourcingFound()
    ensures var text := Concat(Review2Lower); !Contains(text, "recycled") && !Contains(text, "sustainable") && !Contains(text, "organic") && !Contains(text, "responsibly sourced") && !Contains(text, "materials")
  {
    Review2Covered();
    Review2NoCle();
    Review2NoOrg();
    Review2NoRes();
    Review2NoMat();
    Review2LacksSustainable();
    Review2MaterialsSourcingFacts(Review2Lower, Review2Triples);
  }

  /** The phrases of materials_sourcing found in the review: none. */
  lemma Review2PackagingWasteTag(text: string)
    requires MatchedUpTo(Sdg12Keywords[0].1, text, 6) == []
    ensures EntryTags(Sdg12Keywords[0], text) == []
  {
    PhrasesLowerCase(0);
    EntryTagsOfMatched(Sdg12Keywords[0], text, []);
  }

  lemma Review2DurabilityTag(text: string)
    requires MatchedUpTo(Sdg12Keywords[1].1, text, 7) == []
    ensures EntryTags(Sdg12Keywords[1], text) == []
  {
    PhrasesLowerCase(1);
    EntryTagsOfMatched(Sdg12Keywords[1], text, []);
  }

  lemma Review2RecyclabilityTag(text: string)
    requires MatchedUpTo(Sdg12Keywords[3].1, text, 4) == ["recyclable"]
    ensures EntryTags(Sdg12Keywords[3], text) == [SignalTag("recyclability", 333, "keywords", ["recyclable"])]
  {
    PhrasesLowerCase(3);
    EntryTagsOfMatched(Sdg12Keywords[3], text, ["recyclable"]);
    assert TotalLength(["recyclable"]) == 10;
    ScoreMilliBelow(10, 333);
    assert Sdg12Keywords[3].0 == "recyclability";
  }

  lemma Review2TagsFromEntries(text: string)
    requires EntryTags(Sdg12Keywords[0], text) == []
    requires EntryTags(Sdg12Keywords[1], text) == []
    requires EntryTags(Sdg12Keywords[2], text) == []
    requires EntryTags(Sdg12Keywords[3], text) == [SignalTag("recyclability", 333, "keywords", ["recyclable"])]
    requires EntryTags(Sdg12Keywords[4], text) == []
    requires EntryTags(Sdg12Keywords[5], text) == []
    requires EntryTags(Sdg12Keywords[6], text) == []
    ensures TagsOf(Sdg12Keywords, text) == [SignalTag("recyclability", 333, "keywords", ["recyclable"])]
  {
    var es := Sdg12Keywords;
    assert TagsUpTo(es, text, 1) == [];
    assert TagsUpTo(es, text, 2) == [];
    assert TagsUpTo(es, text, 3) == [];
    assert TagsUpTo(es, text, 4) == [SignalTag("recyclability", 333, "keywords", ["recyclable"])];
    assert TagsUpTo(es, text, 5) == [SignalTag("recyclability", 333, "keywords", ["recyclable"])];
    assert TagsUpTo(es, text, 6) == [SignalTag("recyclability", 333, "keywords", ["recyclable"])];
    assert TagsUpTo(es, text, 7) == [SignalTag("recyclability", 333, "keywords", ["recyclable"])];
    TagsUpToIs(es, text, 7);
    assert es[..7] == es;
  }

  lemma Review2TagsOf(text: string)
    requires !Contains(text, "packaging")
    requires !Contains(text, "plastic")
    requires !Contains(text, "excess packaging")
    requires !Contains(text, "too much packaging")
    requires !Contains(text, "bubble wrap")
    requires !Contains(text, "polystyrene")
    requires !Contains(text, "broke")
    requires !Contains(text, "broken")
    requires !Contains(text, "stopped working")
    requires !Contains(text, "fell apart")
    requires !Contains(text, "durable")
    requires !Contains(text, "lasted")
    requires !Contains(text, "sturdy")
    requires !Contains(text, "repair")
    requires !Contains(text, "fix")
    requires !Contains(text, "spare parts")
    requires !Contains(text, "replacement parts")
    requires !Contains(text, "service center")
    requires !Contains(text, "warranty")
    requires Contains(text, "recyclable")
    requires !Contains(text, "recycle")
    requires !Contains(text, "biodegradable")
    requires !Contains(text, "compostable")
    requires !Contains(text, "energy efficient")
    requires !Contains(text, "power consumption")
    requires !Contains(text, "electricity bill")
    requires !Contains(text, "energy rating")
    requires !Contains(text, "return")
    requires !Contains(text, "refund")
    requires !Contains(text, "exchanged")
    requires !Contains(text, "overbuy")
    requires !Contains(text, "unused")
    requires !Contains(text, "waste")
    requires !Contains(text, "recycled")
    requires !Contains(text, "sustainable")
    requires !Contains(text, "organic")
    requires !Contains(text, "responsibly sourced")
    requires !Contains(text, "materials")
    ensures TagsOf(Sdg12Keywords, text) == [SignalTag("recyclability", 333, "keywords", ["recyclable"])]
  {
    Review2PackagingWasteMatched(text);
    Review2PackagingWasteTag(text);
    Review2DurabilityMatched(text);
    Review2DurabilityTag(text);
    RepairabilityMatched(text);
    RepairabilityTag(text);
    Review2RecyclabilityMatched(text);
    Review2RecyclabilityTag(text);
    EnergyEfficiencyMatched(text);
    EnergyEfficiencyTag(text);
    ReturnsOverconsumptionMatched(text);
    ReturnsOverconsumptionTag(text);
    MaterialsSourcingMatched(text);
    MaterialsSourcingTag(text);
    Review2TagsFromEntries(text);
  }

  lemma Review2TagsLowered()
    ensures TagsOf(Sdg12Keywords, Concat(Review2Lower)) == [SignalTag("recyclability", 333, "keywords", ["recyclable"])]
  {
    Review2PackagingWasteFound();
    Review2DurabilityFound();
    Review2RepairabilityFound();
    Review2RecyclabilityFound();
    Review2EnergyEfficiencyFound();
    Review2ReturnsOverconsumptionFound();
    Review2MaterialsSourcingFound();
    Review2TagsOf(Concat(Review2Lower));
  }

  /** `tag_sdg12` on the second review: recyclability through "recyclable"
      (10 characters, score 0.333) and nothing else. In particular no
      materials_sourcing tag: "sustainably" does not contain "sustainable",
      and "sourced" alone is not "responsibly sourced". */
  lemma Review2Tags()
    ensures Tags(Review2) == [SignalTag("recyclability", 333, "keywords", ["recyclable"])]
  {
    Review2Lowered();
    Review2TagsLowered();
    TagsVia(Review2, Concat(Review2Lower), [SignalTag("recyclability", 333, "keywords", ["recyclable"])]);
  }
}
