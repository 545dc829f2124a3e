/** Character-level primitives of the pipeline: Python's whitespace table,
    lower-casing, substring containment, and the text normaliser
    `clean_text`, which is `" ".join(text.strip().split())`. */
module Text {

  /** Python's `str.isspace()`, the table `str.split()` and `str.strip()`
      use: the ASCII controls 9-13 and 28-31, the space, and the Unicode
      separators U+0085, U+00A0, U+1680, U+2000-U+200A, U+2028, U+2029,
      U+202F, U+205F and U+3000. */
  predicate IsSpace(c: char) {
    var n := c as int;
    (9 <= n <= 13) || (28 <= n <= 32) || n == 0x85 || n == 0xA0 || n == 0x1680
    || (0x2000 <= n <= 0x200A) || n == 0x2028 || n == 0x2029 || n == 0x202F
    || n == 0x205F || n == 0x3000
  }

  predicate AllSpace(s: string) {
    forall i :: 0 <= i < |s| ==> IsSpace(s[i])
  }

  predicate NoSpace(s: string) {
    forall i :: 0 <= i < |s| ==> !IsSpace(s[i])
  }

  // ---------------------------------------------------------------------------
  // Lower-casing
  // ---------------------------------------------------------------------------

  /** The upper-case letters this model lower-cases: ASCII A-Z and the
      Latin-1 capitals U+00C0-U+00DE except the multiplication sign U+00D7. */
  predicate IsUpper(c: char) {
    var n := c as int;
    (65 <= n <= 90) || (0xC0 <= n <= 0xDE && n != 0xD7)
  }

  /** `c.lower()` on the letters above; every other character is unchanged. */
  function LowerChar(c: char): (r: char)
    ensures !IsUpper(r)
    ensures IsUpper(c) ==> r as int == c as int + 32
    ensures !IsUpper(c) ==> r == c
  {
    if IsUpper(c) then (c as int + 32) as char else c
  }

  /** `s.lower()`, character by character. */
  function Lower(s: string): string {
    seq(|s|, i requires 0 <= i < |s| => LowerChar(s[i]))
  }

  predicate IsLowerCase(s: string) {
    forall i :: 0 <= i < |s| ==> !IsUpper(s[i])
  }

  /** Lower-cased text is lower case, and lower-casing it again changes
      nothing; a string that is already lower case is its own lower case. */
  lemma LowerIsLowerCase(s: string)
    ensures IsLowerCase(Lower(s))
    ensures Lower(Lower(s)) == Lower(s)
    ensures IsLowerCase(s) ==> Lower(s) == s
  {
  }

  // ---------------------------------------------------------------------------
  // Substring containment: Python's `needle in hay`
  // ---------------------------------------------------------------------------

  predicate OccursAt(hay: string, needle: string, i: int) {
    0 <= i && i + |needle| <= |hay| && hay[i..i + |needle|] == needle
  }

  /** `needle in hay`: plain containment, with no regard to word boundaries. */
  predicate Contains(hay: string, needle: string) {
    exists i :: 0 <= i <= |hay| - |needle| && OccursAt(hay, needle, i)
  }

  /** Containment is monotone in the haystack: what occurs in a part occurs
      in the whole. */
  lemma ContainsInfix(hay: string, lo: int, hi: int, needle: string)
    requires 0 <= lo <= hi <= |hay|
    requires Contains(hay[lo..hi], needle)
    ensures Contains(hay, needle)
  {
    var i :| 0 <= i <= hi - lo - |needle| && OccursAt(hay[lo..hi], needle, i);
    forall j | 0 <= j < |needle| ensures hay[lo + i..lo + i + |needle|][j] == needle[j] {
      assert hay[lo..hi][i..i + |needle|][j] == needle[j];
    }
    assert OccursAt(hay, needle, lo + i);
  }

  /** A needle containing a character the haystack lacks does not occur in
      it. */
  lemma NotContainsMissingChar(hay: string, needle: string, k: int)
    requires 0 <= k < |needle|
    requires needle[k] !in hay
    ensures !Contains(hay, needle)
  {
  }

  /** A needle occurs in a haystack only if every piece of it does. */
  lemma ContainsPiece(hay: string, needle: string, lo: int, hi: int)
    requires 0 <= lo <= hi <= |needle|
    requires Contains(hay, needle)
    ensures Contains(hay, needle[lo..hi])
  {
    var i :| 0 <= i <= |hay| - |needle| && OccursAt(hay, needle, i);
    forall j | 0 <= j < hi - lo ensures hay[i + lo..i + hi][j] == needle[lo..hi][j] {
      assert hay[i..i + |needle|][lo + j] == needle[lo + j];
    }
    assert OccursAt(hay, needle[lo..hi], i + lo);
  }

  // ---------------------------------------------------------------------------
  // strip, split, join
  // ---------------------------------------------------------------------------

  /** `s.lstrip()`: drops the leading whitespace and nothing else. */
  function StripLeft(s: string): (r: string)
    ensures |r| <= |s| && r == s[|s| - |r|..]
    ensures r == [] || !IsSpace(r[0])
    ensures forall i :: 0 <= i < |s| - |r| ==> IsSpace(s[i])
  {
    if |s| > 0 && IsSpace(s[0]) then StripLeft(s[1..]) else s
  }

  /** `s.rstrip()`: drops the trailing whitespace and nothing else. */
  function StripRight(s: string): (r: string)
    ensures |r| <= |s| && r == s[..|r|]
    ensures r == [] || !IsSpace(r[|r| - 1])
    ensures forall i :: |r| <= i < |s| ==> IsSpace(s[i])
  {
    if |s| > 0 && IsSpace(s[|s| - 1]) then StripRight(s[..|s| - 1]) else s
  }

  /** `s.strip()` with no argument. */
  function Strip(s: string): string {
    StripRight(StripLeft(s))
  }

  /** A word of `str.split()`: a non-empty run of non-whitespace. */
  predicate IsWord(w: string) {
    w != [] && NoSpace(w)
  }

  predicate AllWords(ws: seq<string>) {
    forall k :: 0 <= k < |ws| ==> IsWord(ws[k])
  }

  /** The longest prefix of `s` that holds no whitespace. */
  function TakeWord(s: string): (w: string)
    ensures w <= s
    ensures NoSpace(w)
    ensures |w| < |s| ==> IsSpace(s[|w|])
  {
    if |s| == 0 || IsSpace(s[0]) then [] else [s[0]] + TakeWord(s[1..])
  }

  /** `s.split()` with no argument: the maximal runs of non-whitespace, in
      order; runs of whitespace of any length separate them and leading or
      trailing whitespace yields no empty word. */
  function Split(s: string): (ws: seq<string>)
    ensures AllWords(ws)
    decreases |s|
  {
    if |s| == 0 then []
    else if IsSpace(s[0]) then Split(s[1..])
    else
      var w := TakeWord(s);
      [w] + Split(s[|w|..])
  }

  /** `" ".join(ws)`. */
  function Join(ws: seq<string>): string {
    if |ws| == 0 then ""
    else if |ws| == 1 then ws[0]
    else ws[0] + " " + Join(ws[1..])
  }

  /** `clean_text` (pipeline.py): `" ".join(text.strip().split())`. The
      `strip()` is left out of the definition because `split()` already
      ignores leading and trailing whitespace; `CleanTextStrips` proves the
      two forms equal. */
  function CleanText(text: string): string {
    Join(Split(text))
  }

  /** The shape of `clean_text`'s output: no leading or trailing whitespace,
      and every whitespace character is a single ASCII space between two
      non-whitespace characters. */
  predicate Normalized(s: string) {
    forall i :: 0 <= i < |s| && IsSpace(s[i]) ==>
      s[i] == ' ' && 0 < i < |s| - 1 && !IsSpace(s[i + 1])
  }

  /** The non-whitespace characters of `s`, in order. */
  function NonSpace(s: string): string {
    if |s| == 0 then []
    else (if IsSpace(s[0]) then [] else [s[0]]) + NonSpace(s[1..])
  }

  /** The words laid end to end. */
  function Concat(ws: seq<string>): string {
    if |ws| == 0 then [] else ws[0] + Concat(ws[1..])
  }

  // ---------------------------------------------------------------------------
  // Lemmas about split and join
  // ---------------------------------------------------------------------------

  /** Dropping a prefix of `a` from `a + t`. */
  lemma DropAppend(a: string, t: string, k: int)
    requires 0 <= k <= |a|
    ensures (a + t)[k..] == a[k..] + t
  {
  }

  lemma {:induction false} TakeWordOfWord(w: string, t: string)
    requires NoSpace(w)
    requires t == [] || IsSpace(t[0])
    ensures TakeWord(w + t) == w
  {
    if |w| > 0 {
      assert (w + t)[1..] == w[1..] + t;
      TakeWordOfWord(w[1..], t);
    } else {
      assert w + t == t;
    }
  }

  /** What follows a whitespace character does not change the first word. */
  lemma {:induction false} TakeWordBeforeSpace(s: string, t: string)
    requires t == [] || IsSpace(t[0])
    ensures TakeWord(s + t) == TakeWord(s)
  {
    if |s| == 0 {
      assert s + t == t;
    } else if !IsSpace(s[0]) {
      assert (s + t)[1..] == s[1..] + t;
      TakeWordBeforeSpace(s[1..], t);
    }
  }

  /** Splitting words joined by single spaces gives back the words. */
  lemma {:induction false} SplitJoin(ws: seq<string>)
    requires AllWords(ws)
    ensures Split(Join(ws)) == ws
  {
    if |ws| == 1 {
      SplitOfWord(ws[0]);
    } else if |ws| > 1 {
      var w, rest := ws[0], Join(ws[1..]);
      assert Join(ws) == w + [' '] + rest;
      SplitAtSpace(w, ' ', rest);
      SplitOfWord(w);
      assert AllWords(ws[1..]);
      SplitJoin(ws[1..]);
      assert ws == [w] + ws[1..];
    }
  }

  /** Words joined by single spaces have the shape of `clean_text`'s output. */
  lemma {:induction false} JoinNormalized(ws: seq<string>)
    requires AllWords(ws)
    ensures Normalized(Join(ws))
    ensures |ws| > 0 ==> |Join(ws)| > 0 && !IsSpace(Join(ws)[0])
  {
    if |ws| > 1 {
      var w, rest := ws[0], Join(ws[1..]);
      assert AllWords(ws[1..]);
      JoinNormalized(ws[1..]);
      var s := w + " " + rest;
      forall i | 0 <= i < |s| && IsSpace(s[i])
        ensures s[i] == ' ' && 0 < i < |s| - 1 && !IsSpace(s[i + 1])
      {
        if i == |w| {
          assert s[i + 1] == rest[0];
        } else if i > |w| {
          assert s[i] == rest[i - |w| - 1];
          if i + 1 < |s| {
            assert s[i + 1] == rest[i - |w|];
          }
        }
      }
    }
  }

  /** What follows a space of a normalised string is normalised. */
  lemma NormalizedAfterSpace(s: string, k: int)
    requires Normalized(s)
    requires 0 <= k < |s| && IsSpace(s[k])
    ensures Normalized(s[k + 1..]) && |s[k + 1..]| > 0
  {
    var rest := s[k + 1..];
    forall i | 0 <= i < |rest| && IsSpace(rest[i])
      ensures rest[i] == ' ' && 0 < i < |rest| - 1 && !IsSpace(rest[i + 1])
    {
      assert rest[i] == s[k + 1 + i];
      if i + 1 < |rest| {
        assert rest[i + 1] == s[k + 2 + i];
      }
    }
  }

  /** A normalised string is the join of its own words. */
  lemma {:induction false} NormalizedJoinSplit(s: string)
    requires Normalized(s)
    ensures Join(Split(s)) == s
    ensures |s| > 0 ==> |Split(s)| > 0
    decreases |s|
  {
    if |s| > 0 {
      assert !IsSpace(s[0]);
      var w := TakeWord(s);
      if |w| == |s| {
        assert w == s;
        SplitOfWord(w);
      } else {
        var rest := s[|w| + 1..];
        assert s == w + [s[|w|]] + rest;
        SplitAtSpace(w, s[|w|], rest);
        SplitOfWord(w);
        NormalizedAfterSpace(s, |w|);
        NormalizedJoinSplit(rest);
        assert Split(s) == [w] + Split(rest);
      }
    }
  }

  /** Leading whitespace contributes no words. */
  lemma {:induction false} SplitStripLeft(s: string)
    ensures Split(StripLeft(s)) == Split(s)
    decreases |s|
  {
    if |s| > 0 && IsSpace(s[0]) {
      SplitStripLeft(s[1..]);
    }
  }

  /** Splitting past the first word of `a` when what follows `a` starts
      with whitespace. */
  lemma SplitPastWord(a: string, t: string)
    requires |a| > 0 && !IsSpace(a[0])
    requires t == [] || IsSpace(t[0])
    ensures Split(a + t) == [TakeWord(a)] + Split(a[|TakeWord(a)|..] + t)
  {
    var w := TakeWord(a);
    TakeWordBeforeSpace(a, t);
    assert (a + t)[0] == a[0];
    DropAppend(a, t, |w|);
  }

  /** `SplitAtSpace` with the whitespace character at the head of `t`. */
  lemma {:induction false} SplitBeforeSpace(a: string, t: string)
    requires |t| > 0 && IsSpace(t[0])
    ensures Split(a + t) == Split(a) + Split(t[1..])
    decreases |a|
  {
    if |a| == 0 {
      assert a + t == t;
    } else if IsSpace(a[0]) {
      assert (a + t)[0] == a[0];
      DropAppend(a, t, 1);
      SplitBeforeSpace(a[1..], t);
    } else {
      var w := TakeWord(a);
      SplitPastWord(a, t);
      SplitBeforeSpace(a[|w|..], t);
      assert Split(a) == [w] + Split(a[|w|..]);
    }
  }

  /** Every whitespace character separates words: the words on either side
      of it are split apart, and it contributes no word of its own. */
  lemma SplitAtSpace(a: string, c: char, b: string)
    requires IsSpace(c)
    ensures Split(a + [c] + b) == Split(a) + Split(b)
  {
    assert a + [c] + b == a + ([c] + b);
    SplitBeforeSpace(a, [c] + b);
    assert ([c] + b)[1..] == b;
  }

  /** A run of whitespace of any length separates words like a single
      whitespace character does. */
  lemma {:induction false} SplitAtRun(a: string, sp: string, b: string)
    requires sp != [] && AllSpace(sp)
    ensures Split(a + sp + b) == Split(a) + Split(b)
    decreases |sp|
  {
    var c, r := sp[0], sp[1..];
    assert a + sp + b == a + [c] + (r + b);
    SplitAtSpace(a, c, r + b);
    if r != [] {
      SplitAtRun([], r, b);
      assert [] + r + b == r + b;
      assert Split([]) + Split(b) == Split(b);
    } else {
      assert r + b == b;
    }
  }

  /** A word splits to itself. */
  lemma SplitOfWord(w: string)
    requires IsWord(w)
    ensures Split(w) == [w]
  {
    TakeWordOfWord(w, []);
    assert w + [] == w;
    assert w[|w|..] == [];
  }

  /** Trailing whitespace contributes no words. */
  lemma {:induction false} SplitStripRight(s: string)
    ensures Split(StripRight(s)) == Split(s)
    decreases |s|
  {
    if |s| > 0 && IsSpace(s[|s| - 1]) {
      var init := s[..|s| - 1];
      SplitStripRight(init);
      assert s == init + [s[|s| - 1]] + [];
      SplitAtSpace(init, s[|s| - 1], []);
    }
  }

  /** `strip()` before `split()` changes nothing: the call in `clean_text`
      is redundant. */
  lemma SplitStrip(s: string)
    ensures Split(Strip(s)) == Split(s)
  {
    SplitStripLeft(s);
    SplitStripRight(StripLeft(s));
  }

  lemma {:induction false} NonSpaceAppend(a: string, b: string)
    ensures NonSpace(a + b) == NonSpace(a) + NonSpace(b)
  {
    if |a| > 0 {
      assert (a + b)[1..] == a[1..] + b;
      NonSpaceAppend(a[1..], b);
    } else {
      assert a + b == b;
    }
  }

  lemma {:induction false} NonSpaceOfNoSpace(w: string)
    requires NoSpace(w)
    ensures NonSpace(w) == w
  {
    if |w| > 0 {
      NonSpaceOfNoSpace(w[1..]);
    }
  }

  /** The non-whitespace characters of a string are its words laid end to
      end. */
  lemma {:induction false} NonSpaceSplit(s: string)
    ensures NonSpace(s) == Concat(Split(s))
    decreases |s|
  {
    if |s| > 0 {
      if IsSpace(s[0]) {
        NonSpaceSplit(s[1..]);
      } else {
        var w := TakeWord(s);
        assert s == w + s[|w|..];
        NonSpaceAppend(w, s[|w|..]);
        NonSpaceOfNoSpace(w);
        NonSpaceSplit(s[|w|..]);
        assert Split(s)[1..] == Split(s[|w|..]);
      }
    }
  }

  /** Split finds no word exactly when the string is all whitespace. */
  lemma {:induction false} SplitEmptyIff(s: string)
    ensures Split(s) == [] <==> AllSpace(s)
    decreases |s|
  {
    if |s| > 0 {
      SplitEmptyIff(s[1..]);
      if IsSpace(s[0]) {
        assert AllSpace(s) <==> AllSpace(s[1..]) by {
          if AllSpace(s[1..]) {
            forall i | 0 <= i < |s| ensures IsSpace(s[i]) {
              if i > 0 { assert s[i] == s[1..][i - 1]; }
            }
          }
        }
      }
    }
  }

  /** Joining two non-empty lists puts one space between their joins. */
  lemma {:induction false} JoinAppend(xs: seq<string>, ys: seq<string>)
    requires |xs| > 0 && |ys| > 0
    ensures Join(xs + ys) == Join(xs) + " " + Join(ys)
    decreases |xs|
  {
    if |xs| > 1 {
      assert (xs + ys)[1..] == xs[1..] + ys;
      JoinAppend(xs[1..], ys);
    } else {
      assert (xs + ys)[1..] == ys;
    }
  }

  // ---------------------------------------------------------------------------
  // Properties of clean_text
  // ---------------------------------------------------------------------------

  /** The definition above is `clean_text` as written, strip included. */
  lemma CleanTextStrips(text: string)
    ensures CleanText(text) == Join(Split(Strip(text)))
  {
    SplitStrip(text);
  }

  /** The words of the cleaned text are the words of the input. */
  lemma CleanTextWords(text: string)
    ensures Split(CleanText(text)) == Split(text)
  {
    SplitJoin(Split(text));
  }

  /** The cleaned text has no leading or trailing whitespace and no
      whitespace other than single spaces. */
  lemma CleanTextNormalized(text: string)
    ensures Normalized(CleanText(text))
  {
    JoinNormalized(Split(text));
  }

  /** Cleaning twice is cleaning once. */
  lemma CleanTextIdempotent(text: string)
    ensures CleanText(CleanText(text)) == CleanText(text)
  {
    SplitJoin(Split(text));
  }

  /** The texts `clean_text` leaves unchanged are exactly the normalised
      ones. */
  lemma CleanTextFixedPoint(text: string)
    ensures CleanText(text) == text <==> Normalized(text)
  {
    CleanTextNormalized(text);
    if Normalized(text) {
      NormalizedJoinSplit(text);
    }
  }

  /** Every non-whitespace character of the input survives, in order, and no
      other non-whitespace character appears. */
  lemma CleanTextKeepsNonSpace(text: string)
    ensures NonSpace(CleanText(text)) == NonSpace(text)
  {
    CleanTextWords(text);
    NonSpaceSplit(CleanText(text));
    NonSpaceSplit(text);
  }

  /** The cleaned text is empty exactly when the input is empty or all
      whitespace. */
  lemma CleanTextEmptyIff(text: string)
    ensures CleanText(text) == "" <==> AllSpace(text)
  {
    CleanTextWords(text);
    var ws := Split(text);
    if ws != [] {
      JoinNormalized(ws);
    }
    SplitEmptyIff(text);
  }

  /** Every run of whitespace inside the text, tabs and newlines included,
      becomes one space; a run with no word on one side disappears. */
  lemma CleanTextAtRun(a: string, sp: string, b: string)
    requires sp != [] && AllSpace(sp)
    ensures Split(a) == [] ==> CleanText(a + sp + b) == CleanText(b)
    ensures Split(b) == [] ==> CleanText(a + sp + b) == CleanText(a)
    ensures Split(a) != [] && Split(b) != [] ==>
      CleanText(a + sp + b) == CleanText(a) + " " + CleanText(b)
  {
    SplitAtRun(a, sp, b);
    if Split(a) == [] {
      assert Split(a) + Split(b) == Split(b);
    } else if Split(b) == [] {
      assert Split(a) + Split(b) == Split(a);
    } else {
      JoinAppend(Split(a), Split(b));
    }
  }

  /** Two words with any run of whitespace between them are cleaned to the
      words with one space between them. */
  lemma CleanTextCollapsesRun(v: string, sp: string, w: string)
    requires IsWord(v) && IsWord(w)
    requires sp != [] && AllSpace(sp)
    ensures CleanText(v + sp + w) == v + " " + w
  {
    SplitOfWord(v);
    SplitOfWord(w);
    CleanTextAtRun(v, sp, w);
  }
}
