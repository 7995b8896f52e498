/**
 Sentence-level cleanup (`clean_non_text_blocks`): a paragraph is split after
 sentence-final punctuation, and sentences that are figure or table captions,
 footnotes, source lines or mostly numbers are dropped.
 */
module Sentences {
  import opened Wrappers
  import opened Text

  predicate IsTerminator(c: char) {
    c == '.' || c == '!' || c == '?'
  }

  /** `(?<=[.!?])\s+` can start at `i`: whitespace right after a terminator.
      The run of whitespace is consumed greedily, so a split never starts in
      the middle of a run (the character before would be whitespace). */
  predicate BoundaryAt(s: string, i: nat) {
    0 < i < |s| && IsTerminator(s[i - 1]) && IsSpace(s[i])
  }

  /** Position of the leftmost split point. */
  function NextBoundary(s: string): (r: Option<nat>)
    ensures r.Some? ==> BoundaryAt(s, r.value) && forall j :: 0 <= j < r.value ==> !BoundaryAt(s, j)
    ensures r.None? ==> forall j :: 0 <= j < |s| ==> !BoundaryAt(s, j)
  {
    var p := (i: nat) => BoundaryAt(s, i);
    assert forall j: nat :: p(j) == BoundaryAt(s, j);
    FirstFrom(p, 0, |s|)
  }

  /** `re.split(r"(?<=[.!?])\s+", s)`: pieces between the whitespace runs
      that follow a terminator. A trailing run leaves a last empty piece. */
  function SplitSentences(s: string): (r: seq<string>)
    ensures r != []
    decreases |s|
  {
    match NextBoundary(s)
    case None => [s]
    case Some(i) => [s[..i]] + SplitSentences(s[SkipSpaces(s, i)..])
  }

  /** Removing a run of whitespace from the middle keeps the non-space
      characters. */
  lemma DropSpaceRun(s: string, i: nat, j: nat)
    requires i <= j <= |s|
    requires forall k :: i <= k < j ==> IsSpace(s[k])
    ensures Filter(s, NotSpace) == Filter(s[..i], NotSpace) + Filter(s[j..], NotSpace)
  {
    DropRun(s, i, j, NotSpace);
  }

  /** Removing a run of characters that `p` rejects keeps the others. */
  lemma DropRun(s: string, i: nat, j: nat, p: char -> bool)
    requires i <= j <= |s|
    requires forall k :: i <= k < j ==> !p(s[k])
    ensures Filter(s, p) == Filter(s[..i], p) + Filter(s[j..], p)
  {
    ThreeSlices(s, i, j);
    FilterNoneSlice(s, i, j, p);
    FilterSkipsRun(s[..i], s[i..j], s[j..], p);
  }

  lemma FilterNoneSlice(s: string, i: nat, j: nat, p: char -> bool)
    requires i <= j <= |s|
    requires forall k :: i <= k < j ==> !p(s[k])
    ensures Filter(s[i..j], p) == []
  {
    var b := s[i..j];
    forall k | 0 <= k < |b| ensures !p(b[k]) {
      assert b[k] == s[i + k];
    }
    FilterNone(b, p);
  }

  lemma ThreeSlices(s: string, i: nat, j: nat)
    requires i <= j <= |s|
    ensures s == s[..i] + (s[i..j] + s[j..])
  {
    assert s[i..] == s[i..j] + s[j..];
    assert s == s[..i] + s[i..];
  }

  lemma ConcatCons(x: string, rest: seq<string>)
    ensures Concat([x] + rest) == x + Concat(rest)
  {
    assert ([x] + rest)[1..] == rest;
  }

  /** The split drops only whitespace: the non-space characters of the pieces
      are those of the input, in order. */
  lemma {:induction false} SplitSentencesLosesOnlySpace(s: string)
    ensures Filter(Concat(SplitSentences(s)), NotSpace) == Filter(s, NotSpace)
    decreases |s|
  {
    match NextBoundary(s)
    case None =>
      assert SplitSentences(s) == [s];
      ConcatCons(s, []);
      assert [s] + [] == [s];
      assert Concat([s]) == s;
    case Some(i) =>
      var j := SkipSpaces(s, i);
      var rest := SplitSentences(s[j..]);
      SplitSentencesLosesOnlySpace(s[j..]);
      ConcatCons(s[..i], rest);
      FilterAppend(s[..i], Concat(rest), NotSpace);
      DropSpaceRun(s, i, j);
  }

  predicate EndsWithTerminator(p: string) {
    p != [] && IsTerminator(p[|p| - 1])
  }

  /** Every piece but the last ends with its terminator. */
  lemma {:induction false} SplitSentencesEndings(s: string)
    ensures forall k :: 0 <= k < |SplitSentences(s)| - 1 ==> EndsWithTerminator(SplitSentences(s)[k])
    decreases |s|
  {
    match NextBoundary(s)
    case None =>
    case Some(i) =>
      var t := s[SkipSpaces(s, i)..];
      var rest := SplitSentences(t);
      SplitSentencesEndings(t);
      var r := [s[..i]] + rest;
      assert r[0][i - 1] == s[i - 1];
      forall k | 0 <= k < |r| - 1
        ensures EndsWithTerminator(r[k])
      {
        if k > 0 {
          assert r[k] == rest[k - 1];
        }
      }
  }

  /** No piece holds a split point of its own. */
  predicate NoInnerBoundary(r: seq<string>) {
    forall k, i :: 0 <= k < |r| && 0 <= i < |r[k]| ==> !BoundaryAt(r[k], i)
  }

  /** A split point of a prefix is one of the whole text, and the converse
      holds away from the prefix's end. */
  lemma BoundaryOfPrefix(s: string, a: nat, i: nat)
    requires i < a <= |s|
    ensures BoundaryAt(s[..a], i) <==> BoundaryAt(s, i)
  {
    if 0 < i {
      assert s[..a][i - 1] == s[i - 1] && s[..a][i] == s[i];
    }
  }

  /** No piece contains a split point of its own. */
  lemma {:induction false} SplitSentencesMaximal(s: string)
    ensures NoInnerBoundary(SplitSentences(s))
    decreases |s|
  {
    match NextBoundary(s)
    case None =>
    case Some(a) =>
      var rest := SplitSentences(s[SkipSpaces(s, a)..]);
      SplitSentencesMaximal(s[SkipSpaces(s, a)..]);
      var r := [s[..a]] + rest;
      forall k, i | 0 <= k < |r| && 0 <= i < |r[k]|
        ensures !BoundaryAt(r[k], i)
      {
        if k > 0 {
          assert r[k] == rest[k - 1];
        } else {
          BoundaryOfPrefix(s, a, i);
        }
      }
  }

  /** `r` cuts `s` at split points: the first piece is a prefix of `s`; the
      text ends there when it is the last piece, and otherwise a split point
      follows, and the remaining pieces cut what is left after the whole run
      of whitespace there. */
  predicate Tiles(s: string, r: seq<string>)
    decreases |r|
  {
    r != [] && |r[0]| <= |s| && s[..|r[0]|] == r[0]
    && if |r| == 1 then |r[0]| == |s|
       else BoundaryAt(s, |r[0]|) && Tiles(s[SkipSpaces(s, |r[0]|)..], r[1..])
  }

  /** The pieces of `SplitSentences` cut the text at split points. */
  lemma {:induction false} SplitSentencesTiles(s: string)
    ensures Tiles(s, SplitSentences(s))
    decreases |s|
  {
    match NextBoundary(s)
    case None =>
      assert SplitSentences(s) == [s];
      assert s[..|s|] == s;
    case Some(i) =>
      var t := s[SkipSpaces(s, i)..];
      SplitSentencesTiles(t);
      var r := [s[..i]] + SplitSentences(t);
      assert r[1..] == SplitSentences(t);
  }

  /** Conversely, cutting at split points so that no piece keeps one gives
      exactly `SplitSentences`: with `SplitSentencesTiles` and
      `SplitSentencesMaximal` this characterises the split. */
  lemma {:induction false} TilesUnique(s: string, r: seq<string>)
    requires Tiles(s, r) && NoInnerBoundary(r)
    ensures r == SplitSentences(s)
    decreases |r|
  {
    var e := |r[0]|;
    forall i | 0 <= i < e ensures !BoundaryAt(s, i) {
      BoundaryOfPrefix(s, e, i);
    }
    if |r| == 1 {
      assert s == r[0];
      assert NextBoundary(s).None?;
    } else {
      assert NextBoundary(s) == Some(e);
      var t := s[SkipSpaces(s, e)..];
      assert NoInnerBoundary(r[1..]) by {
        forall k, i | 0 <= k < |r[1..]| && 0 <= i < |r[1..][k]| ensures !BoundaryAt(r[1..][k], i) {
          assert r[1..][k] == r[k + 1];
        }
      }
      TilesUnique(t, r[1..]);
      assert r == [r[0]] + r[1..];
    }
  }

  // ---------------------------------------------------------------------
  // The sentence filters
  // ---------------------------------------------------------------------

  /** A digit follows after optional whitespace: `\s*\d+` at `i`. */
  predicate DigitAfterSpaces(t: string, i: nat)
    requires i <= |t|
  {
    var j := SkipSpaces(t, i);
    j < |t| && IsDigit(t[j])
  }

  /** `^(그림|표)\s*\d+`: a figure or table caption. */
  predicate IsCaption(t: string) {
    (HasAt(t, 0, "그림") && DigitAfterSpaces(t, 2)) || (HasAt(t, 0, "표") && DigitAfterSpaces(t, 1))
  }

  /** `^주\s*\d+`: a numbered footnote. */
  predicate IsFootnote(t: string) {
    HasAt(t, 0, "주") && DigitAfterSpaces(t, 1)
  }

  /** `^(자료|출처)[: ]`: a source attribution. */
  predicate IsAttribution(t: string) {
    (HasAt(t, 0, "자료") || HasAt(t, 0, "출처")) && |t| > 2 && (t[2] == ':' || t[2] == ' ')
  }

  /** `^[\d\.\-,/]+$`: a token made only of digits and number punctuation. */
  predicate IsNumericToken(w: string) {
    w != [] && forall k :: 0 <= k < |w| ==> IsDigit(w[k]) || w[k] in ".-,/"
  }

  function CountNumeric(ws: seq<string>): (n: nat)
    ensures n <= |ws|
  {
    if ws == [] then 0 else (if IsNumericToken(ws[0]) then 1 else 0) + CountNumeric(ws[1..])
  }

  /** More than 60% of the whitespace-separated tokens are numeric. The
      source compares the float `num / len` with 0.6; for a positive `len`
      that is `5 * num > 3 * len` exactly. */
  predicate MostlyNumeric(t: string) {
    var ws := Words(t);
    |ws| > 0 && 5 * CountNumeric(ws) > 3 * |ws|
  }

  /** A sentence the cleanup drops. */
  predicate IsNoiseSentence(t: string) {
    IsCaption(t) || IsFootnote(t) || IsAttribution(t) || MostlyNumeric(t)
  }

  /** The kept sentences: stripped, non-blank and not noise, in order. */
  function KeptSentences(paragraph: string): (r: seq<string>)
    ensures forall t | t in r :: Framed(t) && !IsNoiseSentence(t)
  {
    KeepStripped(SplitSentences(paragraph), IsNoiseSentence)
  }

  /** `clean_non_text_blocks`. */
  function CleanNonTextBlocks(paragraph: string): string
  {
    Strip(JoinSpace(KeptSentences(paragraph)))
  }

  /** The cleaned paragraph is the kept sentences joined by single spaces
      (the final `strip` has nothing to remove), and none of them is a
      caption, footnote, attribution or mostly numbers. */
  lemma CleanIsJoinOfKept(paragraph: string)
    ensures var kept := KeptSentences(paragraph);
            CleanNonTextBlocks(paragraph) == JoinSpace(kept)
            && forall t | t in kept ::
                 !IsCaption(t) && !IsFootnote(t) && !IsAttribution(t)
                 && 5 * CountNumeric(Words(t)) <= 3 * |Words(t)|
  {
    var kept := KeptSentences(paragraph);
    assert forall k :: 0 <= k < |kept| ==> Framed(kept[k]) by {
      forall k | 0 <= k < |kept| ensures Framed(kept[k]) {
        assert kept[k] in kept;
      }
    }
    JoinSpaceFramed(kept);
    forall t | t in kept
      ensures 5 * CountNumeric(Words(t)) <= 3 * |Words(t)|
    {
      assert !MostlyNumeric(t);
      assert Words(t) != [] by {
        assert !IsSpace(t[0]);
        assert SkipSpaces(t, 0) == 0;
      }
    }
  }

  /** A paragraph with no split point is judged as one sentence: it is kept,
      stripped, exactly when it is not blank and not noise. */
  lemma SingleSentence(paragraph: string)
    requires forall i :: 0 <= i < |paragraph| ==> !BoundaryAt(paragraph, i)
    ensures var t := Strip(paragraph);
            CleanNonTextBlocks(paragraph) == if t != [] && !IsNoiseSentence(t) then t else []
  {
    assert SplitSentences(paragraph) == [paragraph];
    KeepStrippedSingle(paragraph, IsNoiseSentence);
    var t := Strip(paragraph);
    if t != [] && !IsNoiseSentence(t) {
      assert JoinSpace([t]) == t;
      StripStripped(t);
    }
  }
}
