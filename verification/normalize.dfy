/**
 Text normalisation (`normalize_text`): drop noise lines, join the remaining
 lines with single spaces, blank numeric footnote call-outs, mask every
 character outside the allow-list, collapse whitespace and strip.
 */
module Normalize {
  import opened Text
  import Wrappers

  /** `str.splitlines()`: "\r\n" is one break, and a break at the very end
      does not open an empty last line. */
  function SplitLines(s: string): (r: seq<string>)
    ensures forall l | l in r :: forall k :: 0 <= k < |l| ==> !IsLineBreak(l[k])
    ensures s != [] ==> r != []
    decreases |s|
  {
    if s == [] then []
    else
      var i := SkipWhile(s, 0, c => !IsLineBreak(c));
      if i == |s| then [s]
      else
        var next := if s[i] == '\r' && i + 1 < |s| && s[i + 1] == '\n' then i + 2 else i + 1;
        [s[..i]] + SplitLines(s[next..])
  }

  predicate NoLineBreak(l: string) {
    forall k :: 0 <= k < |l| ==> !IsLineBreak(l[k])
  }

  /** `splitlines` undoes `"\n".join` for lines without breaks whose last line
      is not empty. */
  lemma {:induction false} SplitLinesJoin(ls: seq<string>)
    requires ls != [] && ls[|ls| - 1] != []
    requires forall l | l in ls :: NoLineBreak(l)
    ensures SplitLines(Join(ls, "\n")) == ls
  {
    var s := Join(ls, "\n");
    var h := ls[0];
    assert NoLineBreak(h);
    if |ls| == 1 {
      assert s == h;
      assert SkipWhile(s, 0, c => !IsLineBreak(c)) == |s|;
    } else {
      var rest := Join(ls[1..], "\n");
      assert s == h + "\n" + rest;
      assert s[|h|] == '\n';
      assert SkipWhile(s, 0, c => !IsLineBreak(c)) == |h|;
      assert s[..|h|] == h;
      assert s[|h| + 1..] == rest;
      assert ls[1..][|ls[1..]| - 1] == ls[|ls| - 1];
      SplitLinesJoin(ls[1..]);
      assert ls == [h] + ls[1..];
    }
  }

  /** End of the first of `alts` found at `i` (regex alternation tries them
      in order). */
  function AfterAlt(s: string, i: nat, alts: seq<string>): (r: Wrappers.Option<nat>)
    ensures r.Some? ==> exists a | a in alts :: HasAt(s, i, a) && r.value == i + |a|
    ensures r.None? ==> forall a | a in alts :: !HasAt(s, i, a)
  {
    if alts == [] then Wrappers.None
    else if HasAt(s, i, alts[0]) then Wrappers.Some(i + |alts[0]|)
    else AfterAlt(s, i, alts[1..])
  }

  /** `^\s*\[?\s*(그림|표)\s*\d+`. Every `\s*` here is followed by a token that
      cannot be whitespace, so taking all the whitespace loses no match. */
  predicate IsFigureLine(l: string) {
    var i := SkipSpaces(l, 0);
    var j := if i < |l| && l[i] == '[' then i + 1 else i;
    var k := SkipSpaces(l, j);
    match AfterAlt(l, k, ["그림", "표"])
    case None => false
    case Some(m) => var n := SkipSpaces(l, m); n < |l| && IsDigit(l[n])
  }

  /** `^\s*주\s*[: ]?\s*\d+`: a space taken by `[: ]` could equally be taken by
      the `\s*` around it, so only an optional ':' matters. */
  predicate IsFootnoteLine(l: string) {
    var i := SkipSpaces(l, 0);
    HasAt(l, i, "주")
    && var j := SkipSpaces(l, i + 1);
       var k := SkipSpaces(l, if j < |l| && l[j] == ':' then j + 1 else j);
       k < |l| && IsDigit(l[k])
  }

  /** `^\s*(자료|출처)\s*[: ]?`: the optional tail never prevents a match. */
  predicate IsSourceLine(l: string) {
    var i := SkipSpaces(l, 0);
    AfterAlt(l, i, ["자료", "출처"]).Some?
  }

  /** `^\s*-\s*\d+\s*-`: a page number such as "- 12 -". */
  predicate IsPageNumberLine(l: string) {
    var i := SkipSpaces(l, 0);
    i < |l| && l[i] == '-'
    && var j := SkipSpaces(l, i + 1);
       j < |l| && IsDigit(l[j])
       && var m := SkipSpaces(l, SkipWhile(l, j, IsDigit));
          m < |l| && l[m] == '-'
  }

  /** A line any of the four removal patterns finds. */
  predicate IsNoiseLine(l: string) {
    IsFigureLine(l) || IsFootnoteLine(l) || IsSourceLine(l) || IsPageNumberLine(l)
  }

  /** The kept lines, stripped, in source order. */
  function KeptLines(text: string): (r: seq<string>)
    ensures forall l | l in r :: l != [] && Stripped(l) && !IsNoiseLine(l)
  {
    KeepStripped(SplitLines(ReplaceChar(text, 'ž', '·')), IsNoiseLine)
  }

  /** No digit immediately followed by ')'. */
  predicate NoNoteCall(s: string) {
    forall k :: 0 <= k < |s| - 1 ==> IsDigit(s[k]) ==> s[k + 1] != ')'
  }

  /** Characters `re.sub(r"\d+\)", " ", ...)` never touches. */
  predicate Plain(c: char) {
    !IsDigit(c) && c != ')' && c != ' '
  }

  /** `re.sub(r"\d+\)", " ", s)`. A greedy digit run that is not followed by
      ')' cannot match from any later digit of the same run either, so the
      scan resumes after the run. */
  function DropNoteCalls(s: string): string
    decreases |s|
  {
    if s == [] then []
    else if IsDigit(s[0]) then
      var j := SkipWhile(s, 0, IsDigit);
      if j < |s| && s[j] == ')' then " " + DropNoteCalls(s[j + 1..])
      else s[..j] + DropNoteCalls(s[j..])
    else [s[0]] + DropNoteCalls(s[1..])
  }

  lemma DropNoteCallsHead(s: string)
    requires s != [] && !IsDigit(s[0])
    ensures DropNoteCalls(s) != [] && DropNoteCalls(s)[0] == s[0]
  {
  }

  /** After the substitution no digit is directly followed by ')'. */
  lemma {:induction false} DropNoteCallsLeavesNone(s: string)
    ensures NoNoteCall(DropNoteCalls(s))
    decreases |s|
  {
    if s == [] {
    } else if IsDigit(s[0]) {
      var j := SkipWhile(s, 0, IsDigit);
      if j < |s| && s[j] == ')' {
        DropNoteCallsLeavesNone(s[j + 1..]);
      } else {
        var rest := DropNoteCalls(s[j..]);
        DropNoteCallsLeavesNone(s[j..]);
        var r := s[..j] + rest;
        assert r == DropNoteCalls(s);
        if j < |s| {
          DropNoteCallsHead(s[j..]);
        }
        forall k | 0 <= k < |r| - 1 && IsDigit(r[k])
          ensures r[k + 1] != ')'
        {
          if k < j - 1 {
            assert r[k + 1] == s[k + 1];
          } else if k == j - 1 {
            assert r[k + 1] == rest[0] == s[j];
          } else {
            assert r[k] == rest[k - j] && r[k + 1] == rest[k - j + 1];
          }
        }
      }
    } else {
      var rest := DropNoteCalls(s[1..]);
      DropNoteCallsLeavesNone(s[1..]);
      var r := [s[0]] + rest;
      assert r == DropNoteCalls(s);
      forall k | 0 <= k < |r| - 1 && IsDigit(r[k])
        ensures r[k + 1] != ')'
      {
        assert r[k] == rest[k - 1] && r[k + 1] == rest[k];
      }
    }
  }

  /** Only digits, ')' and the inserted spaces change: every other character
      survives, in order. */
  lemma {:induction false} DropNoteCallsKeepsPlain(s: string)
    ensures Filter(DropNoteCalls(s), Plain) == Filter(s, Plain)
    decreases |s|
  {
    if s == [] {
    } else if IsDigit(s[0]) {
      var j := SkipWhile(s, 0, IsDigit);
      if j < |s| && s[j] == ')' {
        var rest := DropNoteCalls(s[j + 1..]);
        DropNoteCallsKeepsPlain(s[j + 1..]);
        assert DropNoteCalls(s) == [' '] + rest;
        FilterConsDropped(' ', rest, Plain);
        NoteCallDropped(s, j);
      } else {
        var rest := DropNoteCalls(s[j..]);
        DropNoteCallsKeepsPlain(s[j..]);
        assert DropNoteCalls(s) == s[..j] + rest;
        DigitsDropped(s, j, rest);
      }
    } else {
      var rest := DropNoteCalls(s[1..]);
      DropNoteCallsKeepsPlain(s[1..]);
      assert DropNoteCalls(s) == [s[0]] + rest;
      assert s == [s[0]] + s[1..];
      if Plain(s[0]) {
        FilterConsKept(s[0], rest, Plain);
        FilterConsKept(s[0], s[1..], Plain);
      } else {
        FilterConsDropped(s[0], rest, Plain);
        FilterConsDropped(s[0], s[1..], Plain);
      }
    }
  }

  /** A leading run of digits drops out of the plain characters. */
  lemma DigitsDropped(s: string, j: nat, rest: string)
    requires j <= |s| && forall k :: 0 <= k < j ==> IsDigit(s[k])
    requires Filter(rest, Plain) == Filter(s[j..], Plain)
    ensures Filter(s[..j] + rest, Plain) == Filter(s, Plain)
  {
    FilterNone(s[..j], Plain);
    FilterDropsPrefix(s, j, Plain);
    FilterAppend(s[..j], rest, Plain);
    var fr := Filter(rest, Plain);
    assert [] + fr == fr;
  }

  /** A note call `\d+)` at the start drops out of the plain characters. */
  lemma NoteCallDropped(s: string, j: nat)
    requires j < |s| && s[j] == ')' && forall k :: 0 <= k < j ==> IsDigit(s[k])
    ensures Filter(s, Plain) == Filter(s[j + 1..], Plain)
  {
    FilterNone(s[..j + 1], Plain);
    FilterDropsPrefix(s, j + 1, Plain);
  }

  /** The allow-list `[\w\s.,!?가-힣()/%\-ⅠⅡⅢⅣⅤⅥⅦⅧⅨⅩ]`. */
  predicate Allowed(c: char) {
    IsWord(c) || IsSpace(c) || c in ".,!?()/%-" || ('가' <= c <= '힣') || ('Ⅰ' <= c <= 'Ⅹ')
  }

  predicate AllAllowed(s: string) {
    forall k :: 0 <= k < |s| ==> Allowed(s[k])
  }

  /** `re.sub(r"[^...]", " ", s)`: the scan from the left replaces each
      match, a single character outside the allow-list, by a space. The
      result is allow-listed everywhere, and position by position it holds
      the input's character or, where that was not allowed, a space. */
  function MaskDisallowed(s: string): (r: string)
    ensures |r| == |s|
    ensures AllAllowed(r)
    ensures forall k :: 0 <= k < |s| ==> r[k] == if Allowed(s[k]) then s[k] else ' '
    decreases |s|
  {
    if s == [] then []
    else
      var rest := MaskDisallowed(s[1..]);
      var r := [if Allowed(s[0]) then s[0] else ' '] + rest;
      assert forall k :: 1 <= k < |s| ==> r[k] == rest[k - 1] && s[k] == s[1..][k - 1];
      r
  }

  /** Whitespace is only the plain space, never two in a row. */
  predicate SingleSpaced(s: string) {
    && (forall k :: 0 <= k < |s| ==> IsSpace(s[k]) ==> s[k] == ' ')
    && (forall k :: 0 <= k < |s| - 1 ==> s[k] == ' ' ==> s[k + 1] != ' ')
  }

  /** `re.sub(r"\s+", " ", s)`: every maximal whitespace run becomes one space. */
  function CollapseSpaces(s: string): string
    decreases |s|
  {
    if s == [] then []
    else if IsSpace(s[0]) then " " + CollapseSpaces(s[SkipSpaces(s, 0)..])
    else [s[0]] + CollapseSpaces(s[1..])
  }

  lemma CollapseSpacesHead(s: string)
    requires s != []
    ensures CollapseSpaces(s) != []
    ensures CollapseSpaces(s)[0] == if IsSpace(s[0]) then ' ' else s[0]
  {
  }

  /** The collapsed text has no whitespace but single plain spaces. */
  lemma {:induction false} CollapseSpacesSingleSpaced(s: string)
    ensures SingleSpaced(CollapseSpaces(s))
    decreases |s|
  {
    if s != [] {
      var j := if IsSpace(s[0]) then SkipSpaces(s, 0) else 1;
      var rest := CollapseSpaces(s[j..]);
      CollapseSpacesSingleSpaced(s[j..]);
      var r := CollapseSpaces(s);
      assert r == [r[0]] + rest;
      if j < |s| {
        CollapseSpacesHead(s[j..]);
      }
      forall k | 0 <= k < |r| - 1 && r[k] == ' '
        ensures r[k + 1] != ' '
      {
        if k > 0 {
          assert r[k] == rest[k - 1] && r[k + 1] == rest[k];
        }
      }
      assert forall k :: 1 <= k < |r| ==> r[k] == rest[k - 1];
    }
  }

  /** Collapsing introduces only spaces, which the allow-list admits. */
  lemma {:induction false} CollapseSpacesAllowed(s: string)
    requires AllAllowed(s)
    ensures AllAllowed(CollapseSpaces(s))
    decreases |s|
  {
    if s != [] {
      var j := if IsSpace(s[0]) then SkipSpaces(s, 0) else 1;
      var rest := CollapseSpaces(s[j..]);
      CollapseSpacesAllowed(s[j..]);
      var r := CollapseSpaces(s);
      assert r == [r[0]] + rest;
      assert forall k :: 1 <= k < |r| ==> r[k] == rest[k - 1];
    }
  }

  /** Collapsing never puts a ')' right after a digit. */
  lemma {:induction false} CollapseSpacesNoNoteCall(s: string)
    requires NoNoteCall(s)
    ensures NoNoteCall(CollapseSpaces(s))
    decreases |s|
  {
    if s != [] {
      var j := if IsSpace(s[0]) then SkipSpaces(s, 0) else 1;
      var rest := CollapseSpaces(s[j..]);
      CollapseSpacesNoNoteCall(s[j..]);
      var r := CollapseSpaces(s);
      assert r == [r[0]] + rest;
      if j < |s| {
        CollapseSpacesHead(s[j..]);
      }
      forall k | 0 <= k < |r| - 1 && IsDigit(r[k])
        ensures r[k + 1] != ')'
      {
        if k > 0 {
          assert r[k] == rest[k - 1] && r[k + 1] == rest[k];
        }
      }
    }
  }

  /** Collapsing changes whitespace only: the other characters survive in order. */
  lemma {:induction false} CollapseSpacesKeepsText(s: string)
    ensures Filter(CollapseSpaces(s), NotSpace) == Filter(s, NotSpace)
    decreases |s|
  {
    if s == [] {
    } else if IsSpace(s[0]) {
      var j := SkipSpaces(s, 0);
      var rest := CollapseSpaces(s[j..]);
      CollapseSpacesKeepsText(s[j..]);
      assert CollapseSpaces(s) == [' '] + rest;
      FilterConsDropped(' ', rest, NotSpace);
      SpacePrefixDropped(s, j);
    } else {
      var rest := CollapseSpaces(s[1..]);
      CollapseSpacesKeepsText(s[1..]);
      assert CollapseSpaces(s) == [s[0]] + rest;
      assert s == [s[0]] + s[1..];
      FilterConsKept(s[0], rest, NotSpace);
      FilterConsKept(s[0], s[1..], NotSpace);
    }
  }

  /** A leading run of whitespace drops out of the non-space characters. */
  lemma SpacePrefixDropped(s: string, j: nat)
    requires j <= |s| && forall k :: 0 <= k < j ==> IsSpace(s[k])
    ensures Filter(s, NotSpace) == Filter(s[j..], NotSpace)
  {
    FilterNone(s[..j], NotSpace);
    FilterDropsPrefix(s, j, NotSpace);
  }

  lemma MaskKeepsNoNoteCall(s: string)
    requires NoNoteCall(s)
    ensures NoNoteCall(MaskDisallowed(s))
  {
    var r := MaskDisallowed(s);
    forall k | 0 <= k < |r| - 1 && IsDigit(r[k])
      ensures r[k + 1] != ')'
    {
      assert r[k] == s[k];
    }
  }

  /** Properties that only look at single characters or adjacent pairs hold
      of every slice. */
  lemma ShapeOfSlice(s: string, i: nat, j: nat)
    requires i <= j <= |s|
    ensures SingleSpaced(s) ==> SingleSpaced(s[i..j])
    ensures AllAllowed(s) ==> AllAllowed(s[i..j])
    ensures NoNoteCall(s) ==> NoNoteCall(s[i..j])
  {
    var t := s[i..j];
    assert forall k :: 0 <= k < |t| ==> t[k] == s[i + k];
  }

  lemma StripKeepsShape(t: string)
    requires SingleSpaced(t) && AllAllowed(t) && NoNoteCall(t)
    ensures var r := Strip(t); SingleSpaced(r) && AllAllowed(r) && NoNoteCall(r)
  {
    StripIsSlice(t);
    var i := SkipSpaces(t, 0);
    ShapeOfSlice(t, i, i + |Strip(t)|);
  }

  /** `normalize_text`. */
  function NormalizeText(text: string): string
  {
    Strip(CollapseSpaces(MaskDisallowed(DropNoteCalls(JoinSpace(KeptLines(text))))))
  }

  /** The normalised text is stripped, its only whitespace is single spaces,
      every character is on the allow-list and no digit is directly followed
      by ')'. */
  lemma NormalizeTextShape(text: string)
    ensures var r := NormalizeText(text);
            Stripped(r) && SingleSpaced(r) && AllAllowed(r) && NoNoteCall(r)
  {
    var joined := JoinSpace(KeptLines(text));
    var dropped := DropNoteCalls(joined);
    var masked := MaskDisallowed(dropped);
    var collapsed := CollapseSpaces(masked);
    DropNoteCallsLeavesNone(joined);
    MaskKeepsNoNoteCall(dropped);
    CollapseSpacesSingleSpaced(masked);
    CollapseSpacesAllowed(masked);
    CollapseSpacesNoNoteCall(masked);
    StripKeepsShape(collapsed);
  }
}
