/**
 Character classes and the Python string primitives the jobs rely on:
 `str.strip`, `str.split()`, `str.splitlines`, `" ".join`, single-character
 `str.replace` and substring tests, plus a leftmost search used by every
 hand-written regular-expression matcher.
 */
module Text {
  import opened Wrappers

  /** `str.isspace()`, which is also the `\s` class of `re` on str patterns. */
  predicate IsSpace(c: char) {
    ('\t' <= c <= '\r') || ('\U{1C}' <= c <= ' ') || c == '\U{85}' || c == '\U{A0}'
    || c == '\U{1680}' || ('\U{2000}' <= c <= '\U{200A}') || c == '\U{2028}'
    || c == '\U{2029}' || c == '\U{202F}' || c == '\U{205F}' || c == '\U{3000}'
  }

  /** The line boundaries of `str.splitlines` ("\r\n" is handled by SplitLines). */
  predicate IsLineBreak(c: char) {
    ('\n' <= c <= '\r') || ('\U{1C}' <= c <= '\U{1E}') || c == '\U{85}'
    || c == '\U{2028}' || c == '\U{2029}'
  }

  /** The `\d` class, restricted to ASCII digits. */
  predicate IsDigit(c: char) {
    '0' <= c <= '9'
  }

  /** The `\w` class (`str.isalnum()` or '_'), approximated by ASCII letters and
      digits, '_', Latin letters, Hangul, CJK ideographs and Roman numerals. */
  predicate IsWord(c: char) {
    IsDigit(c) || ('a' <= c <= 'z') || ('A' <= c <= 'Z') || c == '_'
    || c == '\U{AA}' || c == '\U{B5}' || c == '\U{BA}'
    || ('\U{C0}' <= c <= '\U{D6}') || ('\U{D8}' <= c <= '\U{F6}') || ('\U{F8}' <= c <= '\U{24F}')
    || ('\U{1100}' <= c <= '\U{11FF}') || ('\U{3131}' <= c <= '\U{318E}')
    || ('가' <= c <= '힣') || ('\U{4E00}' <= c <= '\U{9FFF}') || ('\U{2160}' <= c <= '\U{2188}')
  }

  lemma LineBreakIsSpace(c: char)
    ensures IsLineBreak(c) ==> IsSpace(c)
  {
  }

  /** Index of the first position at or after `i` whose character fails `p`, or |s|. */
  function SkipFrom(s: string, i: nat, p: char -> bool): (j: nat)
    requires i <= |s|
    ensures i <= j <= |s|
    decreases |s| - i
  {
    if i == |s| || !p(s[i]) then i else SkipFrom(s, i + 1, p)
  }

  /** The skipped characters all satisfy `p`, and the one after them does not. */
  lemma {:induction false} SkipFromFacts(s: string, i: nat, p: char -> bool)
    requires i <= |s|
    ensures forall k :: i <= k < SkipFrom(s, i, p) ==> p(s[k])
    ensures SkipFrom(s, i, p) < |s| ==> !p(s[SkipFrom(s, i, p)])
    decreases |s| - i
  {
    if i < |s| && p(s[i]) {
      SkipFromFacts(s, i + 1, p);
    }
  }

  /** `SkipFrom` together with what it guarantees. */
  function SkipWhile(s: string, i: nat, p: char -> bool): (j: nat)
    requires i <= |s|
    ensures i <= j <= |s|
    ensures forall k :: i <= k < j ==> p(s[k])
    ensures j < |s| ==> !p(s[j])
  {
    SkipFromFacts(s, i, p);
    SkipFrom(s, i, p)
  }

  function SkipSpaces(s: string, i: nat): (j: nat)
    requires i <= |s|
    ensures i <= j <= |s|
    ensures forall k :: i <= k < j ==> IsSpace(s[k])
    ensures j < |s| ==> !IsSpace(s[j])
  {
    SkipWhile(s, i, IsSpace)
  }

  /** Shifting a string does not change where a skip stops. */
  lemma {:induction false} SkipFromShift(s: string, a: nat, i: nat, p: char -> bool)
    requires a <= |s| && i <= |s| - a
    ensures SkipFrom(s[a..], i, p) == SkipFrom(s, a + i, p) - a
    decreases |s| - a - i
  {
    if i < |s| - a {
      assert s[a..][i] == s[a + i];
      if p(s[a + i]) {
        SkipFromShift(s, a, i + 1, p);
      }
    }
  }

  /** Smallest `e <= j` such that s[e..j] is all whitespace. */
  function TrimEnd(s: string, j: nat): (e: nat)
    requires j <= |s|
    ensures e <= j
  {
    if j == 0 || !IsSpace(s[j - 1]) then j else TrimEnd(s, j - 1)
  }

  /** The trimmed characters are whitespace and the one before them is not. */
  lemma {:induction false} TrimEndFacts(s: string, j: nat)
    requires j <= |s|
    ensures forall k :: TrimEnd(s, j) <= k < j ==> IsSpace(s[k])
    ensures TrimEnd(s, j) > 0 ==> !IsSpace(s[TrimEnd(s, j) - 1])
  {
    if j > 0 && IsSpace(s[j - 1]) {
      TrimEndFacts(s, j - 1);
    }
  }

  predicate Stripped(s: string) {
    s == [] || (!IsSpace(s[0]) && !IsSpace(s[|s| - 1]))
  }

  predicate NotSpace(c: char) {
    !IsSpace(c)
  }

  /** Non-empty, with no whitespace at either end. */
  predicate Framed(s: string) {
    s != [] && Stripped(s)
  }

  predicate AllSpace(s: string) {
    forall k :: 0 <= k < |s| ==> IsSpace(s[k])
  }

  /** `str.strip()`. */
  function Strip(s: string): (r: string)
    ensures Stripped(r)
    ensures r == [] <==> AllSpace(s)
    ensures |r| <= |s|
  {
    SkipFromFacts(s, 0, IsSpace);
    TrimEndFacts(s, |s|);
    var i := SkipFrom(s, 0, IsSpace);
    var e := TrimEnd(s, |s|);
    if e <= i then [] else s[i..e]
  }

  /** The characters `Strip` keeps form one contiguous slice of its input. */
  lemma StripIsSlice(s: string)
    ensures var i := SkipSpaces(s, 0);
            i <= |s| && i + |Strip(s)| <= |s| && Strip(s) == s[i..i + |Strip(s)|]
  {
  }

  lemma StripStripped(s: string)
    requires Stripped(s)
    ensures Strip(s) == s
  {
    if s != [] {
      assert SkipSpaces(s, 0) == 0;
      assert TrimEnd(s, |s|) == |s|;
    }
  }

  /** A string that begins with a non-space "framed" prefix keeps that prefix
      when stripped. */
  lemma StripKeepsFramedPrefix(h: string, t: string)
    requires h != [] && Stripped(h)
    ensures h <= Strip(h + t)
  {
    var s := h + t;
    assert s[0] == h[0];
    assert SkipSpaces(s, 0) == 0;
    var e := TrimEnd(s, |s|);
    TrimEndFacts(s, |s|);
    assert s[|h| - 1] == h[|h| - 1];
    assert e >= |h|;
    assert Strip(s) == s[0..e];
  }

  lemma SliceOfSlice(s: string, a: nat, b: nat, c: nat, d: nat)
    requires a <= b <= |s| && c <= d <= b - a
    ensures s[a..b][c..d] == s[a + c..a + d]
  {
    forall k | 0 <= k < d - c
      ensures s[a..b][c..d][k] == s[a + c..a + d][k]
    {
    }
  }

  lemma SuffixSlice(s: string, b: nat, i: nat, j: nat)
    requires b <= |s| && i <= j <= |s| - b
    ensures s[b..][i..j] == s[b + i..b + j]
  {
  }

  lemma PrefixOfSuffix(s: string, a: nat, b: nat)
    requires a <= b <= |s|
    ensures s[a..][..b - a] == s[a..b]
  {
  }

  /** `sep.join(xs)`. */
  function Join(xs: seq<string>, sep: string): string
  {
    if xs == [] then [] else if |xs| == 1 then xs[0] else xs[0] + sep + Join(xs[1..], sep)
  }

  function JoinSpace(xs: seq<string>): string
  {
    Join(xs, " ")
  }

  /** Joining framed words with single spaces gives a framed string, so
      stripping the joined text changes nothing. */
  lemma {:induction false} JoinSpaceFramed(xs: seq<string>)
    requires forall k :: 0 <= k < |xs| ==> Framed(xs[k])
    ensures xs != [] ==> Framed(JoinSpace(xs))
    ensures Strip(JoinSpace(xs)) == JoinSpace(xs)
  {
    if |xs| > 1 {
      JoinSpaceFramed(xs[1..]);
      var t := JoinSpace(xs[1..]);
      var r := xs[0] + " " + t;
      assert r[0] == xs[0][0];
      assert r[|r| - 1] == t[|t| - 1];
    }
    StripStripped(JoinSpace(xs));
  }

  /** Concatenation of a list of strings (`"".join`). */
  function Concat(xs: seq<string>): string
  {
    if xs == [] then [] else xs[0] + Concat(xs[1..])
  }

  lemma ConcatSingle(x: string)
    ensures Concat([x]) == x
  {
    assert [x][1..] == [];
  }

  lemma ConcatPair(x: string, y: string)
    ensures |Concat([x, y])| == |x| + |y|
  {
    assert [x, y][1..] == [y];
    ConcatSingle(y);
  }

  lemma ConcatAppend(a: seq<string>, b: seq<string>)
    ensures Concat(a + b) == Concat(a) + Concat(b)
  {
    if a != [] {
      assert (a + b)[0] == a[0] && (a + b)[1..] == a[1..] + b;
      ConcatAppend(a[1..], b);
    } else {
      assert a + b == b;
    }
  }

  /** `str.split()` with no argument: the maximal runs of non-space characters. */
  function Words(s: string): (r: seq<string>)
    ensures forall w | w in r :: w != [] && forall k :: 0 <= k < |w| ==> !IsSpace(w[k])
    decreases |s|
  {
    var i := SkipSpaces(s, 0);
    if i == |s| then []
    else
      var j := SkipWhile(s, i, c => !IsSpace(c));
      [s[i..j]] + Words(s[j..])
  }

  /** `t in s` for strings. */
  predicate Contains(s: string, t: string)
    decreases |s|
  {
    t <= s || (s != [] && Contains(s[1..], t))
  }

  /** `s[i:].startswith(t)`. */
  predicate HasAt(s: string, i: nat, t: string) {
    i + |t| <= |s| && s[i..i + |t|] == t
  }

  lemma {:induction false} ContainsWitness(s: string, t: string)
    requires Contains(s, t)
    ensures exists i :: 0 <= i <= |s| && HasAt(s, i, t)
    decreases |s|
  {
    if t <= s {
      assert HasAt(s, 0, t);
    } else {
      ContainsWitness(s[1..], t);
      var i :| 0 <= i <= |s[1..]| && HasAt(s[1..], i, t);
      assert s[1..][i..i + |t|] == s[i + 1..i + 1 + |t|];
      assert HasAt(s, i + 1, t);
    }
  }

  lemma {:induction false} NotContainsNowhere(s: string, t: string)
    requires !Contains(s, t)
    ensures forall i :: 0 <= i <= |s| ==> !HasAt(s, i, t)
    decreases |s|
  {
    assert !(t <= s);
    assert !HasAt(s, 0, t) by {
      if |t| <= |s| {
        assert s[..|t|] != t;
      }
    }
    if s != [] {
      NotContainsNowhere(s[1..], t);
      forall i | 0 < i <= |s|
        ensures !HasAt(s, i, t)
      {
        HasAtShift(s, 1, i - 1, t);
      }
    }
  }

  /** `t in s` holds exactly when `t` occurs at some position of `s`. */
  lemma ContainsAt(s: string, t: string)
    ensures Contains(s, t) <==> exists i :: 0 <= i <= |s| && HasAt(s, i, t)
  {
    if Contains(s, t) {
      ContainsWitness(s, t);
    } else {
      NotContainsNowhere(s, t);
    }
  }

  lemma HasAtShift(s: string, a: nat, i: nat, t: string)
    requires a <= |s|
    ensures HasAt(s[a..], i, t) <==> HasAt(s, a + i, t)
  {
    if a + i + |t| <= |s| {
      assert s[a..][i..i + |t|] == s[a + i..a + i + |t|];
    }
  }

  /** Per-character `str.replace(old, new)` where both are single characters. */
  function ReplaceChar(s: string, from: char, to: char): (r: string)
    ensures |r| == |s|
    ensures forall k :: 0 <= k < |s| ==> r[k] == if s[k] == from then to else s[k]
  {
    seq(|s|, k requires 0 <= k < |s| => if s[k] == from then to else s[k])
  }

  /** `str.replace(c, "")`: every occurrence of `c` deleted. */
  function DeleteChar(s: string, c: char): (r: string)
    ensures |r| <= |s| && c !in r
  {
    if s == [] then [] else (if s[0] == c then [] else [s[0]]) + DeleteChar(s[1..], c)
  }

  /** Deleting a character distributes over concatenation. */
  lemma {:induction false} DeleteCharAppend(a: string, b: string, c: char)
    ensures DeleteChar(a + b, c) == DeleteChar(a, c) + DeleteChar(b, c)
  {
    if a == [] {
      assert a + b == b;
    } else {
      assert (a + b)[0] == a[0] && (a + b)[1..] == a[1..] + b;
      DeleteCharAppend(a[1..], b, c);
    }
  }

  /** Replacing a character distributes over concatenation. */
  lemma ReplaceCharAppend(a: string, b: string, from: char, to: char)
    ensures ReplaceChar(a + b, from, to) == ReplaceChar(a, from, to) + ReplaceChar(b, from, to)
  {
    var l := ReplaceChar(a + b, from, to);
    var r := ReplaceChar(a, from, to) + ReplaceChar(b, from, to);
    forall k | 0 <= k < |l| ensures l[k] == r[k] {
      if k >= |a| {
        assert (a + b)[k] == b[k - |a|];
      }
    }
  }

  /** The characters of `s` that satisfy `p`, in order. */
  function Filter(s: string, p: char -> bool): (r: string)
    ensures |r| <= |s|
    ensures forall k :: 0 <= k < |r| ==> p(r[k])
  {
    if s == [] then [] else (if p(s[0]) then [s[0]] else []) + Filter(s[1..], p)
  }

  lemma {:induction false} FilterAppend(a: string, b: string, p: char -> bool)
    ensures Filter(a + b, p) == Filter(a, p) + Filter(b, p)
  {
    if a == [] {
      assert a + b == b;
    } else {
      assert (a + b)[0] == a[0] && (a + b)[1..] == a[1..] + b;
      FilterAppend(a[1..], b, p);
    }
  }

  lemma {:induction false} FilterNone(s: string, p: char -> bool)
    requires forall k :: 0 <= k < |s| ==> !p(s[k])
    ensures Filter(s, p) == []
  {
    if s != [] {
      FilterNone(s[1..], p);
    }
  }

  /** A rejected first character drops out of the filtered text. */
  lemma FilterConsDropped(c: char, rest: string, p: char -> bool)
    requires !p(c)
    ensures Filter([c] + rest, p) == Filter(rest, p)
  {
    assert ([c] + rest)[0] == c && ([c] + rest)[1..] == rest;
    var fr := Filter(rest, p);
    assert Filter([c] + rest, p) == [] + fr;
    assert [] + fr == fr;
  }

  /** An accepted first character leads the filtered text. */
  lemma FilterConsKept(c: char, rest: string, p: char -> bool)
    requires p(c)
    ensures Filter([c] + rest, p) == [c] + Filter(rest, p)
  {
    assert ([c] + rest)[0] == c && ([c] + rest)[1..] == rest;
  }

  /** A prefix with nothing kept drops out of the filtered text. */
  lemma FilterDropsPrefix(s: string, j: nat, p: char -> bool)
    requires j <= |s| && Filter(s[..j], p) == []
    ensures Filter(s, p) == Filter(s[j..], p)
  {
    assert s[..j] + s[j..] == s;
    FilterAppend(s[..j], s[j..], p);
    var ft := Filter(s[j..], p);
    assert [] + ft == ft;
  }

  /** A middle part with nothing kept drops out of the filtered text. */
  lemma FilterSkipsRun(a: string, b: string, c: string, p: char -> bool)
    requires Filter(b, p) == []
    ensures Filter(a + (b + c), p) == Filter(a, p) + Filter(c, p)
  {
    FilterAppend(a, b + c, p);
    FilterAppend(b, c, p);
    var fc := Filter(c, p);
    assert Filter(b + c, p) == [] + fc;
    assert [] + fc == fc;
  }

  /** First `i` in [from, to) with `p(i)`: the leftmost-first scan of `re.search`. */
  function FirstFrom(p: nat -> bool, from: nat, to: nat): (r: Option<nat>)
    requires from <= to
    ensures r.Some? ==> from <= r.value < to && p(r.value)
    ensures r.Some? ==> forall j :: from <= j < r.value ==> !p(j)
    ensures r.None? ==> forall j :: from <= j < to ==> !p(j)
    decreases (to as int) - (from as int)
  {
    if from == to then None else if p(from) then Some(from) else FirstFrom(p, from + 1, to)
  }

  /** The search finds `i` whenever `i` is the leftmost position satisfying `p`. */
  lemma {:induction false} FirstFromIs(p: nat -> bool, from: nat, to: nat, i: nat)
    requires from <= i < to && p(i)
    requires forall j :: from <= j < i ==> !p(j)
    ensures FirstFrom(p, from, to) == Some(i)
    decreases i - from
  {
    if from < i {
      assert !p(from);
      FirstFromIs(p, from + 1, to, i);
    }
  }

  /** The search fails whenever no position satisfies `p`. */
  lemma {:induction false} FirstFromNone(p: nat -> bool, from: nat, to: nat)
    requires from <= to
    requires forall j :: from <= j < to ==> !p(j)
    ensures FirstFrom(p, from, to) == None
    decreases (to as int) - (from as int)
  {
    if from < to {
      assert !p(from);
      FirstFromNone(p, from + 1, to);
    }
  }

  /** `s.find(c, from)`, with `None` for -1. */
  function IndexOf(s: string, c: char, from: nat): (r: Option<nat>)
    requires from <= |s|
    ensures r.Some? ==> from <= r.value < |s| && s[r.value] == c
    ensures r.Some? ==> forall k :: from <= k < r.value ==> s[k] != c
    ensures r.None? ==> forall k :: from <= k < |s| ==> s[k] != c
    decreases |s| - from
  {
    if from == |s| then None else if s[from] == c then Some(from) else IndexOf(s, c, from + 1)
  }

  /** The search finds the first occurrence of `c`. */
  lemma {:induction false} IndexOfIs(s: string, c: char, from: nat, i: nat)
    requires from <= i < |s| && s[i] == c
    requires forall k :: from <= k < i ==> s[k] != c
    ensures IndexOf(s, c, from) == Some(i)
    decreases i - from
  {
    if from < i {
      IndexOfIs(s, c, from + 1, i);
    }
  }

  /** `s.split(c)` for a single-character separator. */
  function Split(s: string, c: char): (r: seq<string>)
    ensures r != []
    decreases |s|
  {
    match IndexOf(s, c, 0)
    case None => [s]
    case Some(i) => [s[..i]] + Split(s[i + 1..], c)
  }

  /** Joining one more part appends the separator and the part. */
  lemma {:induction false} JoinSnoc(xs: seq<string>, y: string, sep: string)
    requires xs != []
    ensures Join(xs + [y], sep) == Join(xs, sep) + sep + y
    decreases |xs|
  {
    if |xs| > 1 {
      assert (xs + [y])[1..] == xs[1..] + [y];
      JoinSnoc(xs[1..], y, sep);
    } else {
      assert xs + [y] == [xs[0], y];
      assert [xs[0], y][1..] == [y];
    }
  }

  /** Splitting undoes joining when no part contains the separator. */
  lemma {:induction false} SplitJoin(parts: seq<string>, c: char)
    requires parts != []
    requires forall k :: 0 <= k < |parts| ==> c !in parts[k]
    ensures Split(Join(parts, [c]), c) == parts
    decreases |parts|
  {
    var p := parts[0];
    if |parts| == 1 {
      assert Join(parts, [c]) == p;
      SplitWhole(p, c);
    } else {
      var rest := Join(parts[1..], [c]);
      assert Join(parts, [c]) == p + [c] + rest;
      SplitCons(p, c, rest);
      SplitJoin(parts[1..], c);
      assert parts == [p] + parts[1..];
    }
  }

  /** Without the separator the text is one part. */
  lemma SplitWhole(s: string, c: char)
    requires c !in s
    ensures Split(s, c) == [s]
  {
    forall k | 0 <= k < |s| ensures s[k] != c {
      assert s[k] in s;
    }
  }

  /** A part free of the separator, then the separator: the part comes off
      first. */
  lemma SplitCons(p: string, c: char, rest: string)
    requires c !in p
    ensures Split(p + [c] + rest, c) == [p] + Split(rest, c)
  {
    var s := p + [c] + rest;
    forall k | 0 <= k < |p| ensures s[k] != c {
      assert s[k] == p[k];
      assert p[k] in p;
    }
    IndexOfIs(s, c, 0, |p|);
    assert s[..|p|] == p && s[|p| + 1..] == rest;
  }

  /** `\s*t1\s*t2...` matches from `i`: each token after a greedy run of
      whitespace. The tokens of the patterns modelled here never start with
      whitespace, so backtracking into a run cannot produce another match and
      the greedy skip decides the outcome. */
  predicate SpacedTokens(s: string, i: nat, ts: seq<string>)
    requires i <= |s|
  {
    SkipTokens(s, i, ts, IsSpace)
  }

  /** Each token after a greedy run of characters satisfying `p`. */
  predicate SkipTokens(s: string, i: nat, ts: seq<string>, p: char -> bool)
    requires i <= |s|
    decreases |ts|
  {
    ts == []
    || (var j := SkipFrom(s, i, p);
        HasAt(s, j, ts[0]) && SkipTokens(s, j + |ts[0]|, ts[1..], p))
  }

  /** The first token of a match found from `a + i` in the whole string, seen
      from `i` in the suffix that starts at `a`. */
  lemma SkipTokensShiftHead(s: string, a: nat, i: nat, ts: seq<string>, p: char -> bool)
    requires a <= |s| && i <= |s| - a && ts != []
    ensures var j := SkipFrom(s[a..], i, p);
            a + j == SkipFrom(s, a + i, p)
            && (HasAt(s[a..], j, ts[0]) <==> HasAt(s, a + j, ts[0]))
  {
    SkipFromShift(s, a, i, p);
    HasAtShift(s, a, SkipFrom(s[a..], i, p), ts[0]);
  }

  /** One step of the match with the positions named: the first token at
      `j`, the rest from `k`. */
  lemma SkipTokensStepAt(s: string, i: nat, ts: seq<string>, p: char -> bool, j: nat, k: nat)
    requires i <= |s| && ts != [] && j == SkipFrom(s, i, p) && k == j + |ts[0]|
    ensures SkipTokens(s, i, ts, p) <==> HasAt(s, j, ts[0]) && k <= |s| && SkipTokens(s, k, ts[1..], p)
  {
  }

  /** A match inside a suffix is a match in the whole string. */
  lemma {:induction false} SkipTokensShiftOut(s: string, a: nat, i: nat, ts: seq<string>, p: char -> bool)
    requires a <= |s| && i <= |s| - a
    requires SkipTokens(s[a..], i, ts, p)
    ensures SkipTokens(s, a + i, ts, p)
    decreases |ts|
  {
    if ts != [] {
      var j := SkipFrom(s[a..], i, p);
      var k := j + |ts[0]|;
      SkipTokensShiftHead(s, a, i, ts, p);
      SkipTokensStepAt(s[a..], i, ts, p, j, k);
      SkipTokensShiftOut(s, a, k, ts[1..], p);
      SkipTokensStepAt(s, a + i, ts, p, a + j, a + k);
    }
  }

  /** A match in the whole string at or after `a` is a match in the suffix. */
  lemma {:induction false} SkipTokensShiftIn(s: string, a: nat, i: nat, ts: seq<string>, p: char -> bool)
    requires a <= |s| && i <= |s| - a
    requires SkipTokens(s, a + i, ts, p)
    ensures SkipTokens(s[a..], i, ts, p)
    decreases |ts|
  {
    if ts != [] {
      var j := SkipFrom(s[a..], i, p);
      var k := j + |ts[0]|;
      SkipTokensShiftHead(s, a, i, ts, p);
      SkipTokensStepAt(s, a + i, ts, p, a + j, a + k);
      SkipTokensShiftIn(s, a, k, ts[1..], p);
      SkipTokensStepAt(s[a..], i, ts, p, j, k);
    }
  }

  /** Matching inside a suffix is matching in the whole string. */
  lemma SpacedTokensShift(s: string, a: nat, i: nat, ts: seq<string>)
    requires a <= |s| && i <= |s| - a
    ensures SpacedTokens(s[a..], i, ts) <==> SpacedTokens(s, a + i, ts)
  {
    if SkipTokens(s[a..], i, ts, IsSpace) {
      SkipTokensShiftOut(s, a, i, ts, IsSpace);
    }
    if SkipTokens(s, a + i, ts, IsSpace) {
      SkipTokensShiftIn(s, a, i, ts, IsSpace);
    }
  }

  /** Strips every element, dropping those that are blank or that `noise` rejects:
      the line filter of the normaliser and the sentence filter share it. */
  function KeepStripped(xs: seq<string>, noise: string -> bool): (r: seq<string>)
    ensures |r| <= |xs|
    ensures forall t | t in r :: t != [] && Stripped(t) && !noise(t)
  {
    if xs == [] then []
    else
      var t := Strip(xs[0]);
      (if t != [] && !noise(t) then [t] else []) + KeepStripped(xs[1..], noise)
  }

  /** The filter works element by element: filtering a concatenation is
      concatenating the filtered parts, so survivors keep their order. */
  lemma {:induction false} KeepStrippedAppend(a: seq<string>, b: seq<string>, noise: string -> bool)
    ensures KeepStripped(a + b, noise) == KeepStripped(a, noise) + KeepStripped(b, noise)
  {
    if a != [] {
      assert (a + b)[0] == a[0] && (a + b)[1..] == a[1..] + b;
      KeepStrippedAppend(a[1..], b, noise);
    } else {
      assert a + b == b;
    }
  }

  /** One element contributes its stripped form exactly when that form is
      non-blank and not noise, and nothing otherwise. */
  lemma KeepStrippedSingle(x: string, noise: string -> bool)
    ensures KeepStripped([x], noise) == if Strip(x) != [] && !noise(Strip(x)) then [Strip(x)] else []
  {
    assert [x][1..] == [];
  }
}
