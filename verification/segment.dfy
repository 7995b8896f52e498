/**
 Slicing of the normalised document: the front matter before the first
 "I-1" heading is dropped, the statistics appendix is cut off, and (for the
 issue report) the body is split into one paragraph per parenthesised
 department byline such as "(조사국 ...)".
 */
module Segment {
  import opened Wrappers
  import opened Text

  // ---------------------------------------------------------------------
  // Table of contents: `[ⅠI]\s*-\s*1`
  // ---------------------------------------------------------------------

  /** The pattern `[ⅠI]\s*-\s*1` matches at `i`. */
  predicate TocMarkAt(s: string, i: nat) {
    i < |s| && (s[i] == 'Ⅰ' || s[i] == 'I') && SpacedTokens(s, i + 1, ["-", "1"])
  }

  /** `remove_table_of_contents`: a suffix of the text. */
  function RemoveTableOfContents(s: string): (r: string)
    ensures |r| <= |s| && r == s[|s| - |r|..]
  {
    match FirstFrom((i: nat) => TocMarkAt(s, i), 0, |s|)
    case None => s
    case Some(i) => s[i..]
  }

  /** With a match, the front matter before the leftmost one is dropped. */
  lemma TocCutAt(s: string, a: nat)
    requires a < |s| && TocMarkAt(s, a)
    requires forall i :: 0 <= i < a ==> !TocMarkAt(s, i)
    ensures RemoveTableOfContents(s) == s[a..]
  {
    FirstFromIs((i: nat) => TocMarkAt(s, i), 0, |s|, a);
  }

  /** Without a match the text is returned unchanged. */
  lemma TocCutNone(s: string)
    requires forall i :: 0 <= i < |s| ==> !TocMarkAt(s, i)
    ensures RemoveTableOfContents(s) == s
  {
    FirstFromNone((i: nat) => TocMarkAt(s, i), 0, |s|);
  }

  // ---------------------------------------------------------------------
  // Statistics appendix: `주요\s*통계\s*및\s*참고`
  // ---------------------------------------------------------------------

  const StatsHeading: seq<string> := ["주요", "통계", "및", "참고"]

  /** The pattern `주요\s*통계\s*및\s*참고` matches at `i`: the first word
      starts right at `i` (the skip before it is empty because `s[i]` is not
      whitespace) and the others follow after optional whitespace. */
  predicate StatsHeadingAt(s: string, i: nat) {
    i < |s| && !IsSpace(s[i]) && SpacedTokens(s, i, StatsHeading)
  }

  /** `cut_statistics_section`. */
  function CutStatisticsSection(s: string): (r: string)
  {
    match FirstFrom((i: nat) => StatsHeadingAt(s, i), 0, |s|)
    case None => s
    case Some(i) => Strip(s[..i])
  }

  /** With a heading, the stripped text before the leftmost one is kept. */
  lemma StatsCutAt(s: string, a: nat)
    requires a < |s| && StatsHeadingAt(s, a)
    requires forall i :: 0 <= i < a ==> !StatsHeadingAt(s, i)
    ensures CutStatisticsSection(s) == Strip(s[..a])
  {
    FirstFromIs((i: nat) => StatsHeadingAt(s, i), 0, |s|, a);
  }

  /** Without a heading the text is returned unchanged, and not stripped. */
  lemma StatsCutNone(s: string)
    requires forall i :: 0 <= i < |s| ==> !StatsHeadingAt(s, i)
    ensures CutStatisticsSection(s) == s
  {
    FirstFromNone((i: nat) => StatsHeadingAt(s, i), 0, |s|);
  }

  /** Matching the heading inside a suffix is matching it in the whole text. */
  lemma StatsHeadingShift(s: string, a: nat, i: nat)
    requires a <= |s|
    ensures StatsHeadingAt(s[a..], i) <==> StatsHeadingAt(s, a + i)
  {
    if i < |s| - a {
      SpacedTokensShift(s, a, i, StatsHeading);
    }
  }

  lemma NoHeadingBefore(s: string, a: nat, b: nat)
    requires a <= b <= |s|
    requires forall i :: a <= i < b ==> !StatsHeadingAt(s, i)
    ensures forall j :: 0 <= j < b - a ==> !StatsHeadingAt(s[a..], j)
  {
    forall j | 0 <= j < b - a
      ensures !StatsHeadingAt(s[a..], j)
    {
      StatsHeadingShift(s, a, j);
    }
  }

  /** Cutting a suffix that starts at `a` at its first heading keeps the
      stripped span from `a` up to that heading. */
  lemma StatsCutInSuffix(s: string, a: nat, b: nat)
    requires a <= b < |s|
    requires StatsHeadingAt(s, b) && forall i :: a <= i < b ==> !StatsHeadingAt(s, i)
    ensures CutStatisticsSection(s[a..]) == Strip(s[a..b])
  {
    var t := s[a..];
    StatsHeadingShift(s, a, b - a);
    assert StatsHeadingAt(t, b - a);
    NoHeadingBefore(s, a, b);
    StatsCutAt(t, b - a);
    PrefixOfSuffix(s, a, b);
  }

  /** Applied in sequence, the two cuts keep exactly the stripped span from
      the first "I-1" heading up to the first statistics heading after it. */
  lemma BodySpan(s: string, a: nat, b: nat)
    requires a <= b < |s|
    requires TocMarkAt(s, a) && forall i :: 0 <= i < a ==> !TocMarkAt(s, i)
    requires StatsHeadingAt(s, b) && forall i :: a <= i < b ==> !StatsHeadingAt(s, i)
    ensures CutStatisticsSection(RemoveTableOfContents(s)) == Strip(s[a..b])
  {
    TocCutAt(s, a);
    StatsCutInSuffix(s, a, b);
  }

  // ---------------------------------------------------------------------
  // Department bylines: `(\([^)]*(?:조사국|...)[^)]*\))`
  // ---------------------------------------------------------------------

  /** The departments whose byline opens a paragraph, in the source's order. */
  const Departments: seq<string> := [
    "조사국", "금융시장국", "국제국", "금융결제국",
    "경제통계1국", "경제통계2국", "금융안정국", "통화정책국",
    "경제연구원", "외자운용원", "국제협력국", "발권국",
    "금융업무국"
  ]

  /** Some name of `ds` occurs in `t`. */
  predicate MentionsAny(t: string, ds: seq<string>)
    decreases |ds|
  {
    ds != [] && (Contains(t, ds[0]) || MentionsAny(t, ds[1..]))
  }

  /** A byline: "(", then characters other than ")" among which a department
      name occurs, then ")". */
  predicate IsHeader(h: string, ds: seq<string>) {
    |h| >= 2 && h[0] == '(' && h[|h| - 1] == ')'
    && (forall k :: 1 <= k < |h| - 1 ==> h[k] != ')')
    && MentionsAny(h[1..|h| - 1], ds)
  }

  /** End of the byline match starting at `i`, if there is one. Since `[^)]*`
      cannot cross ")", any match from "(" at `i` must end at the first ")"
      after it, and it exists exactly when a department name lies in between. */
  function HeaderAt(s: string, i: nat, ds: seq<string>): (r: Option<nat>)
    ensures r.Some? ==> i + 2 <= r.value <= |s| && IsHeader(s[i..r.value], ds)
  {
    if i < |s| && s[i] == '(' then
      match IndexOf(s, ')', i + 1)
      case None => None
      case Some(c) =>
        if MentionsAny(s[i + 1..c], ds) then
          var h := s[i..c + 1];
          SliceOfSlice(s, i, c + 1, 1, c - i);
          Some(c + 1)
        else None
    else None
  }

  /** The match found at `i` is exactly the byline starting there: a byline
      `s[i..e]` is found, with its end, and nothing else is. */
  lemma HeaderAtExact(s: string, i: nat, e: nat, ds: seq<string>)
    ensures HeaderAt(s, i, ds) == Some(e) <==> i + 2 <= e <= |s| && IsHeader(s[i..e], ds)
  {
    if i + 2 <= e <= |s| && IsHeader(s[i..e], ds) {
      var h := s[i..e];
      var c := e - 1;
      assert s[i] == h[0] && s[c] == h[|h| - 1];
      forall k | i + 1 <= k < c ensures s[k] != ')' {
        assert s[k] == h[k - i];
      }
      IndexOfIs(s, ')', i + 1, c);
      SliceOfSlice(s, i, e, 1, e - i - 1);
      assert h[1..|h| - 1] == s[i + 1..c];
    }
  }

  /** Looking for a byline in a suffix is looking for it in the whole text. */
  lemma HeaderAtShift(s: string, b: nat, pos: nat, ds: seq<string>)
    requires b <= |s| && b <= pos
    ensures HeaderAt(s[b..], pos - b, ds).None? <==> HeaderAt(s, pos, ds).None?
  {
    var j := pos - b;
    assert b + j == pos;
    if HeaderAt(s, b + j, ds).Some? {
      HeaderAtIntoSuffix(s, b, j, HeaderAt(s, b + j, ds).value, ds);
    }
    if HeaderAt(s[b..], j, ds).Some? {
      HeaderAtFromSuffix(s, b, j, HeaderAt(s[b..], j, ds).value, ds);
    }
  }

  lemma HeaderAtIntoSuffix(s: string, b: nat, j: nat, e: nat, ds: seq<string>)
    requires b <= |s| && HeaderAt(s, b + j, ds) == Some(e)
    ensures HeaderAt(s[b..], j, ds) == Some(e - b)
  {
    HeaderAtExact(s, b + j, e, ds);
    SuffixSlice(s, b, j, e - b);
    HeaderAtExact(s[b..], j, e - b, ds);
  }

  lemma HeaderAtFromSuffix(s: string, b: nat, j: nat, e: nat, ds: seq<string>)
    requires b <= |s| && HeaderAt(s[b..], j, ds) == Some(e)
    ensures HeaderAt(s, b + j, ds) == Some(b + e)
  {
    HeaderAtExact(s[b..], j, e, ds);
    SuffixSlice(s, b, j, e);
    HeaderAtExact(s, b + j, b + e, ds);
  }

  /** `re.split` with one capturing group: the text between matches at even
      positions and the matched bylines at odd positions. After a match the
      scan resumes at its end, which is what recursing on the suffix does. */
  function SplitTokens(s: string, ds: seq<string>): (r: seq<string>)
    ensures |r| % 2 == 1
    decreases |s|
  {
    match FirstFrom((i: nat) => HeaderAt(s, i, ds).Some?, 0, |s|)
    case None => [s]
    case Some(a) =>
      var b := HeaderAt(s, a, ds).value;
      [s[..a], s[a..b]] + SplitTokens(s[b..], ds)
  }

  /** Nothing is lost or added by the split: the pieces concatenate back to
      the text. */
  lemma {:induction false} SplitTokensConcat(s: string, ds: seq<string>)
    ensures Concat(SplitTokens(s, ds)) == s
    decreases |s|
  {
    match FirstFrom((i: nat) => HeaderAt(s, i, ds).Some?, 0, |s|)
    case None =>
    case Some(a) =>
      var b := HeaderAt(s, a, ds).value;
      var rest := SplitTokens(s[b..], ds);
      SplitTokensConcat(s[b..], ds);
      var r := [s[..a], s[a..b]] + rest;
      assert r[1..] == [s[a..b]] + rest && r[1..][1..] == rest;
      assert s == s[..a] + (s[a..b] + s[b..]);
  }

  /** The split misses no byline: no match starts anywhere inside an
      even-positioned piece, the text between two found bylines. Together
      with SplitTokensConcat and SplitTokensHeaders this pins the split down:
      the odd pieces are exactly the leftmost successive matches. */
  lemma {:induction false} SplitTokensComplete(s: string, ds: seq<string>, k: nat, pos: nat)
    requires 2 * k < |SplitTokens(s, ds)|
    requires |Concat(SplitTokens(s, ds)[..2 * k])| <= pos < |Concat(SplitTokens(s, ds)[..2 * k + 1])|
    ensures HeaderAt(s, pos, ds).None?
    decreases |s|
  {
    var f := FirstFrom((i: nat) => HeaderAt(s, i, ds).Some?, 0, |s|);
    if f.None? || k == 0 {
      FirstGapComplete(s, ds, k, pos);
    } else {
      var b := HeaderAt(s, f.value, ds).value;
      LaterGapInRest(s, ds, f.value, b, k, pos);
      SplitTokensComplete(s[b..], ds, k - 1, pos - b);
      HeaderAtShift(s, b, pos, ds);
    }
  }

  /** The text before the first byline holds no byline. */
  lemma FirstGapComplete(s: string, ds: seq<string>, k: nat, pos: nat)
    requires FirstFrom((i: nat) => HeaderAt(s, i, ds).Some?, 0, |s|).None? || k == 0
    requires 2 * k < |SplitTokens(s, ds)|
    requires |Concat(SplitTokens(s, ds)[..2 * k])| <= pos < |Concat(SplitTokens(s, ds)[..2 * k + 1])|
    ensures HeaderAt(s, pos, ds).None?
  {
    var r := SplitTokens(s, ds);
    var f := FirstFrom((i: nat) => HeaderAt(s, i, ds).Some?, 0, |s|);
    if f.None? {
      SplitTokensNone(s, ds);
      GapBounds(r, k);
      ConcatSingle(s);
      NoHeaderAnywhere(s, ds, pos);
    } else {
      var a := f.value;
      SplitTokensSome(s, ds, a, HeaderAt(s, a, ds).value);
      GapBounds(r, k);
      ConcatSingle(s[..a]);
      NoHeaderBeforeFirst(s, ds, a, pos);
    }
  }

  /** A later gap of the text is a gap of the rest after the first byline,
      shifted by the byline's end. */
  lemma LaterGapInRest(s: string, ds: seq<string>, a: nat, b: nat, k: nat, pos: nat)
    requires FirstFrom((i: nat) => HeaderAt(s, i, ds).Some?, 0, |s|) == Some(a)
    requires HeaderAt(s, a, ds) == Some(b) && k > 0
    requires 2 * k < |SplitTokens(s, ds)|
    requires |Concat(SplitTokens(s, ds)[..2 * k])| <= pos < |Concat(SplitTokens(s, ds)[..2 * k + 1])|
    ensures b <= pos && b <= |s|
    ensures 2 * (k - 1) < |SplitTokens(s[b..], ds)|
    ensures |Concat(SplitTokens(s[b..], ds)[..2 * (k - 1)])| <= pos - b < |Concat(SplitTokens(s[b..], ds)[..2 * (k - 1) + 1])|
  {
    var rest := SplitTokens(s[b..], ds);
    SplitTokensSome(s, ds, a, b);
    var n := 2 * (k - 1);
    GapAfterTwo([s[..a], s[a..b]], rest, n);
    GapAfterTwo([s[..a], s[a..b]], rest, n + 1);
    ConcatPair(s[..a], s[a..b]);
  }

  lemma SplitTokensNone(s: string, ds: seq<string>)
    requires FirstFrom((i: nat) => HeaderAt(s, i, ds).Some?, 0, |s|).None?
    ensures SplitTokens(s, ds) == [s]
  {
  }

  lemma SplitTokensSome(s: string, ds: seq<string>, a: nat, b: nat)
    requires FirstFrom((i: nat) => HeaderAt(s, i, ds).Some?, 0, |s|) == Some(a)
    requires HeaderAt(s, a, ds) == Some(b)
    ensures a < b <= |s|
    ensures SplitTokens(s, ds) == [s[..a], s[a..b]] + SplitTokens(s[b..], ds)
  {
  }

  /** No byline starts anywhere when none is found. */
  lemma NoHeaderAnywhere(s: string, ds: seq<string>, pos: nat)
    requires FirstFrom((i: nat) => HeaderAt(s, i, ds).Some?, 0, |s|).None? && pos < |s|
    ensures HeaderAt(s, pos, ds).None?
  {
    var p := (i: nat) => HeaderAt(s, i, ds).Some?;
    assert !p(pos);
  }

  /** No byline starts before the first one found. */
  lemma NoHeaderBeforeFirst(s: string, ds: seq<string>, a: nat, pos: nat)
    requires FirstFrom((i: nat) => HeaderAt(s, i, ds).Some?, 0, |s|) == Some(a) && pos < a
    ensures HeaderAt(s, pos, ds).None?
  {
    var p := (i: nat) => HeaderAt(s, i, ds).Some?;
    assert !p(pos);
  }

  /** The first piece spans the text before the first byline. */
  lemma GapBounds(r: seq<string>, k: nat)
    requires k == 0 && 1 <= |r|
    ensures r[..2 * k] == [] && r[..2 * k + 1] == [r[0]]
  {
  }

  /** Past the first gap and byline, the pieces are those of the rest. */
  lemma GapAfterTwo(two: seq<string>, rest: seq<string>, n: nat)
    requires |two| == 2 && n <= |rest|
    ensures Concat((two + rest)[..n + 2]) == Concat(two) + Concat(rest[..n])
  {
    assert (two + rest)[..n + 2] == two + rest[..n];
    ConcatAppend(two, rest[..n]);
  }

  /** Every odd-positioned piece is a byline. */
  lemma {:induction false} SplitTokensHeaders(s: string, ds: seq<string>)
    ensures var r := SplitTokens(s, ds);
            forall k :: 0 <= k < |r| / 2 ==> IsHeader(r[2 * k + 1], ds)
    decreases |s|
  {
    match FirstFrom((i: nat) => HeaderAt(s, i, ds).Some?, 0, |s|)
    case None =>
    case Some(a) =>
      var b := HeaderAt(s, a, ds).value;
      var rest := SplitTokens(s[b..], ds);
      SplitTokensHeaders(s[b..], ds);
      var r := [s[..a], s[a..b]] + rest;
      forall k | 0 <= k < |r| / 2
        ensures IsHeader(r[2 * k + 1], ds)
      {
        if k > 0 {
          assert r[2 * k + 1] == rest[2 * (k - 1) + 1];
        }
      }
  }

  /** One paragraph of the `while` loop: the stripped byline, a space and the
      stripped text that follows it, stripped again. */
  function Paragraph(header: string, content: string): string
  {
    Strip(Strip(header) + " " + Strip(content))
  }

  /** The `while` loop over i = 1, 3, 5, ...: the `j`-th paragraph pairs
      byline `tokens[2j + 1]` with the text after it (the empty string when
      the byline is the last token). */
  function HeaderParagraphs(tokens: seq<string>): (ps: seq<string>)
    ensures |ps| == |tokens| / 2
  {
    seq(|tokens| / 2, j requires 0 <= j < |tokens| / 2 => ParagraphAt(tokens, j))
  }

  /** The text after byline `tokens[2j + 1]`, empty when it is the last token. */
  function Following(tokens: seq<string>, j: nat): string
    requires j < |tokens| / 2
  {
    if 2 * j + 2 < |tokens| then tokens[2 * j + 2] else []
  }

  function ParagraphAt(tokens: seq<string>, j: nat): string
    requires j < |tokens| / 2
  {
    Paragraph(tokens[2 * j + 1], Following(tokens, j))
  }

  /** The elements that are not blank, in order. */
  function NonBlank(xs: seq<string>): (r: seq<string>)
    ensures |r| <= |xs|
    ensures forall p | p in r :: Strip(p) != []
  {
    if xs == [] then []
    else (if Strip(xs[0]) != [] then [xs[0]] else []) + NonBlank(xs[1..])
  }

  /** Paragraph assembly from the split: text before the first byline is
      prefixed to the first paragraph, and is lost when there is none. */
  function AssembleParagraphs(tokens: seq<string>): seq<string>
    requires tokens != []
  {
    NonBlank(MergePreText(tokens))
  }

  /** The loop's paragraphs with the stripped pre-text, when there is any,
      put in front of the first one. */
  function MergePreText(tokens: seq<string>): seq<string>
    requires tokens != []
  {
    var paras := HeaderParagraphs(tokens);
    var pre := Strip(tokens[0]);
    if pre != [] && paras != [] then paras[0 := Strip(pre + " " + paras[0])] else paras
  }

  /** `split_paragraphs_by_roman`: despite the name it splits on department
      bylines. */
  function SplitParagraphsByAuthor(text: string): seq<string>
  {
    AssembleParagraphs(SplitTokens(text, Departments))
  }

  predicate OddFramed(tokens: seq<string>) {
    forall k :: 0 <= k < |tokens| / 2 ==> Framed(tokens[2 * k + 1])
  }

  lemma HeaderFramed(h: string, ds: seq<string>)
    requires IsHeader(h, ds)
    ensures Framed(h)
  {
  }

  /** A framed word followed by anything keeps a framed prefix after `Strip`. */
  lemma FramedPrefix(h: string, t: string)
    requires Framed(h)
    ensures Framed(Strip(h + t)) && h <= Strip(h + t)
  {
    StripKeepsFramedPrefix(h, t);
  }

  /** A paragraph starts with its byline. */
  lemma ParagraphHead(header: string, content: string)
    requires Framed(header)
    ensures Framed(Paragraph(header, content)) && header <= Paragraph(header, content)
  {
    StripStripped(header);
    var c := Strip(content);
    assert header + " " + c == header + (" " + c);
    FramedPrefix(header, " " + c);
  }

  lemma OddFramedAt(tokens: seq<string>, j: nat)
    requires OddFramed(tokens) && j < |tokens| / 2
    ensures Framed(tokens[2 * j + 1])
  {
  }

  lemma HeaderParagraphAt(tokens: seq<string>, j: nat)
    requires j < |tokens| / 2
    ensures HeaderParagraphs(tokens)[j] == Paragraph(tokens[2 * j + 1], Following(tokens, j))
  {
    assert HeaderParagraphs(tokens)[j] == ParagraphAt(tokens, j);
  }

  /** Every paragraph the loop builds starts with its byline. */
  lemma HeaderParagraphsShape(tokens: seq<string>)
    requires OddFramed(tokens)
    ensures var ps := HeaderParagraphs(tokens);
            forall j :: 0 <= j < |ps| ==> Framed(ps[j]) && tokens[2 * j + 1] <= ps[j]
  {
    var ps := HeaderParagraphs(tokens);
    forall j | 0 <= j < |ps|
      ensures Framed(ps[j]) && tokens[2 * j + 1] <= ps[j]
    {
      OddFramedAt(tokens, j);
      HeaderParagraphAt(tokens, j);
      ParagraphHead(tokens[2 * j + 1], Following(tokens, j));
    }
  }

  lemma {:induction false} NonBlankKeepsAll(xs: seq<string>)
    requires forall k :: 0 <= k < |xs| ==> Framed(xs[k])
    ensures NonBlank(xs) == xs
  {
    if xs != [] {
      assert Strip(xs[0]) != [] by {
        assert !IsSpace(xs[0][0]);
      }
      NonBlankKeepsAll(xs[1..]);
    }
  }

  /** The pre-text merged into a paragraph that starts with a framed byline. */
  lemma PrefixedFirst(pre: string, h: string, p: string)
    requires Framed(pre) && Framed(h) && h <= p
    ensures Framed(Strip(pre + " " + p)) && pre + " " + h <= Strip(pre + " " + p)
  {
    var q := pre + " " + h;
    var whole := pre + " " + p;
    assert whole == q + whole[|q|..];
    assert Framed(q) by {
      assert q[0] == pre[0];
      assert q[|q| - 1] == h[|h| - 1];
    }
    FramedPrefix(q, whole[|q|..]);
  }

  /** Assembly yields one paragraph per byline, in order: every paragraph but
      the first starts with its byline, and the first starts with the
      stripped pre-text (if any) and a space before its byline. Each
      paragraph is its byline and the text that follows it, and the first
      also carries the stripped pre-text in front. */
  lemma AssembleShape(tokens: seq<string>)
    requires |tokens| % 2 == 1 && OddFramed(tokens)
    ensures var r := AssembleParagraphs(tokens);
            |r| == |tokens| / 2
            && (forall k :: 1 <= k < |r| ==> tokens[2 * k + 1] <= r[k])
            && (|r| > 0 && Strip(tokens[0]) == [] ==> tokens[1] <= r[0])
            && (|r| > 0 && Strip(tokens[0]) != [] ==> Strip(tokens[0]) + " " + tokens[1] <= r[0])
    ensures var r := AssembleParagraphs(tokens);
            (forall k :: 1 <= k < |r| ==> r[k] == Paragraph(tokens[2 * k + 1], Following(tokens, k)))
            && (|r| > 0 ==> r[0] == FirstParagraph(tokens))
  {
    MergePreTextShape(tokens);
    NonBlankKeepsAll(MergePreText(tokens));
    MergePreTextContent(tokens);
  }

  /** The first paragraph: the first byline with its text, behind the
      stripped pre-text when there is any. */
  function FirstParagraph(tokens: seq<string>): string
    requires |tokens| / 2 > 0
  {
    var pre := Strip(tokens[0]);
    if pre == [] then Paragraph(tokens[1], Following(tokens, 0))
    else Strip(pre + " " + Paragraph(tokens[1], Following(tokens, 0)))
  }

  /** Merging the pre-text changes only the first paragraph, which takes the
      pre-text in front. */
  lemma MergePreTextContent(tokens: seq<string>)
    requires tokens != []
    ensures var m := MergePreText(tokens);
            |m| == |tokens| / 2
            && (forall k :: 1 <= k < |m| ==> m[k] == Paragraph(tokens[2 * k + 1], Following(tokens, k)))
            && (|m| > 0 ==> m[0] == FirstParagraph(tokens))
  {
    var ps := HeaderParagraphs(tokens);
    forall k | 0 <= k < |ps| ensures ps[k] == Paragraph(tokens[2 * k + 1], Following(tokens, k)) {
      HeaderParagraphAt(tokens, k);
    }
  }

  /** Merging the pre-text keeps one framed paragraph per byline, each
      starting with its byline, the first after the pre-text. */
  lemma MergePreTextShape(tokens: seq<string>)
    requires |tokens| % 2 == 1 && OddFramed(tokens)
    ensures var m := MergePreText(tokens);
            |m| == |tokens| / 2
            && (forall k :: 0 <= k < |m| ==> Framed(m[k]))
            && (forall k :: 1 <= k < |m| ==> tokens[2 * k + 1] <= m[k])
            && (|m| > 0 && Strip(tokens[0]) == [] ==> tokens[1] <= m[0])
            && (|m| > 0 && Strip(tokens[0]) != [] ==> Strip(tokens[0]) + " " + tokens[1] <= m[0])
  {
    HeaderParagraphsShape(tokens);
    if Strip(tokens[0]) != [] && HeaderParagraphs(tokens) != [] {
      MergedFirst(tokens);
    } else {
      assert MergePreText(tokens) == HeaderParagraphs(tokens);
    }
  }

  /** With pre-text, only the first paragraph changes. */
  lemma MergedFirst(tokens: seq<string>)
    requires |tokens| % 2 == 1 && Strip(tokens[0]) != [] && OddFramed(tokens)
    requires var ps := HeaderParagraphs(tokens);
             ps != [] && forall j :: 0 <= j < |ps| ==> Framed(ps[j]) && tokens[2 * j + 1] <= ps[j]
    ensures var m := MergePreText(tokens);
            var ps := HeaderParagraphs(tokens);
            |m| == |ps| && Framed(m[0]) && Strip(tokens[0]) + " " + tokens[1] <= m[0]
            && forall k :: 1 <= k < |m| ==> m[k] == ps[k]
  {
    var ps := HeaderParagraphs(tokens);
    var pre := Strip(tokens[0]);
    OddFramedAt(tokens, 0);
    PrefixedFirst(pre, tokens[1], ps[0]);
  }

  /** The byline split of a text yields one paragraph per byline match, each
      (after the first) starting with its byline and holding the text up to
      the next byline; the first also carries the text before the first
      byline. */
  lemma SplitByAuthorShape(text: string)
    ensures var tokens := SplitTokens(text, Departments);
            var r := SplitParagraphsByAuthor(text);
            |r| == |tokens| / 2
            && (forall k :: 1 <= k < |r| ==> IsHeader(tokens[2 * k + 1], Departments) && tokens[2 * k + 1] <= r[k])
            && (|r| > 0 && Strip(tokens[0]) == [] ==> tokens[1] <= r[0])
            && (|r| > 0 && Strip(tokens[0]) != [] ==> Strip(tokens[0]) + " " + tokens[1] <= r[0])
    ensures var tokens := SplitTokens(text, Departments);
            var r := SplitParagraphsByAuthor(text);
            (forall k :: 1 <= k < |r| ==> r[k] == Paragraph(tokens[2 * k + 1], Following(tokens, k)))
            && (|r| > 0 ==> r[0] == FirstParagraph(tokens))
  {
    var tokens := SplitTokens(text, Departments);
    SplitTokensHeaders(text, Departments);
    forall k | 0 <= k < |tokens| / 2
      ensures Framed(tokens[2 * k + 1])
    {
      HeaderFramed(tokens[2 * k + 1], Departments);
    }
    AssembleShape(tokens);
  }

  /** Without any byline the whole text, pre-text included, is discarded. */
  lemma NoHeaderNoParagraph(text: string)
    requires forall i :: 0 <= i < |text| ==> HeaderAt(text, i, Departments).None?
    ensures SplitParagraphsByAuthor(text) == []
  {
    FirstFromNone((i: nat) => HeaderAt(text, i, Departments).Some?, 0, |text|);
    assert SplitTokens(text, Departments) == [text];
  }
}
