/**
 Choosing the PDF to fetch from the listing of the central bank's page, and
 the rate-decision job's guard against processing a report twice. The page
 itself is fetched and parsed elsewhere: the listing arrives as a sequence of
 (file name, address) pairs in page order.
 */
module Download {
  import opened Wrappers
  import opened Text
  import opened Decimal
  import Calendar
  import Requests
  import Pipeline
  import Results

  datatype PdfLink = PdfLink(filename: string, url: string)

  /** Position of the first link whose file name contains `needle`. */
  function FirstNaming(links: seq<PdfLink>, needle: string, from: nat): (r: Option<nat>)
    requires from <= |links|
    ensures r.Some? ==> from <= r.value < |links| && Contains(links[r.value].filename, needle)
    ensures r.Some? ==> forall j :: from <= j < r.value ==> !Contains(links[j].filename, needle)
    ensures r.None? ==> forall j :: from <= j < |links| ==> !Contains(links[j].filename, needle)
    decreases |links| - from
  {
    if from == |links| then None
    else if Contains(links[from].filename, needle) then Some(from)
    else FirstNaming(links, needle, from + 1)
  }

  // ---------------------------------------------------------------------
  // Issue report
  // ---------------------------------------------------------------------

  /** `f"({year}.{month}월"`: the report's title names year and month. */
  function IssueNeedle(year: int, month: int): string
  {
    "(" + Str(year) + "." + Str(month) + "월"
  }

  /** The issue job's `should_download_today`: the first link naming the
      report month, which counts from a week after each release. */
  function ShouldDownloadIssue(today: Calendar.Moment, links: seq<PdfLink>): (r: Option<PdfLink>)
    requires Calendar.Valid(today.date)
  {
    match Calendar.TargetReportMonth(today, Calendar.IssueOffset)
    case None => None
    case Some(m) =>
      match FirstNaming(links, IssueNeedle(today.date.year, m), 0)
      case None => None
      case Some(i) => Some(links[i])
  }

  /** There is a link to fetch exactly when there is a report month and some
      file name names it; the link is then the first such in page order. */
  lemma IssueDownloadFacts(today: Calendar.Moment, links: seq<PdfLink>)
    requires Calendar.Valid(today.date)
    ensures Calendar.TargetReportMonth(today, Calendar.IssueOffset).None? ==> ShouldDownloadIssue(today, links).None?
    ensures Calendar.TargetReportMonth(today, Calendar.IssueOffset).Some? ==>
              var needle := IssueNeedle(today.date.year, Calendar.TargetReportMonth(today, Calendar.IssueOffset).value);
              (ShouldDownloadIssue(today, links).None? <==> forall j :: 0 <= j < |links| ==> !Contains(links[j].filename, needle))
              && (ShouldDownloadIssue(today, links).Some? ==>
                    exists i :: 0 <= i < |links| && ShouldDownloadIssue(today, links) == Some(links[i])
                      && Contains(links[i].filename, needle)
                      && forall j :: 0 <= j < i ==> !Contains(links[j].filename, needle))
  {
    Calendar.TargetInReportMonths(today, Calendar.IssueOffset);
  }

  /** A string has one leading run of digits. */
  lemma DigitRunEnd(s: string, i: nat, j: nat)
    requires i < |s| && j < |s|
    requires forall k :: 0 <= k < i ==> IsDigit(s[k])
    requires forall k :: 0 <= k < j ==> IsDigit(s[k])
    requires !IsDigit(s[i]) && !IsDigit(s[j])
    ensures i == j
  {
  }

  /** Digit runs followed by the same mark line up. */
  lemma DigitsBeforeMark(x: string, y: string, rest: string)
    requires AllDigits(x) && AllDigits(y)
    requires HasAt(y + "월" + rest, 0, x + "월")
    ensures x == y
  {
    var a := x + "월";
    var b := y + "월" + rest;
    assert b[..|a|] == a;
    forall k | 0 <= k <= |x|
      ensures b[k] == a[k]
    {
      assert b[..|a|][k] == b[k];
    }
    DigitRunEnd(b, |x|, |y|);
    forall k | 0 <= k < |x|
      ensures x[k] == y[k]
    {
      assert a[k] == x[k] && b[k] == y[k];
    }
  }

  /** A common prefix can be dropped from both sides of a match. */
  lemma HasAtDropPrefix(p: string, a: string, b: string)
    requires HasAt(p + b, 0, p + a)
    ensures HasAt(b, 0, a)
  {
    assert |a| <= |b|;
    forall k | 0 <= k < |a| ensures b[k] == a[k] {
      assert (p + b)[..|p + a|][|p| + k] == (p + a)[|p| + k];
    }
    assert b[..|a|] == a;
  }

  /** The title of one month never matches the needle of another: "(2025.1월"
      does not occur at the start of "(2025.10월". */
  lemma IssueNeedleDistinguishesMonths(year: int, m1: nat, m2: nat, rest: string)
    requires HasAt(IssueNeedle(year, m2) + rest, 0, IssueNeedle(year, m1))
    ensures m1 == m2
  {
    var p := "(" + Str(year) + ".";
    NeedleParts(year, m1, p);
    NeedlePartsRest(year, m2, rest, p);
    HasAtDropPrefix(p, Dec(m1) + "월", Dec(m2) + "월" + rest);
    DigitsBeforeMark(Dec(m1), Dec(m2), rest);
    DecInjective(m1, m2);
  }

  lemma NeedleParts(year: int, m: nat, p: string)
    requires p == "(" + Str(year) + "."
    ensures IssueNeedle(year, m) == p + (Dec(m) + "월")
  {
  }

  lemma NeedlePartsRest(year: int, m: nat, rest: string, p: string)
    requires p == "(" + Str(year) + "."
    ensures IssueNeedle(year, m) + rest == p + (Dec(m) + "월" + rest)
  {
    NeedleParts(year, m, p);
    AppendAssoc(p, Dec(m) + "월", rest);
  }

  lemma AppendAssoc(a: string, b: string, c: string)
    ensures (a + b) + c == a + (b + c)
  {
  }

  /** Two month needles found at the same position of a file name name the
      same month: a name such as "(2025.10월" cannot be read as "(2025.1월". */
  lemma IssueNeedlesAtSamePlace(f: string, i: nat, year: int, m1: nat, m2: nat)
    requires HasAt(f, i, IssueNeedle(year, m1)) && HasAt(f, i, IssueNeedle(year, m2))
    ensures m1 == m2
  {
    var a := IssueNeedle(year, m1);
    var b := IssueNeedle(year, m2);
    if |a| <= |b| {
      ShorterIsPrefix(f, i, a, b);
      IssueNeedleDistinguishesMonths(year, m1, m2, []);
    } else {
      ShorterIsPrefix(f, i, b, a);
      IssueNeedleDistinguishesMonths(year, m2, m1, []);
    }
  }

  /** Of two strings found at the same place, the shorter starts the longer. */
  lemma ShorterIsPrefix(f: string, i: nat, a: string, b: string)
    requires HasAt(f, i, a) && HasAt(f, i, b) && |a| <= |b|
    ensures HasAt(b + [], 0, a)
  {
    assert b + [] == b;
    forall k | 0 <= k < |a| ensures b[k] == a[k] {
      assert f[i..i + |b|][k] == f[i + k] == f[i..i + |a|][k];
    }
    assert b[..|a|] == a;
  }

  /** Different numbers are written differently. */
  lemma DecInjective(m1: nat, m2: nat)
    requires Dec(m1) == Dec(m2)
    ensures m1 == m2
  {
    ValueOfDec(m1);
    ValueOfDec(m2);
  }

  // ---------------------------------------------------------------------
  // Rate decision
  // ---------------------------------------------------------------------

  /** `f"{year % 100:02d}{month:02d}"`. */
  function ShortCode(year: nat, month: int): string
  {
    Pad(year % 100, 2) + Format2(month)
  }

  /** For a calendar month the short code is four digits: the last two of the
      year, then the month. */
  lemma ShortCodeDigits(year: nat, month: nat)
    requires 1 <= month <= 12
    ensures |ShortCode(year, month)| == 4 && AllDigits(ShortCode(year, month))
    ensures ValueOf(ShortCode(year, month)[..2]) == year % 100
    ensures ValueOf(ShortCode(year, month)[2..]) == month
  {
    var s := ShortCode(year, month);
    PadValue(year % 100, 2);
    PadValue(month, 2);
    DecWidth(year % 100, 2);
    DecWidth(month, 2);
    assert s[..2] == Pad(year % 100, 2) && s[2..] == Pad(month, 2);
  }

  /** A found decision PDF with the period code it belongs to. */
  datatype DecisionPdf = DecisionPdf(link: PdfLink, code: string)

  /** The decision job's `should_download_today`: the first link whose file
      name contains the short code, tagged with the "YYYY-MM" code. */
  function ShouldDownloadDecision(today: Calendar.Moment, links: seq<PdfLink>): (r: Option<DecisionPdf>)
    requires Calendar.Valid(today.date)
  {
    match Calendar.TargetReportMonth(today, 0)
    case None => None
    case Some(m) =>
      if m == 0 then None  // `if not month`
      else
        match FirstNaming(links, ShortCode(today.date.year, m), 0)
        case None => None
        case Some(i) => Some(DecisionPdf(links[i], Calendar.PeriodCode(today.date.year, m)))
  }

  /** The decision PDF is the first link naming the short code, and it carries
      the period code of the report month. */
  lemma DecisionDownloadFacts(today: Calendar.Moment, links: seq<PdfLink>)
    requires Calendar.Valid(today.date)
    ensures Calendar.TargetReportMonth(today, 0).None? ==> ShouldDownloadDecision(today, links).None?
    ensures Calendar.TargetReportMonth(today, 0).Some? ==>
              var m := Calendar.TargetReportMonth(today, 0).value;
              var sc := ShortCode(today.date.year, m);
              (ShouldDownloadDecision(today, links).None? <==> forall j :: 0 <= j < |links| ==> !Contains(links[j].filename, sc))
              && (ShouldDownloadDecision(today, links).Some? ==>
                    ShouldDownloadDecision(today, links).value.code == Calendar.PeriodCode(today.date.year, m)
                    && exists i :: 0 <= i < |links| && ShouldDownloadDecision(today, links).value.link == links[i]
                         && Contains(links[i].filename, sc)
                         && forall j :: 0 <= j < i ==> !Contains(links[j].filename, sc))
  {
    Calendar.TargetInReportMonths(today, 0);
  }

  /** The outcome of the decision job's `run`. */
  datatype DecisionOutcome =
    | NoPdfToday
    | AlreadyProcessed(code: string)
    | Submitted(code: string, codeType: string, requests: seq<Requests.Request>, characters: nat)

  const DecisionKind: string := "bok-decision"

  /** The decision job's `run`. `existing` holds the job-table keys
      (`code#type`) already recorded; `textOf` stands for downloading the PDF and extracting its text.
      A submission records a pending job under the returned job-table key; `characters`
      is the length of the extracted document, which the job reports under the
      name "paragraphs". */
  function DecisionRun(today: Calendar.Moment, links: seq<PdfLink>, existing: set<string>,
                       textOf: PdfLink -> string): (r: DecisionOutcome)
    requires Calendar.Valid(today.date)
  {
    match ShouldDownloadDecision(today, links)
    case None => NoPdfToday
    case Some(pdf) =>
      if Results.CodeType(pdf.code, DecisionKind) in existing then AlreadyProcessed(pdf.code)
      else
        var document := Pipeline.ExtractParagraphs(textOf(pdf.link), Pipeline.Flat).text;
        Submitted(pdf.code, Results.CodeType(pdf.code, DecisionKind), Requests.DecisionRequests(document), |document|)
  }

  /** Nothing is submitted without a PDF, nothing twice for the same period,
      and a submission is the single request for the extracted document,
      recorded under a job-table key not already taken. */
  lemma DecisionRunGuards(today: Calendar.Moment, links: seq<PdfLink>, existing: set<string>,
                          textOf: PdfLink -> string)
    requires Calendar.Valid(today.date)
    ensures DecisionRun(today, links, existing, textOf) == NoPdfToday
            <==> ShouldDownloadDecision(today, links).None?
    ensures DecisionRun(today, links, existing, textOf).AlreadyProcessed?
            <==> ShouldDownloadDecision(today, links).Some?
                 && Results.CodeType(ShouldDownloadDecision(today, links).value.code, DecisionKind) in existing
    ensures DecisionRun(today, links, existing, textOf).AlreadyProcessed? ==>
              DecisionRun(today, links, existing, textOf).code == ShouldDownloadDecision(today, links).value.code
    ensures DecisionRun(today, links, existing, textOf).Submitted? ==>
              var out := DecisionRun(today, links, existing, textOf);
              var pdf := ShouldDownloadDecision(today, links).value;
              out.code == pdf.code && out.codeType == Results.CodeType(pdf.code, DecisionKind)
              && out.codeType !in existing
              && out.requests == Requests.DecisionRequests(Pipeline.ExtractParagraphs(textOf(pdf.link), Pipeline.Flat).text)
  {
  }
}
