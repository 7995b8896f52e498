/**
 Proleptic Gregorian dates as Python's `datetime.date` handles them, and the
 monetary-policy release calendar: which report month is the latest one
 available on a given day, and its "YYYY-MM" period code.
 */
module Calendar {
  import opened Wrappers
  import opened Decimal
  import Sorting

  datatype Date = Date(year: int, month: int, day: int)

  predicate IsLeap(y: int) {
    y % 4 == 0 && (y % 100 != 0 || y % 400 == 0)
  }

  function DaysInMonth(y: int, m: int): int
    requires 1 <= m <= 12
  {
    if m == 2 then (if IsLeap(y) then 29 else 28)
    else if m == 4 || m == 6 || m == 9 || m == 11 then 30
    else 31
  }

  /** Month and day name a day of the calendar (any year). */
  predicate InCalendar(d: Date) {
    1 <= d.month <= 12 && 1 <= d.day <= DaysInMonth(d.year, d.month)
  }

  /** A date `datetime.date` accepts (years 1 to 9999). */
  predicate Valid(d: Date) {
    1 <= d.year <= 9999 && InCalendar(d)
  }

  /** Chronological order: compare year, then month, then day. */
  predicate Le(a: Date, b: Date) {
    a.year < b.year || (a.year == b.year && (a.month < b.month || (a.month == b.month && a.day <= b.day)))
  }

  predicate Lt(a: Date, b: Date) {
    Le(a, b) && a != b
  }

  lemma LeTotal(a: Date, b: Date)
    ensures Le(a, b) || Le(b, a)
    ensures Le(a, b) && Le(b, a) ==> a == b
  {
  }

  lemma LeTransitive(a: Date, b: Date, c: Date)
    requires Le(a, b) && Le(b, c)
    ensures Le(a, c)
  {
  }

  /** The following day (`d + timedelta(days=1)`). */
  function NextDay(d: Date): Date
    requires InCalendar(d)
  {
    if d.day < DaysInMonth(d.year, d.month) then Date(d.year, d.month, d.day + 1)
    else if d.month < 12 then Date(d.year, d.month + 1, 1)
    else Date(d.year + 1, 1, 1)
  }

  /** The next day is a later day of the calendar. */
  lemma NextDayLater(d: Date)
    requires InCalendar(d)
    ensures InCalendar(NextDay(d)) && Lt(d, NextDay(d))
  {
  }

  /** Stepping a day keeps the order of two days. */
  lemma NextDayMonotone(a: Date, b: Date)
    requires InCalendar(a) && InCalendar(b) && Le(a, b)
    ensures Le(NextDay(a), NextDay(b))
  {
  }

  /** `d + timedelta(days=n)`. */
  function AddDays(d: Date, n: nat): (r: Date)
    requires InCalendar(d)
    ensures InCalendar(r)
    decreases n
  {
    if n == 0 then d
    else
      var p := AddDays(d, n - 1);
      NextDayLater(p);
      NextDay(p)
  }

  /** Adding days never moves backwards. */
  lemma {:induction false} AddDaysLater(d: Date, n: nat)
    requires InCalendar(d)
    ensures Le(d, AddDays(d, n))
    decreases n
  {
    if n > 0 {
      AddDaysLater(d, n - 1);
      NextDayLater(AddDays(d, n - 1));
    }
  }

  /** Adding the same number of days keeps the order of two days. */
  lemma {:induction false} AddDaysMonotone(a: Date, b: Date, n: nat)
    requires InCalendar(a) && InCalendar(b) && Le(a, b)
    ensures Le(AddDays(a, n), AddDays(b, n))
    decreases n
  {
    if n > 0 {
      AddDaysMonotone(a, b, n - 1);
      NextDayMonotone(AddDays(a, n - 1), AddDays(b, n - 1));
    }
  }

  /** Reference definition of a shift by at most 28 days: it stays in the
      month or moves into the next one (or into January of the next year). */
  function ShiftDays(d: Date, n: nat): Date
    requires InCalendar(d) && n <= 28
  {
    var dim := DaysInMonth(d.year, d.month);
    if d.day + n <= dim then Date(d.year, d.month, d.day + n)
    else if d.month < 12 then Date(d.year, d.month + 1, d.day + n - dim)
    else Date(d.year + 1, 1, d.day + n - dim)
  }

  /** Stepping one day at a time agrees with the closed form. */
  lemma {:induction false} AddDaysClosedForm(d: Date, n: nat)
    requires InCalendar(d) && n <= 28
    ensures AddDays(d, n) == ShiftDays(d, n)
    decreases n
  {
    if n > 0 {
      AddDaysClosedForm(d, n - 1);
    }
  }

  // ---------------------------------------------------------------------
  // Day numbers and weekdays
  // ---------------------------------------------------------------------

  /** Days in the months of year `y` before month `m`. */
  function DaysBeforeMonth(y: int, m: int): int
    requires 1 <= m <= 13
  {
    [0, 31, 59, 90, 120, 151, 181, 212, 243, 273, 304, 334, 365][m - 1]
    + (if m > 2 && IsLeap(y) then 1 else 0)
  }

  /** The cumulative table adds up the month lengths. */
  lemma DaysBeforeMonthStep(y: int, m: int)
    requires 1 <= m <= 12
    ensures DaysBeforeMonth(y, m + 1) == DaysBeforeMonth(y, m) + DaysInMonth(y, m)
  {
  }

  /** Days in the years before year `y`, counting from year 1. */
  function DaysBeforeYear(y: int): int
    requires y >= 1
  {
    var p := y - 1;
    365 * p + p / 4 - p / 100 + p / 400
  }

  /** A year contributes 365 days, one more when it is a leap year. */
  lemma YearStep(y: int)
    requires y >= 1
    ensures DaysBeforeYear(y + 1) == DaysBeforeYear(y) + DaysBeforeMonth(y, 13)
  {
    var p := y - 1;
    assert (p + 1) / 4 == p / 4 + (if y % 4 == 0 then 1 else 0);
    assert (p + 1) / 100 == p / 100 + (if y % 100 == 0 then 1 else 0);
    assert (p + 1) / 400 == p / 400 + (if y % 400 == 0 then 1 else 0);
  }

  /** `date.toordinal()`: 1 for 0001-01-01. */
  function Ordinal(d: Date): int
    requires d.year >= 1 && InCalendar(d)
  {
    DaysBeforeYear(d.year) + DaysBeforeMonth(d.year, d.month) + d.day
  }

  /** Consecutive days have consecutive day numbers. */
  lemma OrdinalNextDay(d: Date)
    requires d.year >= 1 && InCalendar(d)
    ensures NextDay(d).year >= 1 && InCalendar(NextDay(d))
    ensures Ordinal(NextDay(d)) == Ordinal(d) + 1
  {
    NextDayLater(d);
    if d.day == DaysInMonth(d.year, d.month) {
      if d.month == 12 {
        YearStep(d.year);
      } else {
        DaysBeforeMonthStep(d.year, d.month);
      }
    }
  }

  /** `date.weekday()`: Monday is 0 and Sunday is 6; 0001-01-01 was a Monday. */
  function Weekday(d: Date): (w: int)
    requires d.year >= 1 && InCalendar(d)
    ensures 0 <= w < 7
  {
    (Ordinal(d) + 6) % 7
  }

  /** The weekday advances by one every day. */
  lemma WeekdayNextDay(d: Date)
    requires d.year >= 1 && InCalendar(d)
    ensures NextDay(d).year >= 1 && InCalendar(NextDay(d))
    ensures Weekday(NextDay(d)) == (Weekday(d) + 1) % 7
  {
    OrdinalNextDay(d);
    NextDayLater(d);
    ModSeven(Ordinal(d) + 6);
  }

  /** Counting one further moves the remainder modulo 7 one step on. */
  lemma ModSeven(x: int)
    ensures (x + 1) % 7 == (x % 7 + 1) % 7
  {
    var q, r := x / 7, x % 7;
    assert x == 7 * q + r;
    if r < 6 {
      assert x + 1 == 7 * q + (r + 1);
    } else {
      assert x + 1 == 7 * (q + 1) + 0;
    }
  }

  /** 1 January 2024 was a Monday. */
  lemma WeekdayExample()
    ensures Weekday(Date(2024, 1, 1)) == 0
  {
  }

  // ---------------------------------------------------------------------
  // Moments: `datetime` values
  // ---------------------------------------------------------------------

  /** A `datetime`: the date and the microseconds elapsed since midnight. */
  datatype Moment = Moment(date: Date, micros: nat)

  /** `datetime(y, m, d)`: midnight. */
  function Midnight(d: Date): Moment {
    Moment(d, 0)
  }

  /** `a >= b` on `datetime` values. */
  predicate AtOrAfter(a: Moment, b: Moment) {
    Lt(b.date, a.date) || (a.date == b.date && a.micros >= b.micros)
  }

  /** Being at or after midnight of a day depends on the date alone. */
  lemma AtOrAfterMidnight(t: Moment, d: Date)
    ensures AtOrAfter(t, Midnight(d)) <==> Le(d, t.date)
  {
  }

  // ---------------------------------------------------------------------
  // The release calendar
  // ---------------------------------------------------------------------

  /** `PUBLISH_DATES`: the eight (month, day) release dates of a year. */
  const PublishDates: seq<(int, int)> :=
    [(1, 16), (2, 25), (4, 17), (5, 29), (7, 10), (8, 28), (10, 23), (11, 27)]

  /** The months the calendar can name. */
  const ReportMonths: set<int> := {1, 2, 4, 5, 7, 8, 10, 11}

  /** The issue job waits a week after each release; the other two jobs count
      from the release day itself. */
  const IssueOffset: nat := 7

  datatype Release = Release(month: int, available: Date)

  lemma PublishDatesInCalendar(y: int, k: nat)
    requires k < |PublishDates|
    ensures InCalendar(Date(y, PublishDates[k].0, PublishDates[k].1))
  {
  }

  /** The day from which the `k`-th release of `year` counts as available. */
  function Available(year: int, offset: nat, k: nat): Date
    requires k < |PublishDates|
  {
    PublishDatesInCalendar(year, k);
    AddDays(Date(year, PublishDates[k].0, PublishDates[k].1), offset)
  }

  /** `release_days` before sorting: every publish date of `year` shifted by
      `offset` days. */
  function ReleaseDays(year: int, offset: nat): (r: seq<Release>)
    ensures |r| == |PublishDates|
  {
    seq(|PublishDates|, k requires 0 <= k < |PublishDates| =>
      Release(PublishDates[k].0, Available(year, offset, k)))
  }

  /** The sort key of `release_days.sort(key=lambda x: x[1])`. */
  function ByAvailable(): (Release, Release) -> bool {
    (a: Release, b: Release) => Le(a.available, b.available)
  }

  /** The release days come out in calendar order, so sorting them changes
      nothing. */
  lemma ReleaseDaysSorted(year: int, offset: nat)
    ensures Sorting.SortedBy(ReleaseDays(year, offset), ByAvailable())
    ensures Sorting.SortBy(ReleaseDays(year, offset), ByAvailable()) == ReleaseDays(year, offset)
  {
    var r := ReleaseDays(year, offset);
    forall i | 0 <= i < |r| - 1
      ensures Le(r[i].available, r[i + 1].available)
    {
      PublishDatesInCalendar(year, i);
      PublishDatesInCalendar(year, i + 1);
      AddDaysMonotone(Date(year, PublishDates[i].0, PublishDates[i].1),
                      Date(year, PublishDates[i + 1].0, PublishDates[i + 1].1), offset);
    }
    Sorting.SortByKeepsSorted(r, ByAvailable());
  }

  /** The loop of `get_target_report_month`: remember the month of every
      release already available, stop at the first one that is not. */
  function Scan(rs: seq<Release>, today: Moment, target: Option<int>): Option<int>
  {
    if rs == [] then target
    else if AtOrAfter(today, Midnight(rs[0].available)) then Scan(rs[1..], today, Some(rs[0].month))
    else target
  }

  /** `get_target_report_month(today)` with the job's availability offset. */
  function TargetReportMonth(today: Moment, offset: nat): Option<int>
  {
    Scan(Sorting.SortBy(ReleaseDays(today.date.year, offset), ByAvailable()), today, None)
  }

  /** The scan answers the month of the last release of the available
      prefix, or its starting value when the first release is not available. */
  lemma {:induction false} ScanPrefix(rs: seq<Release>, today: Moment, target: Option<int>, k: nat)
    requires k < |rs|
    requires forall j :: 0 <= j <= k ==> Le(rs[j].available, today.date)
    requires k + 1 == |rs| || !Le(rs[k + 1].available, today.date)
    ensures Scan(rs, today, target) == Some(rs[k].month)
    decreases k
  {
    AtOrAfterMidnight(today, rs[0].available);
    if k == 0 {
      if |rs| > 1 {
        AtOrAfterMidnight(today, rs[1].available);
        assert rs[1..][0] == rs[1];
      }
    } else {
      ScanPrefix(rs[1..], today, Some(rs[0].month), k - 1);
    }
  }

  lemma ScanNone(rs: seq<Release>, today: Moment, target: Option<int>)
    requires rs == [] || !Le(rs[0].available, today.date)
    ensures Scan(rs, today, target) == target
  {
    if rs != [] {
      AtOrAfterMidnight(today, rs[0].available);
    }
  }

  /** The scan answers its starting value or one of the releases' months. */
  lemma {:induction false} ScanMonths(rs: seq<Release>, today: Moment, target: Option<int>)
    ensures Scan(rs, today, target) == target
            || exists k :: 0 <= k < |rs| && Scan(rs, today, target) == Some(rs[k].month)
    decreases |rs|
  {
    if rs != [] && AtOrAfter(today, Midnight(rs[0].available)) {
      ScanMonths(rs[1..], today, Some(rs[0].month));
      if Scan(rs, today, target) != Some(rs[0].month) {
        var k :| 0 <= k < |rs[1..]| && Scan(rs, today, target) == Some(rs[1..][k].month);
        assert rs[1..][k] == rs[k + 1];
      }
    }
  }

  /** A sorted list is available up to any available entry. */
  lemma {:induction false} SortedPrefixAvailable(rs: seq<Release>, d: Date, k: nat)
    requires Sorting.SortedBy(rs, ByAvailable())
    requires k < |rs| && Le(rs[k].available, d)
    ensures forall j :: 0 <= j <= k ==> Le(rs[j].available, d)
    decreases k
  {
    if k > 0 {
      assert ByAvailable()(rs[k - 1], rs[k]);
      LeTransitive(rs[k - 1].available, rs[k].available, d);
      SortedPrefixAvailable(rs, d, k - 1);
    }
  }

  lemma {:induction false} ScanSome(rs: seq<Release>, today: Moment, target: Option<int>)
    requires target.Some?
    ensures Scan(rs, today, target).Some?
    decreases |rs|
  {
    if rs != [] && AtOrAfter(today, Midnight(rs[0].available)) {
      ScanSome(rs[1..], today, Some(rs[0].month));
    }
  }

  /** The report month is the month of the latest release available today:
      release `k` is available and release `k + 1`, if any, is not. */
  lemma TargetIsLatestAvailable(today: Moment, offset: nat, k: nat)
    requires k < |PublishDates|
    requires Le(Available(today.date.year, offset, k), today.date)
    requires k + 1 == |PublishDates| || !Le(Available(today.date.year, offset, k + 1), today.date)
    ensures TargetReportMonth(today, offset) == Some(PublishDates[k].0)
  {
    var rs := ReleaseDays(today.date.year, offset);
    ReleaseDaysSorted(today.date.year, offset);
    SortedPrefixAvailable(rs, today.date, k);
    ScanPrefix(rs, today, None, k);
  }

  /** There is no report month exactly when the year's first release is not
      available yet. */
  lemma TargetNoneBeforeFirst(today: Moment, offset: nat)
    ensures TargetReportMonth(today, offset) == None
            <==> !Le(Available(today.date.year, offset, 0), today.date)
  {
    var rs := ReleaseDays(today.date.year, offset);
    ReleaseDaysSorted(today.date.year, offset);
    AtOrAfterMidnight(today, rs[0].available);
    if AtOrAfter(today, Midnight(rs[0].available)) {
      ScanSome(rs[1..], today, Some(rs[0].month));
    }
  }

  /** The answer is always one of the eight report months. */
  lemma TargetInReportMonths(today: Moment, offset: nat)
    ensures TargetReportMonth(today, offset).Some? ==> TargetReportMonth(today, offset).value in ReportMonths
  {
    var rs := ReleaseDays(today.date.year, offset);
    ReleaseDaysSorted(today.date.year, offset);
    ScanMonths(rs, today, None);
  }

  /** The issue job (a week's wait) has nothing before 23 January. */
  lemma IssueNothingBeforeJan23(today: Moment)
    requires Valid(today.date)
    ensures TargetReportMonth(today, IssueOffset) == None
            <==> today.date.month == 1 && today.date.day < 23
  {
    TargetNoneBeforeFirst(today, IssueOffset);
    AddDaysClosedForm(Date(today.date.year, 1, 16), IssueOffset);
  }

  /** The other jobs have nothing before 16 January. */
  lemma DecisionNothingBeforeJan16(today: Moment)
    requires Valid(today.date)
    ensures TargetReportMonth(today, 0) == None
            <==> today.date.month == 1 && today.date.day < 16
  {
    TargetNoneBeforeFirst(today, 0);
  }

  // ---------------------------------------------------------------------
  // Period codes
  // ---------------------------------------------------------------------

  /** `f"{year}-{month:02d}"`. */
  function PeriodCode(year: nat, month: int): string
  {
    Dec(year) + "-" + Format2(month)
  }

  /** Reads a "YYYY-MM" code back into its year and month. */
  function ParsePeriodCode(s: string): Option<(nat, nat)>
  {
    match Text.IndexOf(s, '-', 0)
    case None => None
    case Some(i) =>
      match (ParseNat(s[..i]), ParseNat(s[i + 1..]))
      case (Some(y), Some(m)) => Some((y, m))
      case _ => None
  }

  /** A period code gives back its year and month. */
  lemma PeriodCodeRoundTrip(year: nat, month: nat)
    ensures ParsePeriodCode(PeriodCode(year, month)) == Some((year, month))
  {
    var d := Dec(year);
    var s := PeriodCode(year, month);
    var i := |d|;
    assert s[i] == '-';
    assert forall k :: 0 <= k < i ==> s[k] == d[k];
    var r := Text.IndexOf(s, '-', 0);
    assert r == Some(i);
    assert s[..i] == d && s[i + 1..] == Pad(month, 2);
    ValueOfDec(year);
    PadValue(month, 2);
  }

  /** `get_code`: the period code of the report month, if there is one. */
  function GetCode(today: Moment): (r: Option<string>)
    requires Valid(today.date)
  {
    match TargetReportMonth(today, 0)
    case None => None
    case Some(m) => if m == 0 then None else Some(PeriodCode(today.date.year, m))  // `if not month`
  }

  /** There is a code exactly when there is a report month, and it reads back
      as this year and that month. */
  lemma GetCodeFacts(today: Moment)
    requires Valid(today.date)
    ensures GetCode(today).None? <==> TargetReportMonth(today, 0).None?
    ensures GetCode(today).Some? ==>
              ParsePeriodCode(GetCode(today).value) == Some((today.date.year, TargetReportMonth(today, 0).value))
  {
    TargetInReportMonths(today, 0);
    if TargetReportMonth(today, 0).Some? {
      PeriodCodeRoundTrip(today.date.year, TargetReportMonth(today, 0).value);
    }
  }
}
