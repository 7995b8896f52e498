/**
 The KRX index job: the closing price of the index on the last trading day of
 the previous month is written into the stored monthly series, replacing the
 point of that month or adding one. A trading day is a weekday on which the
 exchange reports a price; the price lookup is a parameter.
 */
module Krx {
  import opened Wrappers
  import opened Decimal
  import Calendar
  import Series

  // ---------------------------------------------------------------------
  // The previous month
  // ---------------------------------------------------------------------

  /** Months counted from year 0, so that consecutive months differ by one. */
  function MonthIndex(year: int, month: int): int {
    12 * year + month
  }

  /** `move_to_prev_month(now)`: the first day of the month before; year 0
      is out of `datetime`'s range. */
  function MoveToPrevMonth(now: Calendar.Date): (r: Result<Calendar.Date, string>)
    requires Calendar.Valid(now)
  {
    var month := if now.month == 1 then 12 else now.month - 1;
    var year := if now.month == 1 then now.year - 1 else now.year;
    if year < 1 then Err("year 0 is out of range") else Ok(Calendar.Date(year, month, 1))
  }

  /** The result is the first day of the month just before `now`'s month;
      only January of year 1 has none. */
  lemma MoveToPrevMonthFacts(now: Calendar.Date)
    requires Calendar.Valid(now)
    ensures MoveToPrevMonth(now).Err? <==> now.year == 1 && now.month == 1
    ensures MoveToPrevMonth(now).Ok? ==>
              var p := MoveToPrevMonth(now).value;
              Calendar.Valid(p) && p.day == 1
              && MonthIndex(p.year, p.month) + 1 == MonthIndex(now.year, now.month)
  {
  }

  // ---------------------------------------------------------------------
  // The last trading day
  // ---------------------------------------------------------------------

  /** `date.strftime("%Y%m%d")`, the key of the price lookup. */
  function Stamp(year: nat, month: nat, day: nat): string
  {
    Series.FormatYmWith(year, month, "") + Pad(day, 2)
  }

  /** The lookup `get_kospi_close_price`: the closing price on a day, `None`
      when the exchange reports none. */
  type PriceLookup = string -> Option<Series.Value>

  /** A weekday of the month with a reported price. */
  predicate Trades(year: int, month: int, day: int, price: PriceLookup)
    requires 1 <= year <= 9999 && 1 <= month <= 12
  {
    1 <= day <= Calendar.DaysInMonth(year, month)
    && Calendar.Weekday(Calendar.Date(year, month, day)) < 5
    && price(Stamp(year, month, day)).Some?
  }

  /** `get_last_trading_day_of_month(year, month)`: walks back from the last
      day of the month and returns the month ("%Y-%m") with the price of the
      first trading day it meets, `None` if the month has none. Stepping back
      from 1 January of year 1 leaves `datetime`'s range. */
  method LastTradingDay(year: int, month: int, price: PriceLookup)
    returns (r: Result<Option<(string, Series.Value)>, string>)
    requires 1 <= year <= 9999 && 1 <= month <= 12
    ensures r.Err? <==> year == 1 && month == 1
                        && forall e :: 1 <= e <= Calendar.DaysInMonth(year, month) ==> !Trades(year, month, e, price)
    ensures r.Ok? && r.value.None? ==>
              forall e :: 1 <= e <= Calendar.DaysInMonth(year, month) ==> !Trades(year, month, e, price)
    ensures r.Ok? && r.value.Some? ==>
              exists d :: Trades(year, month, d, price)
                && (forall e :: d < e <= Calendar.DaysInMonth(year, month) ==> !Trades(year, month, e, price))
                && r.value.value == (Series.FormatYm(year, month), price(Stamp(year, month, d)).value)
  {
    var last := Calendar.DaysInMonth(year, month);
    var day := last;
    while day >= 1
      invariant 0 <= day <= last
      invariant forall e :: day < e <= last ==> !Trades(year, month, e, price)
    {
      if Calendar.Weekday(Calendar.Date(year, month, day)) < 5 {
        var p := price(Stamp(year, month, day));
        if p.Some? {
          assert Trades(year, month, day, price);
          return Ok(Some((Series.FormatYm(year, month), p.value)));
        }
      }
      day := day - 1;
    }
    if year == 1 && month == 1 {
      return Err("date value out of range");
    }
    return Ok(None);
  }

  /** The month label of a trading day reads back as that month. */
  lemma TradingMonthLabel(year: nat, month: nat)
    requires 1 <= year <= 9999 && 1 <= month <= 12
    ensures Series.ParseYm(Series.FormatYm(year, month), "-") == Some((year, month))
  {
    Series.FormatYmRoundTrip(year, month);
  }

  // ---------------------------------------------------------------------
  // Updating the series
  // ---------------------------------------------------------------------

  /** Index of the first point keyed `ym`. */
  function FirstWithX(items: seq<Series.Point>, ym: string): (r: Option<nat>)
    ensures r.Some? ==> r.value < |items| && items[r.value].x == ym
                        && forall j :: 0 <= j < r.value ==> items[j].x != ym
    ensures r.None? ==> forall j :: 0 <= j < |items| ==> items[j].x != ym
  {
    if items == [] then None
    else if items[0].x == ym then Some(0)
    else match FirstWithX(items[1..], ym)
      case None => None
      case Some(i) => Some(i + 1)
  }

  /** The loop over `existing`: the first point of month `ym` gets the new
      price and the walk stops; without one, a point is appended. The flag
      says whether a point was replaced. */
  function Upsert(items: seq<Series.Point>, ym: string, p: Series.Value): (r: (seq<Series.Point>, bool))
  {
    if items == [] then ([Series.Point(ym, Some(p))], false)
    else if items[0].x == ym then ([Series.Point(ym, Some(p))] + items[1..], true)
    else
      var (rest, replaced) := Upsert(items[1..], ym, p);
      ([items[0]] + rest, replaced)
  }

  /** Upserting replaces the first point of the month, keeping its place,
      or appends a new point when the month is absent. */
  lemma {:induction false} UpsertFacts(items: seq<Series.Point>, ym: string, p: Series.Value)
    ensures Upsert(items, ym, p).1 <==> FirstWithX(items, ym).Some?
    ensures FirstWithX(items, ym).None? ==> Upsert(items, ym, p).0 == items + [Series.Point(ym, Some(p))]
    ensures FirstWithX(items, ym).Some? ==>
              Upsert(items, ym, p).0 == items[FirstWithX(items, ym).value := Series.Point(ym, Some(p))]
    decreases |items|
  {
    if items != [] && items[0].x != ym {
      UpsertFacts(items[1..], ym, p);
      assert items == [items[0]] + items[1..];
      var rest := Upsert(items[1..], ym, p).0;
      if FirstWithX(items[1..], ym).Some? {
        var i := FirstWithX(items[1..], ym).value;
        assert [items[0]] + items[1..][i := Series.Point(ym, Some(p))]
               == items[i + 1 := Series.Point(ym, Some(p))];
      }
    }
  }

  /** Running the update twice with the same month and price changes nothing
      the second time, and the second run reports a replacement. */
  lemma UpsertIdempotent(items: seq<Series.Point>, ym: string, p: Series.Value)
    ensures var once := Upsert(items, ym, p).0;
            Upsert(once, ym, p) == (once, true)
  {
    UpsertFacts(items, ym, p);
    var once := Upsert(items, ym, p).0;
    var pt := Series.Point(ym, Some(p));
    UpsertFacts(once, ym, p);
    match FirstWithX(items, ym)
    case None =>
      assert once[|items|] == pt;
      var j := FirstWithX(once, ym).value;
      assert j == |items|;
      assert once[j := pt] == once;
    case Some(i) =>
      assert once[i] == pt;
      var j := FirstWithX(once, ym).value;
      assert j == i;
      assert once[j := pt] == once;
  }

  // ---------------------------------------------------------------------
  // The job
  // ---------------------------------------------------------------------

  /** The stored series as read back: a JSON list of points or anything else. */
  datatype Stored = Points(items: seq<Series.Point>) | NotAList

  datatype Outcome =
    | NoData
    | Success(ym: string, price: Series.Value, updated: bool, series: seq<Series.Point>)

  /** `run()` on the UTC day `now`: the series uploaded is the stored one
      with the month's point replaced or added, sorted by month. The run
      reports NO_DATA exactly when the previous month has no trading day, and
      fails only on stored data that is not a list, on a previous month
      before year 1, and on stepping back from 1 January of year 1. */
  method Run(stored: Stored, now: Calendar.Date, price: PriceLookup) returns (r: Result<Outcome, string>)
    requires Calendar.Valid(now)
    ensures stored.NotAList? ==> r == Err("Existing data is not a list")
    ensures stored.Points? && MoveToPrevMonth(now).Err? ==> r == Err(MoveToPrevMonth(now).error)
    ensures r.Ok? ==> stored.Points? && MoveToPrevMonth(now).Ok?
    ensures r.Ok? && r.value.Success? ==>
              var prev := MoveToPrevMonth(now).value;
              var up := Upsert(stored.items, r.value.ym, r.value.price);
              r.value.ym == Series.FormatYm(prev.year, prev.month)
              && r.value.updated == up.1
              && r.value.series == Series.SortByX(up.0)
              && (exists d :: Trades(prev.year, prev.month, d, price)
                    && (forall e :: d < e <= Calendar.DaysInMonth(prev.year, prev.month) ==> !Trades(prev.year, prev.month, e, price))
                    && r.value.price == price(Stamp(prev.year, prev.month, d)).value)
    ensures r.Ok? ==>
              var prev := MoveToPrevMonth(now).value;
              (r.value.NoData? <==>
                 forall e :: 1 <= e <= Calendar.DaysInMonth(prev.year, prev.month) ==> !Trades(prev.year, prev.month, e, price))
    ensures r.Err? <==>
              stored.NotAList? || MoveToPrevMonth(now).Err?
              || (MoveToPrevMonth(now).Ok? && MoveToPrevMonth(now).value.year == 1 && MoveToPrevMonth(now).value.month == 1
                  && forall e :: 1 <= e <= Calendar.DaysInMonth(1, 1) ==> !Trades(1, 1, e, price))
  {
    if stored.NotAList? {
      return Err("Existing data is not a list");
    }
    var prev := MoveToPrevMonth(now);
    if prev.Err? {
      return Err(prev.error);
    }
    var p := prev.value;
    var found := LastTradingDay(p.year, p.month, price);
    if found.Err? {
      return Err(found.error);
    }
    if found.value.None? {
      return Ok(NoData);
    }
    var (ym, close) := found.value.value;
    var (items, updated) := Upsert(stored.items, ym, close);
    return Ok(Success(ym, close, updated, Series.SortByX(items)));
  }

  /** The uploaded series holds the new month's point once per replaced or
      added position, keeps every other point, and is in month order. */
  lemma UploadedSeries(items: seq<Series.Point>, ym: string, p: Series.Value)
    ensures var up := Upsert(items, ym, p);
            var series := Series.SortByX(up.0);
            Series.Point(ym, Some(p)) in series
            && (forall q :: q in items && q.x != ym ==> q in series)
            && |series| == (if up.1 then |items| else |items| + 1)
            && forall i :: 0 <= i < |series| - 1 ==> Series.StrLe(series[i].x, series[i + 1].x)
  {
    UpsertFacts(items, ym, p);
    var up := Upsert(items, ym, p);
    Series.SortByXFacts(up.0);
    var series := Series.SortByX(up.0);
    assert Series.Point(ym, Some(p)) in multiset(up.0) by {
      match FirstWithX(items, ym)
      case None => assert up.0[|items|] == Series.Point(ym, Some(p));
      case Some(i) => assert up.0[i] == Series.Point(ym, Some(p));
    }
    assert Series.Point(ym, Some(p)) in multiset(series);
    forall q | q in items && q.x != ym
      ensures q in series
    {
      var j :| 0 <= j < |items| && items[j] == q;
      assert q in up.0 by {
        match FirstWithX(items, ym)
        case None => assert up.0[j] == q;
        case Some(i) => assert up.0[j] == q;
      }
      assert q in multiset(series);
    }
  }
}
