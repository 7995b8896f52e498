/**
 The ECOS statistics job: the default query period, the request address and
 the reshaping of the answer rows into a monthly series. A quarterly row
 becomes three monthly points, the first two of them empty.
 */
module Ecos {
  import opened Wrappers
  import opened Text
  import opened Decimal
  import Calendar
  import Series
  import Sorting

  // ---------------------------------------------------------------------
  // Query period
  // ---------------------------------------------------------------------

  /** `(month - 1) // 3 + 1`. */
  function QuarterOf(month: int): int
    requires 1 <= month
  {
    (month - 1) / 3 + 1
  }

  /** The quarter of a calendar month is the one whose three months hold it. */
  lemma QuarterOfMonth(month: int)
    requires 1 <= month <= 12
    ensures 1 <= QuarterOf(month) <= 4
    ensures 3 * QuarterOf(month) - 2 <= month <= 3 * QuarterOf(month)
  {
  }

  /** `get_default_date(cycle, kind)` on the UTC day `now`. */
  function DefaultDate(cycle: string, kind: string, now: Calendar.Date): (r: Result<string, string>)
    requires Calendar.Valid(now)
  {
    if kind == "start" then Ok(if cycle == "M" then "199601" else "1996Q1")
    else if kind == "end" && cycle == "M" then Ok(Series.FormatYmWith(now.year, now.month, ""))
    else if kind == "end" && cycle == "Q" then Ok(Str(now.year) + "Q" + Str(QuarterOf(now.month)))
    else Err("kind must be 'start' or 'end'")
  }

  /** The start of the range is January 1996 in the cycle's notation; an
      unknown kind, or the end of a cycle other than M and Q, is an error. */
  lemma DefaultDateOutcomes(cycle: string, kind: string, now: Calendar.Date)
    requires Calendar.Valid(now)
    ensures DefaultDate(cycle, kind, now).Err?
            <==> kind != "start" && (kind != "end" || (cycle != "M" && cycle != "Q"))
    ensures kind == "start" && cycle == "M" ==>
              Series.ParseYm(DefaultDate(cycle, kind, now).value, "") == Some((1996, 1))
    ensures kind == "start" && cycle != "M" ==> DefaultDate(cycle, kind, now) == Ok("1996Q1")
  {
    if kind == "start" && cycle == "M" {
      Series.FormatYmWithRoundTrip(1996, 1, "");
      assert Series.FormatYmWith(1996, 1, "") == "199601" by {
        assert Dec(1996) == "1996";
        assert Dec(1) == "1";
      }
    }
  }

  /** The monthly end is the current month in `%Y%m` notation: it reads back
      as this year and month. */
  lemma MonthlyEndIsThisMonth(now: Calendar.Date)
    requires Calendar.Valid(now)
    ensures Series.ParseYm(DefaultDate("M", "end", now).value, "") == Some((now.year as nat, now.month as nat))
  {
    Series.FormatYmWithRoundTrip(now.year, now.month, "");
  }

  /** The quarterly end names the current quarter in its last character, which
      is where the reshaping reads a quarter from. */
  lemma QuarterlyEndIsThisQuarter(now: Calendar.Date)
    requires Calendar.Valid(now)
    ensures var e := DefaultDate("Q", "end", now).value;
            'Q' in e && IsDigit(e[|e| - 1]) && DigitValue(e[|e| - 1]) == QuarterOf(now.month)
            && 3 * QuarterOf(now.month) - 2 <= now.month <= 3 * QuarterOf(now.month)
  {
    var q := QuarterOf(now.month);
    var e := DefaultDate("Q", "end", now).value;
    assert e == Str(now.year) + "Q" + Dec(q);
    assert Dec(q) == [DigitChar(q)];
    assert e[|Str(now.year)|] == 'Q';
  }

  // ---------------------------------------------------------------------
  // Request address
  // ---------------------------------------------------------------------

  const BaseUrl: string := "https://ecos.bok.or.kr/api/StatisticSearch"

  /** The job's settings: `ECOS_API_KEY`, `STAT_CODE`, `CYCLE`, `ITEM_CODE`
      and `ITEM_CODE2` (the last two default to empty). */
  datatype Settings = Settings(apiKey: string, statCode: string, cycle: string, itemCode: string, itemCode2: string)

  /** `build_api_url(start_date, end_date)`. */
  function BuildApiUrl(cfg: Settings, start: string, end: string): string
  {
    var base := BaseUrl + "/" + cfg.apiKey + "/json/kr/1/1000/" + cfg.statCode + "/" + cfg.cycle
                + "/" + start + "/" + end + "/" + cfg.itemCode;
    if cfg.itemCode2 != "" then base + "/" + cfg.itemCode2 else base
  }

  /** The path segments after the service address, in order. */
  function Segments(cfg: Settings, start: string, end: string): seq<string>
  {
    [cfg.apiKey, "json", "kr", "1", "1000", cfg.statCode, cfg.cycle, start, end, cfg.itemCode]
    + (if cfg.itemCode2 != "" then [cfg.itemCode2] else [])
  }

  /** Joining the first `k + 1` segments, behind a fixed prefix. */
  lemma PrefixJoinStep(b: string, s: seq<string>, k: nat, sep: string)
    requires 1 <= k < |s|
    ensures b + Join(s[..k + 1], sep) == b + Join(s[..k], sep) + sep + s[k]
  {
    assert s[..k + 1] == s[..k] + [s[k]];
    JoinSnoc(s[..k], s[k], sep);
  }

  /** The fixed part of the address up to the statistic code. */
  lemma UrlHead(cfg: Settings, start: string, end: string)
    ensures BaseUrl + "/" + Join(Segments(cfg, start, end)[..6], "/")
            == BaseUrl + "/" + cfg.apiKey + "/json/kr/1/1000/" + cfg.statCode
  {
    var b := BaseUrl + "/";
    var s := Segments(cfg, start, end);
    assert Join(s[..1], "/") == cfg.apiKey;
    PrefixJoinStep(b, s, 1, "/");
    PrefixJoinStep(b, s, 2, "/");
    PrefixJoinStep(b, s, 3, "/");
    PrefixJoinStep(b, s, 4, "/");
    PrefixJoinStep(b, s, 5, "/");
  }

  /** The address is the service address followed by the segments joined
      with '/'. */
  lemma BuildApiUrlIsJoin(cfg: Settings, start: string, end: string)
    ensures BuildApiUrl(cfg, start, end) == BaseUrl + "/" + Join(Segments(cfg, start, end), "/")
  {
    var b := BaseUrl + "/";
    var s := Segments(cfg, start, end);
    UrlBody(cfg, start, end);
    if cfg.itemCode2 != "" {
      PrefixJoinStep(b, s, 10, "/");
      assert s == s[..11];
    } else {
      assert s == s[..10];
    }
  }

  /** The address without `ITEM_CODE2`: the first ten segments. */
  lemma UrlBody(cfg: Settings, start: string, end: string)
    ensures |Segments(cfg, start, end)| >= 10
    ensures BaseUrl + "/" + Join(Segments(cfg, start, end)[..10], "/")
            == BaseUrl + "/" + cfg.apiKey + "/json/kr/1/1000/" + cfg.statCode + "/" + cfg.cycle
               + "/" + start + "/" + end + "/" + cfg.itemCode
  {
    var b := BaseUrl + "/";
    var s := Segments(cfg, start, end);
    UrlHead(cfg, start, end);
    PrefixJoinStep(b, s, 6, "/");
    PrefixJoinStep(b, s, 7, "/");
    PrefixJoinStep(b, s, 8, "/");
    PrefixJoinStep(b, s, 9, "/");
  }

  /** When no setting contains a '/', every setting occupies its own path
      segment, and `ITEM_CODE2` adds an eleventh segment exactly when it is
      not empty. */
  lemma UrlSegments(cfg: Settings, start: string, end: string)
    requires '/' !in cfg.apiKey && '/' !in cfg.statCode && '/' !in cfg.cycle
    requires '/' !in start && '/' !in end && '/' !in cfg.itemCode && '/' !in cfg.itemCode2
    ensures var url := BuildApiUrl(cfg, start, end);
            |BaseUrl| + 1 <= |url| && url[..|BaseUrl| + 1] == BaseUrl + "/"
            && Split(url[|BaseUrl| + 1..], '/') == Segments(cfg, start, end)
    ensures |Segments(cfg, start, end)| == (if cfg.itemCode2 != "" then 11 else 10)
  {
    BuildApiUrlIsJoin(cfg, start, end);
    var segs := Segments(cfg, start, end);
    var url := BuildApiUrl(cfg, start, end);
    assert url[|BaseUrl| + 1..] == Join(segs, "/");
    forall k | 0 <= k < |segs| ensures '/' !in segs[k] {
    }
    SplitJoin(segs, '/');
  }

  // ---------------------------------------------------------------------
  // Reshaping
  // ---------------------------------------------------------------------

  predicate KeptTimeChar(c: char) {
    c != ' ' && c != '년' && c != '월'
  }

  /** `TIME` with spaces, '년' and '월' removed. */
  function CleanTime(t: string): string
  {
    Filter(t, KeptTimeChar)
  }

  /** `f"{year}-{m:02d}"` with the year kept as the text it was cut from. */
  function QuarterKey(year: string, m: int): string
  {
    year + "-" + Format2(m)
  }

  /** The points of quarter `q` of `year`: the first two months empty, the
      last with the value, which is left out when it does not convert. */
  function QuarterPoints(year: string, q: int, v: Option<Series.Value>): seq<Series.Point>
  {
    [Series.Point(QuarterKey(year, 3 * q - 2), None), Series.Point(QuarterKey(year, 3 * q - 1), None)]
    + (if v.Some? then [Series.Point(QuarterKey(year, 3 * q), v)] else [])
  }

  /** The points one row contributes, in the order the loop appends them. */
  function Expand(row: Series.Row, round1: Series.Rounding): (r: seq<Series.Point>)
    ensures |r| <= 3
  {
    var t := CleanTime(row.time);
    if 'Q' in t then
      if !IsDigit(t[|t| - 1]) then []   // `int(time_str[-1])` raises
      else QuarterPoints(t[..if |t| < 4 then |t| else 4], DigitValue(t[|t| - 1]), Series.RowValue(row, round1))
    else
      match Series.ParseYm(t, "")
      case None => []
      case Some(ym) =>
        match Series.RowValue(row, round1)
        case None => []
        case Some(v) => [Series.Point(Series.FormatYm(ym.0, ym.1), Some(v))]
  }

  /** `transform_data`: every row's points, sorted by key. */
  function Transform(rows: seq<Series.Row>, round1: Series.Rounding): seq<Series.Point>
  {
    Series.SortByX(Series.Flatten(seq(|rows|, k requires 0 <= k < |rows| => Expand(rows[k], round1))))
  }

  /** The cleaned time is the source's chain of replacements: spaces, '년'
      and '월' deleted, every other character kept in order. */
  lemma {:induction false} CleanTimeKeeps(t: string)
    ensures CleanTime(t) == DeleteChar(DeleteChar(DeleteChar(t, ' '), '년'), '월')
    ensures ' ' !in CleanTime(t) && '년' !in CleanTime(t) && '월' !in CleanTime(t)
    decreases |t|
  {
    if t != [] {
      var c := t[0];
      CleanTimeKeeps(t[1..]);
      assert t == [c] + t[1..];
      var a1 := DeleteChar([c], ' ');
      DeleteCharAppend([c], t[1..], ' ');
      var a2 := DeleteChar(a1, '년');
      DeleteCharAppend(a1, DeleteChar(t[1..], ' '), '년');
      DeleteCharAppend(a2, DeleteChar(DeleteChar(t[1..], ' '), '년'), '월');
      FilterAppend([c], t[1..], KeptTimeChar);
      assert [c][1..] == [];
      assert Filter([c], KeptTimeChar) == DeleteChar(a2, '월');
    }
  }

  /** The `k`-th point of a quarter is keyed by the quarter's `k`-th month. */
  lemma QuarterPointKey(year: string, q: nat, v: Option<Series.Value>, k: nat)
    requires |year| == 4 && AllDigits(year) && ValueOf(year) >= 1 && 1 <= q <= 4
    requires k < |QuarterPoints(year, q, v)|
    ensures Series.ParseYm(QuarterPoints(year, q, v)[k].x, "-") == Some((ValueOf(year), 3 * q - 2 + k))
  {
    QuarterPointAt(year, q, v, k);
    var m := 3 * q - 2 + k;
    assert 1 <= m <= 12;
    QuarterKeyParses(year, m);
  }

  lemma QuarterPointAt(year: string, q: int, v: Option<Series.Value>, k: nat)
    requires k < |QuarterPoints(year, q, v)|
    ensures k <= 2 && QuarterPoints(year, q, v)[k].x == QuarterKey(year, 3 * q - 2 + k)
  {
    var ps := QuarterPoints(year, q, v);
    if k == 0 {
      assert ps[0] == Series.Point(QuarterKey(year, 3 * q - 2), None);
    } else if k == 1 {
      assert ps[1] == Series.Point(QuarterKey(year, 3 * q - 1), None);
    } else {
      assert ps[2] == Series.Point(QuarterKey(year, 3 * q), v);
    }
  }

  /** The points of a quarter are its three months in order, read back from
      their keys: the first two empty, the third with the value if any. */
  lemma QuarterPointsFacts(year: string, q: nat, v: Option<Series.Value>)
    requires |year| == 4 && AllDigits(year) && ValueOf(year) >= 1 && 1 <= q <= 4
    ensures var ps := QuarterPoints(year, q, v);
            |ps| == (if v.Some? then 3 else 2)
            && ps[0].y == None && ps[1].y == None && (|ps| == 3 ==> ps[2].y == v)
            && forall k :: 0 <= k < |ps| ==>
                 Series.ParseYm(ps[k].x, "-") == Some((ValueOf(year), 3 * q - 2 + k))
                 && QuarterOf(3 * q - 2 + k) == q
  {
    var ps := QuarterPoints(year, q, v);
    QuarterPointsShape(year, q, v);
    forall k | 0 <= k < |ps|
      ensures Series.ParseYm(ps[k].x, "-") == Some((ValueOf(year), 3 * q - 2 + k))
      ensures QuarterOf(3 * q - 2 + k) == q
    {
      QuarterPointKey(year, q, v, k);
      QuarterOfOffset(q, k);
    }
  }

  lemma QuarterPointsShape(year: string, q: int, v: Option<Series.Value>)
    ensures var ps := QuarterPoints(year, q, v);
            |ps| == (if v.Some? then 3 else 2)
            && ps[0].y == None && ps[1].y == None && (|ps| == 3 ==> ps[2].y == v)
  {
  }

  /** The three months of quarter `q` all lie in quarter `q`. */
  lemma QuarterOfOffset(q: int, k: nat)
    requires 1 <= q && k <= 2
    ensures QuarterOf(3 * q - 2 + k) == q
  {
    assert 3 * q - 2 + k - 1 == 3 * (q - 1) + k;
  }

  /** A quarterly row with a four-digit year and a quarter digit from 1 to 4
      gives the points of that quarter, carrying the row's value. */
  lemma QuarterlyRow(row: Series.Row, round1: Series.Rounding)
    requires var t := CleanTime(row.time);
             'Q' in t && IsDigit(t[|t| - 1]) && |t| >= 4
    ensures var t := CleanTime(row.time);
            Expand(row, round1) == QuarterPoints(t[..4], DigitValue(t[|t| - 1]), Series.RowValue(row, round1))
  {
  }

  /** A four-digit year and a calendar month read back from a quarter key. */
  lemma QuarterKeyParses(year: string, m: nat)
    requires |year| == 4 && AllDigits(year) && ValueOf(year) >= 1 && 1 <= m <= 12
    ensures Series.ParseYm(QuarterKey(year, m), "-") == Some((ValueOf(year), m))
  {
    var s := QuarterKey(year, m);
    assert s[..4] == year && s[4..5] == "-" && s[5..] == Pad(m, 2);
    Series.MonthFieldOfPad(m);
    Series.FourDigitsBelow(year);
  }

  /** A monthly row whose time parses as `%Y%m` gives one point keyed by the
      same month as "YYYY-MM", when its value converts. */
  lemma MonthlyRow(row: Series.Row, round1: Series.Rounding)
    requires 'Q' !in CleanTime(row.time)
    requires Series.ParseYm(CleanTime(row.time), "").Some?
    ensures var ym := Series.ParseYm(CleanTime(row.time), "").value;
            Expand(row, round1)
            == if Series.RowValue(row, round1).Some?
               then [Series.Point(Series.FormatYm(ym.0, ym.1), Series.RowValue(row, round1))] else []
    ensures Expand(row, round1) != [] ==>
              Series.ParseYm(Expand(row, round1)[0].x, "-") == Series.ParseYm(CleanTime(row.time), "")
  {
    var ym := Series.ParseYm(CleanTime(row.time), "").value;
    Series.FormatYmRoundTrip(ym.0, ym.1);
  }

  /** A row whose time is neither quarterly nor `%Y%m`, or whose quarter
      digit is missing, is skipped without an error. */
  lemma MalformedRowSkipped(row: Series.Row, round1: Series.Rounding)
    requires var t := CleanTime(row.time);
             if 'Q' in t then !IsDigit(t[|t| - 1]) else Series.ParseYm(t, "").None?
    ensures Expand(row, round1) == []
  {
  }

  /** The series holds exactly the rows' points, at most three per row, in
      ascending key order, and points with equal keys keep the row order. */
  lemma TransformFacts(rows: seq<Series.Row>, round1: Series.Rounding)
    ensures var all := Series.Flatten(seq(|rows|, k requires 0 <= k < |rows| => Expand(rows[k], round1)));
            multiset(Transform(rows, round1)) == multiset(all)
            && |Transform(rows, round1)| <= 3 * |rows|
            && (forall i :: 0 <= i < |Transform(rows, round1)| - 1 ==>
                  Series.StrLe(Transform(rows, round1)[i].x, Transform(rows, round1)[i + 1].x))
            && forall p: Series.Point :: Sorting.KeyClass(Transform(rows, round1), p, Series.ByX())
                                          == Sorting.KeyClass(all, p, Series.ByX())
  {
    var xss := seq(|rows|, k requires 0 <= k < |rows| => Expand(rows[k], round1));
    Series.FlattenBound(xss, 3);
    Series.SortByXFacts(Series.Flatten(xss));
  }

  // ---------------------------------------------------------------------
  // The job
  // ---------------------------------------------------------------------

  /** `run()` on the UTC day `now`; `fetch` stands for the request to an
      address and the answer's `StatisticSearch.row` list (missing keys read
      as an empty list). The result names the address it fetched. */
  function Run(cfg: Settings, now: Calendar.Date, fetch: string -> seq<Series.Row>, round1: Series.Rounding)
    : (r: Result<(string, Series.Publication), string>)
    requires Calendar.Valid(now)
  {
    var start := DefaultDate(cfg.cycle, "start", now);
    var end := DefaultDate(cfg.cycle, "end", now);
    if end.Err? then Err(end.error)
    else
      var url := BuildApiUrl(cfg, start.value, end.value);
      Ok((url, Series.Publish(Transform(fetch(url), round1))))
  }

  /** Only the cycles M and Q can run. A run asks for January 1996 up to the
      current period, and uploads the reshaped answer unless it is empty. */
  lemma RunFacts(cfg: Settings, now: Calendar.Date, fetch: string -> seq<Series.Row>, round1: Series.Rounding)
    requires Calendar.Valid(now)
    ensures Run(cfg, now, fetch, round1).Err? <==> cfg.cycle != "M" && cfg.cycle != "Q"
    ensures Run(cfg, now, fetch, round1).Ok? ==>
              var (url, out) := Run(cfg, now, fetch, round1).value;
              url == BuildApiUrl(cfg, DefaultDate(cfg.cycle, "start", now).value, DefaultDate(cfg.cycle, "end", now).value)
              && (out.NoData? <==> Transform(fetch(url), round1) == [])
              && (out.Upload? ==> out.series == Transform(fetch(url), round1))
  {
    DefaultDateOutcomes(cfg.cycle, "start", now);
    DefaultDateOutcomes(cfg.cycle, "end", now);
  }
}
