/**
 The monthly series the statistics jobs publish: points keyed by a "YYYY-MM"
 string and sorted by that key. Python orders strings by code points; the
 series values are rounded floats and stay opaque here.
 */
module Series {
  import opened Wrappers
  import opened Text
  import opened Decimal
  import Sorting

  /** `round(float(v), 1)`, kept opaque: its decimal rendering. */
  datatype Value = Value(repr: string)

  /** `round(float(0), 1)`, what a missing value reads as. */
  const Zero: Value := Value("0.0")

  /** One published point; `y == None` is JSON `null`. */
  datatype Point = Point(x: string, y: Option<Value>)

  /** One row of a statistics answer: its period text (a missing field reads
      as "") and its value text, `None` when the field is missing. */
  datatype Row = Row(time: string, dataValue: Option<string>)

  /** `round(float(v), 1)` of a present value, `None` where the conversion
      raises. */
  type Rounding = string -> Option<Value>

  /** `round(float(row.get(field, 0)), 1)`: a missing value reads as 0. */
  function RowValue(row: Row, round1: Rounding): Option<Value>
  {
    match row.dataValue
    case None => Some(Zero)
    case Some(v) => round1(v)
  }

  /** What a statistics job reports: nothing to publish, or the series it
      uploads, whose length is the reported count. */
  datatype Publication = NoData | Upload(series: seq<Point>)

  /** An empty series is not uploaded. */
  function Publish(series: seq<Point>): (r: Publication)
    ensures r.NoData? <==> series == []
    ensures r.Upload? ==> r.series == series && |r.series| > 0
  {
    if series == [] then NoData else Upload(series)
  }

  // ---------------------------------------------------------------------
  // String order
  // ---------------------------------------------------------------------

  /** `a <= b` on Python strings: code point by code point, a prefix first. */
  predicate StrLe(a: string, b: string)
    decreases |a|
  {
    a == [] || (b != [] && (a[0] < b[0] || (a[0] == b[0] && StrLe(a[1..], b[1..]))))
  }

  lemma {:induction false} StrLeTotal(a: string, b: string)
    ensures StrLe(a, b) || StrLe(b, a)
    decreases |a|
  {
    if a != [] && b != [] && a[0] == b[0] {
      StrLeTotal(a[1..], b[1..]);
    }
  }

  lemma {:induction false} StrLeTransitive(a: string, b: string, c: string)
    requires StrLe(a, b) && StrLe(b, c)
    ensures StrLe(a, c)
    decreases |a|
  {
    if a != [] && a[0] == b[0] && b[0] == c[0] {
      StrLeTransitive(a[1..], b[1..], c[1..]);
    }
  }

  lemma {:induction false} StrLeAntisymmetric(a: string, b: string)
    requires StrLe(a, b) && StrLe(b, a)
    ensures a == b
    decreases |a|
  {
    if a != [] {
      StrLeAntisymmetric(a[1..], b[1..]);
      assert a == [a[0]] + a[1..] && b == [b[0]] + b[1..];
    }
  }

  /** The sort key of `sort(key=lambda p: p["x"])`. */
  function ByX(): (Point, Point) -> bool {
    (p: Point, q: Point) => StrLe(p.x, q.x)
  }

  lemma ByXTotalPreorder()
    ensures Sorting.TotalPreorder(ByX())
  {
    forall p: Point, q: Point
      ensures ByX()(p, q) || ByX()(q, p)
    {
      StrLeTotal(p.x, q.x);
    }
    forall p: Point, q: Point, r: Point | ByX()(p, q) && ByX()(q, r)
      ensures ByX()(p, r)
    {
      StrLeTransitive(p.x, q.x, r.x);
    }
  }

  /** Sorting by the key: the points in ascending key order, the same points,
      and points with equal keys in their original order. */
  function SortByX(ps: seq<Point>): (r: seq<Point>)
    ensures |r| == |ps|
  {
    Sorting.SortBy(ps, ByX())
  }

  /** Sorting by key returns the same points, ascending, and keeps the order
      of equal keys (Python's sort is stable). */
  lemma SortByXFacts(ps: seq<Point>)
    ensures multiset(SortByX(ps)) == multiset(ps)
    ensures forall i :: 0 <= i < |ps| - 1 ==> StrLe(SortByX(ps)[i].x, SortByX(ps)[i + 1].x)
    ensures forall k: Point :: Sorting.KeyClass(SortByX(ps), k, ByX()) == Sorting.KeyClass(ps, k, ByX())
  {
    ByXTotalPreorder();
    Sorting.SortByPermutes(ps, ByX());
    Sorting.SortBySorted(ps, ByX());
    var r := SortByX(ps);
    assert forall i :: 0 <= i < |r| - 1 ==> ByX()(r[i], r[i + 1]);
    forall k: Point
      ensures Sorting.KeyClass(SortByX(ps), k, ByX()) == Sorting.KeyClass(ps, k, ByX())
    {
      Sorting.SortByStable(ps, k, ByX());
    }
  }

  /** Points with the same key are exactly the points with the same `x`. */
  lemma SameKeyIsSameX(p: Point, q: Point)
    ensures Sorting.Equiv(ByX(), p, q) <==> p.x == q.x
  {
    if Sorting.Equiv(ByX(), p, q) {
      StrLeAntisymmetric(p.x, q.x);
    } else {
      StrLeTotal(p.x, p.x);
    }
  }

  // ---------------------------------------------------------------------
  // Year-month keys
  // ---------------------------------------------------------------------

  /** `strftime("%Y" + sep + "%m")`: the year zero-padded to four digits,
      the month to two. */
  function FormatYmWith(year: nat, month: nat, sep: string): string
  {
    Pad(year, 4) + sep + Pad(month, 2)
  }

  /** `strftime("%Y-%m")`, the key of every published point. */
  function FormatYm(year: nat, month: nat): string
  {
    FormatYmWith(year, month, "-")
  }

  /** The `%m` directive of `strptime`: `1[0-2]|0[1-9]|[1-9]`, tried in that
      order, and the whole rest of the string must be consumed. */
  function MonthField(r: string): Option<nat>
  {
    if |r| == 2 && r[0] == '1' && '0' <= r[1] <= '2' then Some(10 + DigitValue(r[1]))
    else if |r| == 2 && r[0] == '0' && '1' <= r[1] <= '9' then Some(DigitValue(r[1]))
    else if |r| == 1 && '1' <= r[0] <= '9' then Some(DigitValue(r[0]))
    else None
  }

  /** `datetime.strptime(t, "%Y" + sep + "%m")`: four digits for a year from
      1, the separator, then the month field. */
  function ParseYm(t: string, sep: string): (r: Option<(nat, nat)>)
    ensures r.Some? ==> 1 <= r.value.0 <= 9999 && 1 <= r.value.1 <= 12
  {
    if |t| >= 4 + |sep| && AllDigits(t[..4]) && t[4..4 + |sep|] == sep && ValueOf(t[..4]) >= 1 then
      match MonthField(t[4 + |sep|..])
      case Some(m) =>
        LeadingZerosValue(0, t[..4]);
        FourDigitsBelow(t[..4]);
        Some((ValueOf(t[..4]), m))
      case None => None
    else None
  }

  lemma {:induction false} FourDigitsBelow(s: string)
    requires |s| == 4 && AllDigits(s)
    ensures ValueOf(s) <= 9999
  {
    var a := s[..3];
    var b := a[..2];
    var c := b[..1];
    assert c[..0] == [];
    assert ValueOf(c) <= 9;
    assert ValueOf(b) <= 99;
    assert ValueOf(a) <= 999;
  }

  /** A formatted year and month parse back with the same format. */
  lemma FormatYmWithRoundTrip(year: nat, month: nat, sep: string)
    requires 1 <= year <= 9999 && 1 <= month <= 12
    ensures ParseYm(FormatYmWith(year, month, sep), sep) == Some((year, month))
  {
    var y := Pad(year, 4);
    var m := Pad(month, 2);
    var s := FormatYmWith(year, month, sep);
    PadValue(year, 4);
    PadValue(month, 2);
    DecWidth(year, 4);
    assert |y| == 4;
    assert s[..4] == y && s[4..4 + |sep|] == sep && s[4 + |sep|..] == m;
    MonthFieldOfPad(month);
  }

  /** A published key parses back to its year and month. */
  lemma FormatYmRoundTrip(year: nat, month: nat)
    requires 1 <= year <= 9999 && 1 <= month <= 12
    ensures ParseYm(FormatYm(year, month), "-") == Some((year, month))
  {
    FormatYmWithRoundTrip(year, month, "-");
  }

  /** The two-digit month reads back through the `%m` field. */
  lemma MonthFieldOfPad(month: nat)
    requires 1 <= month <= 12
    ensures MonthField(Pad(month, 2)) == Some(month)
  {
    if month < 10 {
      assert Dec(month) == [DigitChar(month)];
      assert Pad(month, 2) == ['0', DigitChar(month)];
    } else {
      assert Dec(month) == Dec(month / 10) + [DigitChar(month % 10)];
      assert Dec(month / 10) == ['1'];
      assert Pad(month, 2) == ['1', DigitChar(month % 10)];
    }
  }

  /** Re-formatting a parsed key is a normal form: formatting what was parsed
      and parsing again gives the same year and month. */
  lemma ParseFormatIdempotent(t: string, sep: string)
    requires ParseYm(t, sep).Some?
    ensures var p := ParseYm(t, sep).value;
            ParseYm(FormatYm(p.0, p.1), "-") == Some(p)
  {
    var p := ParseYm(t, sep).value;
    FormatYmRoundTrip(p.0, p.1);
  }

  // ---------------------------------------------------------------------
  // Collecting the points of many rows
  // ---------------------------------------------------------------------

  /** The points of every row, row after row. */
  function Flatten(xss: seq<seq<Point>>): seq<Point>
  {
    if xss == [] then [] else xss[0] + Flatten(xss[1..])
  }

  /** Each row adds at most `n` points. */
  lemma {:induction false} FlattenBound(xss: seq<seq<Point>>, n: nat)
    requires forall k :: 0 <= k < |xss| ==> |xss[k]| <= n
    ensures |Flatten(xss)| <= n * |xss|
  {
    if xss != [] {
      FlattenBound(xss[1..], n);
    }
  }

  /** A point of the collected list comes from some row. */
  lemma {:induction false} FlattenMember(xss: seq<seq<Point>>, p: Point)
    requires p in Flatten(xss)
    ensures exists k :: 0 <= k < |xss| && p in xss[k]
  {
    if p !in xss[0] {
      FlattenMember(xss[1..], p);
      var k :| 0 <= k < |xss[1..]| && p in xss[1..][k];
      assert xss[1..][k] == xss[k + 1];
    }
  }
}
