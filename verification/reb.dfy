/**
 The REB statistics job: the rows of the second section of the answer become
 monthly points, keyed by the month their description names ("2024년 5월"
 becomes "2024-05").
 */
module Reb {
  import opened Wrappers
  import opened Text
  import Series

  /** The replacements applied to `WRTTIME_DESC`: spaces dropped, '년'
      becomes '-', '월' dropped. No replacement produces a character a later
      one looks for, so they can be applied character by character. */
  function DescChar(c: char): string
  {
    if c == ' ' then "" else if c == '년' then "-" else if c == '월' then "" else [c]
  }

  function NormalizeDesc(s: string): string
  {
    if s == [] then [] else DescChar(s[0]) + NormalizeDesc(s[1..])
  }

  /** The point of one row, `None` where `strptime(_, "%Y-%m")` or the value
      conversion raises. */
  function RowPoint(row: Series.Row, round1: Series.Rounding): Option<Series.Point>
  {
    match Series.ParseYm(NormalizeDesc(row.time), "-")
    case None => None
    case Some(ym) =>
      match Series.RowValue(row, round1)
      case None => None
      case Some(v) => Some(Series.Point(Series.FormatYm(ym.0, ym.1), Some(v)))
  }

  /** The points of the rows, in row order. */
  function Collect(rows: seq<Series.Row>, round1: Series.Rounding): (r: seq<Series.Point>)
    ensures |r| <= |rows|
  {
    if rows == [] then []
    else
      (match RowPoint(rows[0], round1) case None => [] case Some(p) => [p]) + Collect(rows[1..], round1)
  }

  /** `transform_data`: the answer's sections, each its `row` list (a
      missing list reads as empty). Reading the second section raises when
      there are fewer than two. */
  function Transform(sections: seq<seq<Series.Row>>, round1: Series.Rounding): (r: Result<seq<Series.Point>, string>)
  {
    if |sections| < 2 then Err("list index out of range")
    else Ok(Series.SortByX(Collect(sections[1], round1)))
  }

  /** A key in canonical "YYYY-MM" form: it reads as a month and formatting
      that month gives the key back. */
  predicate CanonicalKey(x: string) {
    Series.ParseYm(x, "-").Some?
    && Series.FormatYm(Series.ParseYm(x, "-").value.0, Series.ParseYm(x, "-").value.1) == x
  }

  /** A row yields a point exactly when its description reads as a month and
      its value converts; the point carries that month's canonical key. */
  lemma RowPointFacts(row: Series.Row, round1: Series.Rounding)
    ensures RowPoint(row, round1).Some? <==>
              Series.ParseYm(NormalizeDesc(row.time), "-").Some? && Series.RowValue(row, round1).Some?
    ensures RowPoint(row, round1).Some? ==>
              var ym := Series.ParseYm(NormalizeDesc(row.time), "-").value;
              CanonicalKey(RowPoint(row, round1).value.x)
              && Series.ParseYm(RowPoint(row, round1).value.x, "-") == Some(ym)
              && RowPoint(row, round1).value.y == Series.RowValue(row, round1)
  {
    if RowPoint(row, round1).Some? {
      var ym := Series.ParseYm(NormalizeDesc(row.time), "-").value;
      Series.FormatYmRoundTrip(ym.0, ym.1);
    }
  }

  /** The collected points are exactly the points of the rows that yield one. */
  lemma {:induction false} CollectMembers(rows: seq<Series.Row>, round1: Series.Rounding, p: Series.Point)
    ensures p in Collect(rows, round1) <==> exists k :: 0 <= k < |rows| && RowPoint(rows[k], round1) == Some(p)
    decreases |rows|
  {
    if rows != [] {
      CollectMembers(rows[1..], round1, p);
      if exists k :: 0 <= k < |rows| && RowPoint(rows[k], round1) == Some(p) {
        var k :| 0 <= k < |rows| && RowPoint(rows[k], round1) == Some(p);
        if k > 0 {
          assert rows[1..][k - 1] == rows[k];
        }
      }
      if exists k :: 0 <= k < |rows[1..]| && RowPoint(rows[1..][k], round1) == Some(p) {
        var k :| 0 <= k < |rows[1..]| && RowPoint(rows[1..][k], round1) == Some(p);
        assert rows[k + 1] == rows[1..][k];
      }
    }
  }

  /** No point is collected exactly when no row yields one. */
  lemma {:induction false} CollectEmpty(rows: seq<Series.Row>, round1: Series.Rounding)
    ensures Collect(rows, round1) == [] <==> forall k :: 0 <= k < |rows| ==> RowPoint(rows[k], round1).None?
    decreases |rows|
  {
    if rows != [] {
      var tail := rows[1..];
      CollectEmpty(tail, round1);
      var h := match RowPoint(rows[0], round1) case None => [] case Some(p) => [p];
      var c := Collect(tail, round1);
      assert Collect(rows, round1) == h + c;
      assert |h + c| == |h| + |c|;
      assert h == [] <==> RowPoint(rows[0], round1).None?;
      NoneSplit(rows, round1);
    }
  }

  /** Every row of a non-empty list yields nothing exactly when the first
      row and every row of the tail yield nothing. */
  lemma NoneSplit(rows: seq<Series.Row>, round1: Series.Rounding)
    requires rows != []
    ensures (forall k :: 0 <= k < |rows| ==> RowPoint(rows[k], round1).None?) <==>
            RowPoint(rows[0], round1).None? && forall k :: 0 <= k < |rows[1..]| ==> RowPoint(rows[1..][k], round1).None?
  {
    var tail := rows[1..];
    if RowPoint(rows[0], round1).None? && forall k :: 0 <= k < |tail| ==> RowPoint(tail[k], round1).None? {
      forall k | 0 <= k < |rows| ensures RowPoint(rows[k], round1).None? {
        if k > 0 {
          assert rows[k] == tail[k - 1];
        }
      }
    }
    if forall k :: 0 <= k < |rows| ==> RowPoint(rows[k], round1).None? {
      forall k | 0 <= k < |tail| ensures RowPoint(tail[k], round1).None? {
        assert tail[k] == rows[k + 1];
      }
    }
  }

  /** Fewer than two sections is an error; otherwise the series holds exactly
      the points of the second section's rows, each under a canonical key,
      in ascending key order. */
  lemma TransformFacts(sections: seq<seq<Series.Row>>, round1: Series.Rounding)
    ensures Transform(sections, round1).Err? <==> |sections| < 2
    ensures Transform(sections, round1).Ok? ==>
              var s := Transform(sections, round1).value;
              |s| <= |sections[1]|
              && multiset(s) == multiset(Collect(sections[1], round1))
              && (forall i :: 0 <= i < |s| - 1 ==> Series.StrLe(s[i].x, s[i + 1].x))
              && forall p :: p in s <==>
                   exists k :: 0 <= k < |sections[1]| && RowPoint(sections[1][k], round1) == Some(p)
  {
    if |sections| >= 2 {
      var c := Collect(sections[1], round1);
      Series.SortByXFacts(c);
      var s := Series.SortByX(c);
      forall p
        ensures p in s <==> exists k :: 0 <= k < |sections[1]| && RowPoint(sections[1][k], round1) == Some(p)
      {
        CollectMembers(sections[1], round1, p);
        assert p in s <==> p in multiset(s);
        assert p in c <==> p in multiset(c);
      }
    }
  }

  /** Every point of the series has a canonical key. */
  lemma TransformKeysCanonical(sections: seq<seq<Series.Row>>, round1: Series.Rounding)
    requires |sections| >= 2
    ensures forall p :: p in Transform(sections, round1).value ==> CanonicalKey(p.x)
  {
    TransformFacts(sections, round1);
    forall p | p in Transform(sections, round1).value
      ensures CanonicalKey(p.x)
    {
      var k :| 0 <= k < |sections[1]| && RowPoint(sections[1][k], round1) == Some(p);
      RowPointFacts(sections[1][k], round1);
    }
  }

  /** The description is normalised exactly as the source's chain of
      replacements does: spaces deleted, then '년' replaced by '-', then '월'
      deleted. */
  lemma {:induction false} NormalizeDescIsReplaceChain(s: string)
    ensures NormalizeDesc(s) == DeleteChar(ReplaceChar(DeleteChar(s, ' '), '년', '-'), '월')
    decreases |s|
  {
    if s != [] {
      var c := s[0];
      NormalizeDescIsReplaceChain(s[1..]);
      assert s == [c] + s[1..];
      DeleteCharAppend([c], s[1..], ' ');
      var a := DeleteChar([c], ' ');
      var b := DeleteChar(s[1..], ' ');
      ReplaceCharAppend(a, b, '년', '-');
      DeleteCharAppend(ReplaceChar(a, '년', '-'), ReplaceChar(b, '년', '-'), '월');
      DescCharIsReplaceChain(c);
    }
  }

  /** One character through the chain of replacements. */
  lemma DescCharIsReplaceChain(c: char)
    ensures DescChar(c) == DeleteChar(ReplaceChar(DeleteChar([c], ' '), '년', '-'), '월')
  {
    assert [c][1..] == [];
    if c != ' ' {
      var d := if c == '년' then '-' else c;
      assert ReplaceChar([c], '년', '-') == [d];
      assert [d][1..] == [];
    }
  }

  /** `run()`: an error when the answer has fewer than two sections,
      otherwise the series is uploaded unless it is empty. */
  function Run(sections: seq<seq<Series.Row>>, round1: Series.Rounding): (r: Result<Series.Publication, string>)
  {
    match Transform(sections, round1)
    case Err(e) => Err(e)
    case Ok(s) => Ok(Series.Publish(s))
  }

  /** Nothing is uploaded exactly when no row of the second section yields a
      point; an upload reports as many rows as the series has. */
  lemma RunFacts(sections: seq<seq<Series.Row>>, round1: Series.Rounding)
    ensures Run(sections, round1).Err? <==> |sections| < 2
    ensures Run(sections, round1).Ok? ==>
              (Run(sections, round1).value.NoData? <==>
                 forall k :: 0 <= k < |sections[1]| ==> RowPoint(sections[1][k], round1).None?)
  {
    TransformFacts(sections, round1);
    if |sections| >= 2 {
      var s := Transform(sections, round1).value;
      if s != [] {
        var k :| 0 <= k < |sections[1]| && RowPoint(sections[1][k], round1) == Some(s[0]);
      } else {
        assert Collect(sections[1], round1) == [] by {
          assert multiset(Collect(sections[1], round1)) == multiset{};
        }
        CollectEmpty(sections[1], round1);
      }
    }
  }
}
