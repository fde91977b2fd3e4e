/**
 The two aggregates drawn from the filtered view: total weight per region (the
 bar chart) and total weight per calendar month, each month re-expanded to
 the timestamp of its first day (the line chart). Both are grouped with
 sorted keys.
 */
module Summaries {
  import opened Observations
  import opened Ordering
  import opened GroupSum

  /** Total weight per region, regions in ascending string order. */
  function RegionSummary(rows: seq<Row>): seq<(string, real)> {
    GroupBy(rows, RegionOf, StrLess)
  }

  /** Total weight per monthly period, periods in chronological order. */
  function MonthlyTotals(rows: seq<Row>): seq<(YearMonth, real)> {
    GroupBy(rows, MonthOf, MonthLess)
  }

  /** Replaces each monthly period by the timestamp of its first day. */
  function ToTimestamps(g: seq<(YearMonth, real)>): (t: seq<(Date, real)>)
    ensures |t| == |g|
    ensures forall i :: 0 <= i < |g| ==> t[i].0 == MonthStart(g[i].0) && t[i].1 == g[i].1
  {
    if g == [] then [] else [(MonthStart(g[0].0), g[0].1)] + ToTimestamps(g[1..])
  }

  /** The time series: per-month totals keyed by the first day of the month. */
  function MonthlySummary(rows: seq<Row>): seq<(Date, real)> {
    ToTimestamps(MonthlyTotals(rows))
  }

  lemma {:induction false} ToTimestampsSum(g: seq<(YearMonth, real)>)
    ensures SumTotals(ToTimestamps(g)) == SumTotals(g)
  {
    if g != [] {
      ToTimestampsSum(g[1..]);
    }
  }

  /**
   One entry per region present in the rows and none for an absent region;
   regions ascending; each entry holds the weight of its region's rows; the
   totals add up to the weight of all rows.
   */
  lemma RegionSummaryCorrect(rows: seq<Row>)
    ensures var s := RegionSummary(rows);
      && KeySet(s) == (set r | r in rows :: r.region)
      && |s| <= |rows|
      && Ascending(s, StrLess)
      && (forall i :: 0 <= i < |s| ==> s[i].1 == WeightWhere(rows, RegionOf, s[i].0))
      && SumTotals(s) == TotalWeight(rows)
  {
    StrLessIsStrictTotalOrder();
    GroupByKeys(rows, RegionOf, StrLess);
    assert (set r | r in rows :: RegionOf(r)) == (set r | r in rows :: r.region);
    GroupByAscending(rows, RegionOf, StrLess);
    GroupByEntries(rows, RegionOf, StrLess);
    GroupBySum(rows, RegionOf, StrLess);
  }

  /**
   Every timestamp is the first day of the month of some row, and every row's
   month has its timestamp.
   */
  lemma MonthlySummaryKeys(rows: seq<Row>)
    ensures var t := MonthlySummary(rows);
      && |t| <= |rows|
      && (forall i :: 0 <= i < |t| ==>
            t[i].0.day == 1 && exists r :: r in rows && YearMonthOf(r.date) == YearMonthOf(t[i].0))
      && (forall r :: r in rows ==> exists i :: 0 <= i < |t| && t[i].0 == MonthStart(YearMonthOf(r.date)))
  {
    var g := MonthlyTotals(rows);
    var t := MonthlySummary(rows);
    GroupByKeys(rows, MonthOf, MonthLess);
    forall i | 0 <= i < |t|
      ensures exists r :: r in rows && YearMonthOf(r.date) == YearMonthOf(t[i].0)
    {
      assert g[i].0 in KeySet(g);
      var r :| r in rows && MonthOf(r) == g[i].0;
    }
    forall r | r in rows ensures exists i :: 0 <= i < |t| && t[i].0 == MonthStart(YearMonthOf(r.date)) {
      assert MonthOf(r) in KeySet(g);
      var i :| 0 <= i < |g| && g[i].0 == MonthOf(r);
      assert t[i].0 == MonthStart(g[i].0);
    }
  }

  /** The months come out in chronological order, without repetition. */
  lemma MonthlySummaryAscending(rows: seq<Row>)
    ensures var t := MonthlySummary(rows);
      forall i, j :: 0 <= i < j < |t| ==> MonthLess(YearMonthOf(t[i].0), YearMonthOf(t[j].0))
  {
    MonthLessIsStrictTotalOrder();
    GroupByAscending(rows, MonthOf, MonthLess);
  }

  /** Each entry holds the weight of its month's rows; the totals add up to the weight of all rows. */
  lemma MonthlySummaryTotals(rows: seq<Row>)
    ensures var t := MonthlySummary(rows);
      && (forall i :: 0 <= i < |t| ==> t[i].1 == WeightWhere(rows, MonthOf, YearMonthOf(t[i].0)))
      && SumTotals(t) == TotalWeight(rows)
  {
    MonthLessIsStrictTotalOrder();
    GroupByEntries(rows, MonthOf, MonthLess);
    GroupBySum(rows, MonthOf, MonthLess);
    ToTimestampsSum(MonthlyTotals(rows));
  }

  /** Rows with parseable dates give valid first-of-month timestamps. */
  lemma MonthlySummaryValidDates(rows: seq<Row>)
    requires forall i :: 0 <= i < |rows| ==> ValidDate(rows[i].date)
    ensures forall i :: 0 <= i < |MonthlySummary(rows)| ==> ValidDate(MonthlySummary(rows)[i].0)
  {
    var t := MonthlySummary(rows);
    MonthlySummaryKeys(rows);
    forall i | 0 <= i < |t| ensures ValidDate(t[i].0) {
      var r :| r in rows && YearMonthOf(r.date) == YearMonthOf(t[i].0);
    }
  }
}
