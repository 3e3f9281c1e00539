/** Worked examples of the two aggregations on small tables. */
module Scenarios {
  import opened Wrappers
  import opened Market
  import opened YearlySummary
  import opened RegionalSnapshot

  /** One region over two consecutive years. */
  const TwoYears: Table := [Record(2020, "N", 100.0, 50.0, 10.0, 5.0, 1), Record(2021, "N", 150.0, 75.0, 15.0, 8.0, 1)]

  /** Two regions in 2019, one in 2021, none in 2020, in no particular order. */
  const GapYears: Table := [Record(2021, "N", 120.0, 0.0, 0.0, 0.0, 1), Record(2019, "N", 50.0, 0.0, 0.0, 0.0, 1),
                            Record(2019, "S", 50.0, 0.0, 0.0, 0.0, 2)]

  /** Two regions in the only year. */
  const OneYear: Table := [Record(2021, "N", 150.0, 0.0, 15.0, 0.0, 1), Record(2021, "S", 50.0, 0.0, 5.0, 0.0, 1)]

  /** The summary rows of a table are its groups in ascending year order. */
  lemma {:induction false} SummaryRowsAreGroups(t: Table)
    ensures MarketSummary(t).rows == GroupRows(t, Years(t))
  {
  }

  /** A growth column of two rows compares the second row with the first. */
  lemma {:induction false} GrowthOfPair(rows: seq<YearTotals>, c: Column, first: real, second: real)
    requires |rows| == 2
    requires c in GrowthColumns
    requires Total(rows[0], c) == first && Total(rows[1], c) == second
    ensures GrowthTable(rows)[c] == [None, Growth(first, second)]
  {
  }

  /** The group keys of `TwoYears`. */
  lemma {:induction false} TwoYearYears()
    ensures Years(TwoYears) == [2020, 2021]
  {
    assert Years(TwoYears[1..]) == [2021];
  }

  /** The aggregated rows of `TwoYears`, one per year. */
  lemma {:induction false} TwoYearGroups()
    ensures GroupRows(TwoYears, [2020, 2021])
         == [YearTotals(2020, 100.0, 50.0, 10.0, 5.0, 1), YearTotals(2021, 150.0, 75.0, 15.0, 8.0, 1)]
  {
    var t := TwoYears;
    assert Filter(t, 2020) == [t[0]];
    assert Filter(t, 2021) == [t[1]];
  }

  /** The growth cells of the two-year example, as numbers. */
  lemma {:induction false} TwoYearGrowthValues()
    ensures Growth(100.0, 150.0) == Some(50.0)
    ensures Growth(50.0, 75.0) == Some(50.0)
    ensures Growth(10.0, 15.0) == Some(50.0)
    ensures Growth(5.0, 8.0) == Some(60.0)
  {
  }

  /** The summary rows of `TwoYears`. */
  lemma {:induction false} TwoYearRows(t: Table)
    requires t == TwoYears
    ensures MarketSummary(t).rows
         == [YearTotals(2020, 100.0, 50.0, 10.0, 5.0, 1), YearTotals(2021, 150.0, 75.0, 15.0, 8.0, 1)]
  {
    TwoYearYears();
    TwoYearGroups();
    SummaryRowsAreGroups(t);
  }

  /** The growth columns of the two-year rows. */
  lemma {:induction false} TwoYearGrowth(rows: seq<YearTotals>)
    requires rows == [YearTotals(2020, 100.0, 50.0, 10.0, 5.0, 1), YearTotals(2021, 150.0, 75.0, 15.0, 8.0, 1)]
    ensures GrowthTable(rows)[InstalledCapacity] == [None, Some(50.0)]
    ensures GrowthTable(rows)[Generation] == [None, Some(50.0)]
    ensures GrowthTable(rows)[MarketValue] == [None, Some(50.0)]
    ensures GrowthTable(rows)[Investment] == [None, Some(60.0)]
  {
    GrowthOfPair(rows, InstalledCapacity, 100.0, 150.0);
    GrowthOfPair(rows, Generation, 50.0, 75.0);
    GrowthOfPair(rows, MarketValue, 10.0, 15.0);
    GrowthOfPair(rows, Investment, 5.0, 8.0);
    TwoYearGrowthValues();
  }

  /**
   * One region over 2020 and 2021: one row per year, and the second row
   * grows by 50% in three columns and by 60% in investment.
   */
  lemma {:induction false} TwoYearSummary(t: Table)
    requires t == TwoYears
    ensures var s := MarketSummary(t);
      && s.rows == [YearTotals(2020, 100.0, 50.0, 10.0, 5.0, 1), YearTotals(2021, 150.0, 75.0, 15.0, 8.0, 1)]
      && s.growthPct[InstalledCapacity] == [None, Some(50.0)]
      && s.growthPct[Generation] == [None, Some(50.0)]
      && s.growthPct[MarketValue] == [None, Some(50.0)]
      && s.growthPct[Investment] == [None, Some(60.0)]
  {
    TwoYearRows(t);
    var s := MarketSummary(t);
    assert s.growthPct == GrowthTable(s.rows);
    TwoYearGrowth(s.rows);
  }

  /** The group keys of `GapYears`. */
  lemma {:induction false} GapYearYears()
    ensures Years(GapYears) == [2019, 2021]
  {
    var t := GapYears;
    assert Years(t[2..]) == [2019];
    assert Years(t[1..]) == [2019];
  }

  /** The aggregated rows of `GapYears`, the two 2019 regions added up. */
  lemma {:induction false} GapYearGroups()
    ensures GroupRows(GapYears, [2019, 2021])
         == [YearTotals(2019, 100.0, 0.0, 0.0, 0.0, 3), YearTotals(2021, 120.0, 0.0, 0.0, 0.0, 1)]
  {
    var t := GapYears;
    assert Filter(t, 2019) == [t[1], t[2]];
    assert Filter(t, 2021) == [t[0]];
  }

  /** The summary rows of `GapYears`. */
  lemma {:induction false} GapYearRows(t: Table)
    requires t == GapYears
    ensures MarketSummary(t).rows
         == [YearTotals(2019, 100.0, 0.0, 0.0, 0.0, 3), YearTotals(2021, 120.0, 0.0, 0.0, 0.0, 1)]
  {
    GapYearYears();
    GapYearGroups();
    SummaryRowsAreGroups(t);
  }

  /** Two growth columns of the rows with a missing year. */
  lemma {:induction false} GapYearGrowth(rows: seq<YearTotals>)
    requires rows == [YearTotals(2019, 100.0, 0.0, 0.0, 0.0, 3), YearTotals(2021, 120.0, 0.0, 0.0, 0.0, 1)]
    ensures GrowthTable(rows)[InstalledCapacity] == [None, Some(20.0)]
    ensures GrowthTable(rows)[Generation] == [None, None]
  {
    GrowthOfPair(rows, InstalledCapacity, 100.0, 120.0);
    GrowthOfPair(rows, Generation, 0.0, 0.0);
    assert Growth(100.0, 120.0) == Some(20.0);
  }

  /**
   * Rows are compared with the previous row, not the previous calendar
   * year: with 2020 absent, 2021 is compared with 2019 (whose two regions
   * are added up first); a previous value of zero gives no growth.
   */
  lemma {:induction false} GrowthAcrossMissingYear(t: Table)
    requires t == GapYears
    ensures var s := MarketSummary(t);
      && s.rows == [YearTotals(2019, 100.0, 0.0, 0.0, 0.0, 3), YearTotals(2021, 120.0, 0.0, 0.0, 0.0, 1)]
      && s.growthPct[InstalledCapacity] == [None, Some(20.0)]
      && s.growthPct[Generation] == [None, None]
  {
    GapYearRows(t);
    var s := MarketSummary(t);
    assert s.growthPct == GrowthTable(s.rows);
    GapYearGrowth(s.rows);
  }

  /** Two regions in the only year: shares of 75% and 25% in both columns. */
  lemma {:induction false} TwoRegionSnapshot(t: Table)
    requires t == OneYear
    ensures var rows := RegionalAnalysis(t);
      && |rows| == 2
      && rows[0] == SnapshotRow(t[0], Some(75.0), Some(75.0))
      && rows[1] == SnapshotRow(t[1], Some(25.0), Some(25.0))
  {
    OneYearLatest();
    assert Sum(t, InstalledCapacity) == 200.0 && Sum(t, MarketValue) == 20.0;
    OneYearShares();
  }

  /** Every record of `OneYear` is in the latest year. */
  lemma {:induction false} OneYearLatest()
    ensures LatestRecords(OneYear) == OneYear
  {
    assert LatestYear(OneYear) == Some(2021);
  }

  /** The share cells of the one-year example, as numbers. */
  lemma {:induction false} OneYearShares()
    ensures Share(150.0, 200.0) == Some(75.0) && Share(50.0, 200.0) == Some(25.0)
    ensures Share(15.0, 20.0) == Some(75.0) && Share(5.0, 20.0) == Some(25.0)
  {
  }

  /** An empty table gives an empty snapshot and an empty summary, not an error. */
  lemma {:induction false} EmptyTable()
    ensures RegionalAnalysis([]) == []
    ensures MarketSummary([]).rows == []
    ensures forall c :: c in MarketSummary([]).growthPct ==> MarketSummary([]).growthPct[c] == []
  {
  }
}
