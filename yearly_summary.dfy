/**
 * The yearly summary (`get_market_summary`): group the market table by
 * exact year, sum the five numeric columns per group with the groups in
 * ascending year order, then add a percentage-change column for four of
 * them, each row compared with the row before it.
 *
 * Where the source yields NaN (the first row) or an infinity or NaN (a
 * previous value of zero), the model yields `None` instead of a number.
 */
module YearlySummary {
  import opened Wrappers
  import opened Market

  /** Every earlier element is smaller than every later one (so no year repeats). */
  ghost predicate StrictlyAscending(ys: seq<int>)
  {
    forall i, j :: 0 <= i < j < |ys| ==> ys[i] < ys[j]
  }

  /** Adds `y` to an ascending sequence of distinct years, unless it is there already. */
  function InsertYear(y: int, ys: seq<int>): (r: seq<int>)
    requires StrictlyAscending(ys)
    ensures StrictlyAscending(r)
    ensures forall x :: x in r <==> x == y || x in ys
  {
    if ys == [] then [y]
    else if y < ys[0] then
      assert forall k :: 0 <= k < |ys| ==> y < ys[k];
      [y] + ys
    else if y == ys[0] then ys
    else
      var rest := InsertYear(y, ys[1..]);
      AboveHead(ys, y, rest);
      [ys[0]] + rest
  }

  /** Prepending the head of `ys` to what inserting into its tail gave keeps the years ascending. */
  lemma {:induction false} AboveHead(ys: seq<int>, y: int, rest: seq<int>)
    requires StrictlyAscending(ys) && StrictlyAscending(rest)
    requires ys != [] && ys[0] < y
    requires forall x :: x in rest <==> x == y || x in ys[1..]
    ensures StrictlyAscending([ys[0]] + rest)
  {
    var r := [ys[0]] + rest;
    forall k | 0 <= k < |rest| ensures ys[0] < rest[k] {
      assert rest[k] in rest;
      if rest[k] != y {
        var m :| 0 <= m < |ys[1..]| && ys[1..][m] == rest[k];
        assert ys[m + 1] == rest[k];
      }
    }
    forall i, j | 0 <= i < j < |r| ensures r[i] < r[j] {
      if i == 0 {
        assert r[j] == rest[j - 1];
      } else {
        assert r[i] == rest[i - 1] && r[j] == rest[j - 1];
      }
    }
  }

  /** Some record of the table has year `y`. */
  ghost predicate HasYear(t: Table, y: int)
  {
    exists r :: r in t && r.year == y
  }

  /** The position of the first record of year `y`, or `|t|` when there is none. */
  function FirstOfYear(t: Table, y: int): (k: nat)
    ensures k <= |t|
    ensures k < |t| ==> t[k].year == y
    ensures k == |t| ==> forall r :: r in t ==> r.year != y
  {
    if t == [] then 0
    else if t[0].year == y then 0
    else
      assert forall r :: r in t ==> r == t[0] || r in t[1..];
      1 + FirstOfYear(t[1..], y)
  }

  /** The group keys of `groupby('year')`: each year present in the table once, ascending. */
  function Years(t: Table): (ys: seq<int>)
    ensures StrictlyAscending(ys)
    ensures forall r :: r in t ==> r.year in ys
    ensures forall y :: y in ys ==> FirstOfYear(t, y) < |t|
  {
    if t == [] then []
    else
      var ys := InsertYear(t[0].year, Years(t[1..]));
      assert forall r :: r in t <==> r == t[0] || r in t[1..];
      ys
  }

  /** One row of the summary before the growth columns are added. */
  datatype YearTotals = YearTotals(
    year: int,
    installedCapacityMw: real,
    generationGwh: real,
    marketValueMillionUsd: real,
    investmentMillionUsd: real,
    numberOfPlants: int)

  /** The value of column `c` in a summary row (the plant count read as a real). */
  function Total(g: YearTotals, c: Column): real
  {
    match c
    case InstalledCapacity => g.installedCapacityMw
    case Generation => g.generationGwh
    case MarketValue => g.marketValueMillionUsd
    case Investment => g.investmentMillionUsd
    case NumberOfPlants => g.numberOfPlants as real
  }

  /**
   * The `agg({...: 'sum'})` of the group of year `y`: each of the five
   * cells adds up its column over exactly the records of year `y`.
   */
  function Aggregate(t: Table, y: int): (g: YearTotals)
    ensures g.year == y
    ensures forall c :: Total(g, c) == SumWhere(t, y, c)
  {
    var f := Filter(t, y);
    SumPlantsIsColumnSum(f);
    assert forall c :: Sum(f, c) == SumWhere(t, y, c) by {
      forall c ensures Sum(f, c) == SumWhere(t, y, c) {
        FilteredSumIsMaskedSum(t, y, c);
      }
    }
    YearTotals(y, Sum(f, InstalledCapacity), Sum(f, Generation), Sum(f, MarketValue),
               Sum(f, Investment), SumPlants(f))
  }

  /** One aggregated row per year of `ys`, in the order of `ys`. */
  function GroupRows(t: Table, ys: seq<int>): (rows: seq<YearTotals>)
    ensures |rows| == |ys|
    ensures forall i :: 0 <= i < |ys| ==> rows[i].year == ys[i]
  {
    if ys == [] then [] else [Aggregate(t, ys[0])] + GroupRows(t, ys[1..])
  }

  /** The sum of column `c` over summary rows. */
  function SumTotals(rows: seq<YearTotals>, c: Column): real
  {
    if rows == [] then 0.0 else Total(rows[0], c) + SumTotals(rows[1..], c)
  }

  /**
   * One cell of `pct_change() * 100`: the change from `prev` to `cur` as a
   * percentage of `prev`, or no value when `prev` is zero (where the source
   * yields an infinity, or NaN when `cur` is zero too).
   */
  function Growth(prev: real, cur: real): (g: Option<real>)
    ensures g.None? <==> prev == 0.0
  {
    if prev == 0.0 then None else Some((cur / prev - 1.0) * 100.0)
  }

  /**
   * A growth value is the rate that takes `prev` to `cur`: it is
   * `(cur - prev) / prev * 100`, and growing `prev` by it gives `cur`.
   */
  lemma {:induction false} GrowthMeaning(prev: real, cur: real)
    requires prev != 0.0
    ensures Growth(prev, cur).Some?
    ensures cur == prev + prev * Growth(prev, cur).value / 100.0
    ensures Growth(prev, cur).value == (cur - prev) / prev * 100.0
  {
    var q := cur / prev;
    assert q * prev == cur;
  }

  /** The changes between neighbours: entry `i` compares `xs[i + 1]` with `xs[i]`. */
  function Changes(xs: seq<real>): (r: seq<Option<real>>)
    ensures |r| == if xs == [] then 0 else |xs| - 1
    ensures forall i :: 0 <= i < |r| ==> r[i] == Growth(xs[i], xs[i + 1])
  {
    if |xs| < 2 then [] else [Growth(xs[0], xs[1])] + Changes(xs[1..])
  }

  /**
   * `pct_change() * 100` on one column: positional, so the predecessor of
   * a row is the row before it however many years lie between them.
   */
  function PctChange(xs: seq<real>): (r: seq<Option<real>>)
    ensures |r| == |xs|
    ensures |xs| > 0 ==> r[0] == None
    ensures forall i :: 0 < i < |xs| ==> r[i] == Growth(xs[i - 1], xs[i])
  {
    if xs == [] then [] else [None] + Changes(xs)
  }

  /** Column `c` of the summary rows. */
  function ColumnOf(rows: seq<YearTotals>, c: Column): (xs: seq<real>)
    ensures |xs| == |rows|
    ensures forall i :: 0 <= i < |rows| ==> xs[i] == Total(rows[i], c)
  {
    seq(|rows|, i requires 0 <= i < |rows| => Total(rows[i], c))
  }

  /** The columns that receive a `<col>_growth_pct` column, in the order the source adds them. */
  const GrowthColumns: seq<Column> := [InstalledCapacity, Generation, MarketValue, Investment]

  /** The summary frame: the aggregated rows and the growth columns added to them, by source column. */
  datatype Summary = Summary(rows: seq<YearTotals>, growthPct: map<Column, seq<Option<real>>>)

  /**
   * The growth columns added to the summary rows for the columns `cs`, one
   * after another, keyed by the column they are computed from.
   */
  function GrowthFor(rows: seq<YearTotals>, cs: seq<Column>): map<Column, seq<Option<real>>>
  {
    if cs == [] then map[]
    else
      var c := cs[|cs| - 1];
      GrowthFor(rows, cs[..|cs| - 1])[c := PctChange(ColumnOf(rows, c))]
  }

  /** The growth columns of the summary: one per growth column, each its column's row-to-row change. */
  function GrowthTable(rows: seq<YearTotals>): (g: map<Column, seq<Option<real>>>)
    ensures forall c :: c in g <==> c in GrowthColumns
    ensures forall c :: c in g ==> g[c] == PctChange(ColumnOf(rows, c))
  {
    GrowthForShape(rows, GrowthColumns);
    GrowthFor(rows, GrowthColumns)
  }

  /** Adding the growth columns `cs` gives exactly those keys, each holding its column's row-to-row change. */
  lemma {:induction false} GrowthForShape(rows: seq<YearTotals>, cs: seq<Column>)
    ensures forall c :: c in GrowthFor(rows, cs) <==> c in cs
    ensures forall c :: c in GrowthFor(rows, cs) ==> GrowthFor(rows, cs)[c] == PctChange(ColumnOf(rows, c))
  {
    if cs != [] {
      var init := cs[..|cs| - 1];
      GrowthForShape(rows, init);
      assert cs == init + [cs[|cs| - 1]];
      assert forall c :: c in cs <==> c in init || c == cs[|cs| - 1];
    }
  }

  /** The yearly summary of a table: every row is the aggregate of its own year. */
  function MarketSummary(t: Table): (s: Summary)
    ensures forall i :: 0 <= i < |s.rows| ==> s.rows[i] == Aggregate(t, s.rows[i].year)
  {
    var ys := Years(t);
    var rows := GroupRows(t, ys);
    assert forall i :: 0 <= i < |rows| ==> rows[i] == Aggregate(t, ys[i]) by {
      forall i | 0 <= i < |rows| ensures rows[i] == Aggregate(t, ys[i]) {
        GroupRowAt(t, ys, i);
      }
    }
    Summary(rows, GrowthTable(rows))
  }

  /**
   * The summary has a growth column for capacity, generation, market value
   * and investment and none for the plant count; each has one entry per
   * row; the first row has no growth; every later row is compared with the
   * row just before it, whatever years lie between them.
   */
  lemma {:induction false} SummaryGrowthColumns(t: Table)
    ensures var s := MarketSummary(t);
      && s.growthPct.Keys == {InstalledCapacity, Generation, MarketValue, Investment}
      && NumberOfPlants !in s.growthPct
      && (forall c :: c in s.growthPct ==> |s.growthPct[c]| == |s.rows|)
      && (forall c :: c in s.growthPct && |s.rows| > 0 ==> s.growthPct[c][0] == None)
      && (forall c, i :: c in s.growthPct && 0 < i < |s.rows| ==>
            s.growthPct[c][i] == Growth(Total(s.rows[i - 1], c), Total(s.rows[i], c)))
  {
    var s := MarketSummary(t);
    assert s.growthPct == GrowthTable(s.rows);
    GrowthTableColumns(s.rows);
  }

  /** The growth table of any rows, described column by column and row by row. */
  lemma {:induction false} GrowthTableColumns(rows: seq<YearTotals>)
    ensures var g := GrowthTable(rows);
      && g.Keys == {InstalledCapacity, Generation, MarketValue, Investment}
      && NumberOfPlants !in g
      && (forall c :: c in g ==> |g[c]| == |rows|)
      && (forall c :: c in g && |rows| > 0 ==> g[c][0] == None)
      && (forall c, i :: c in g && 0 < i < |rows| ==>
            g[c][i] == Growth(Total(rows[i - 1], c), Total(rows[i], c)))
  {
    var g := GrowthTable(rows);
    assert forall c :: c in g <==> c != NumberOfPlants;
    forall c, i | c in g && 0 < i < |rows|
      ensures g[c][i] == Growth(Total(rows[i - 1], c), Total(rows[i], c))
    {
      var xs := ColumnOf(rows, c);
      assert g[c][i] == Growth(xs[i - 1], xs[i]);
    }
  }

  /**
   * `get_market_summary` as the source runs it: build the grouped frame,
   * then add the growth columns one at a time in the `for col in ...` loop.
   */
  method GetMarketSummary(t: Table) returns (s: Summary)
    ensures s == MarketSummary(t)
  {
    var rows := GroupRows(t, Years(t));
    var growth: map<Column, seq<Option<real>>> := map[];
    for k := 0 to |GrowthColumns|
      invariant growth == GrowthFor(rows, GrowthColumns[..k])
    {
      var c := GrowthColumns[k];
      assert GrowthColumns[..k + 1][..k] == GrowthColumns[..k];
      growth := growth[c := PctChange(ColumnOf(rows, c))];
    }
    assert GrowthColumns[..|GrowthColumns|] == GrowthColumns;
    s := Summary(rows, growth);
  }

  /**
   * One row per distinct year of the input, strictly ascending by year:
   * every record's year has a row and every row's year has a record.
   */
  lemma {:induction false} SummaryOneRowPerYear(t: Table)
    ensures var rows := MarketSummary(t).rows;
      && (forall i, j :: 0 <= i < j < |rows| ==> rows[i].year < rows[j].year)
      && (forall r :: r in t ==> exists i :: 0 <= i < |rows| && rows[i].year == r.year)
      && (forall i :: 0 <= i < |rows| ==> HasYear(t, rows[i].year))
  {
    var ys := Years(t);
    var rows := MarketSummary(t).rows;
    assert rows == GroupRows(t, ys);
    RowsCoverRecords(t, ys, rows);
    RowsHaveRecords(t, ys, rows);
  }

  /** Rows labelled by keys that cover every record's year have a row for every record. */
  lemma {:induction false} RowsCoverRecords(t: Table, ys: seq<int>, rows: seq<YearTotals>)
    requires forall r :: r in t ==> r.year in ys
    requires |rows| == |ys|
    requires forall i :: 0 <= i < |ys| ==> rows[i].year == ys[i]
    ensures forall r :: r in t ==> exists i :: 0 <= i < |rows| && rows[i].year == r.year
  {
    forall r | r in t
      ensures exists i :: 0 <= i < |rows| && rows[i].year == r.year
    {
      var i :| 0 <= i < |ys| && ys[i] == r.year;
      assert rows[i].year == r.year;
    }
  }

  /** Rows labelled by keys that all occur in the table each have a record. */
  lemma {:induction false} RowsHaveRecords(t: Table, ys: seq<int>, rows: seq<YearTotals>)
    requires forall y :: y in ys ==> FirstOfYear(t, y) < |t|
    requires |rows| == |ys|
    requires forall i :: 0 <= i < |ys| ==> rows[i].year == ys[i]
    ensures forall i :: 0 <= i < |rows| ==> HasYear(t, rows[i].year)
  {
    forall i | 0 <= i < |rows|
      ensures HasYear(t, rows[i].year)
    {
      assert ys[i] in ys;
      assert t[FirstOfYear(t, ys[i])] in t;
    }
  }

  /** Row `i` of the aggregation is the group of row `i`'s year. */
  lemma {:induction false} GroupRowAt(t: Table, ys: seq<int>, i: int)
    requires 0 <= i < |ys|
    ensures GroupRows(t, ys)[i] == Aggregate(t, ys[i])
  {
    if i > 0 {
      GroupRowAt(t, ys[1..], i - 1);
    }
  }

  /**
   * Each summed cell of the summary equals the brute-force sum of that
   * column over exactly the input records of that row's year.
   */
  lemma {:induction false} SummaryRowSums(t: Table, i: int, c: Column)
    requires 0 <= i < |MarketSummary(t).rows|
    ensures Total(MarketSummary(t).rows[i], c) == SumWhere(t, MarketSummary(t).rows[i].year, c)
  {
    var ys := Years(t);
    GroupRowAt(t, ys, i);
    SumPlantsIsColumnSum(Filter(t, ys[i]));
    FilteredSumIsMaskedSum(t, ys[i], c);
  }

  /** Summing the groups of distinct years adds each record whose year is listed exactly once. */
  lemma {:induction false} GroupsOfRecord(t: Table, ys: seq<int>, c: Column)
    requires StrictlyAscending(ys)
    requires t != []
    ensures SumTotals(GroupRows(t, ys), c)
         == SumTotals(GroupRows(t[1..], ys), c) + (if t[0].year in ys then Field(t[0], c) else 0.0)
  {
    if ys != [] {
      GroupsOfRecord(t, ys[1..], c);
      var y := ys[0];
      var head := if t[0].year == y then [t[0]] else [];
      assert Filter(t, y) == head + Filter(t[1..], y);
      SumAppend(head, Filter(t[1..], y), c);
      SumPlantsIsColumnSum(Filter(t, y));
      SumPlantsIsColumnSum(Filter(t[1..], y));
      assert t[0].year == y ==> t[0].year !in ys[1..];
    }
  }

  /** Groups over a list of distinct years that covers every record's year sum to the table's total. */
  lemma {:induction false} GroupsPreserveTotal(t: Table, ys: seq<int>, c: Column)
    requires StrictlyAscending(ys)
    requires forall r :: r in t ==> r.year in ys
    ensures SumTotals(GroupRows(t, ys), c) == Sum(t, c)
  {
    if t == [] {
      EmptyGroups(ys, c);
    } else {
      GroupsOfRecord(t, ys, c);
      GroupsPreserveTotal(t[1..], ys, c);
    }
  }

  /** Grouping an empty table yields rows whose totals are all zero. */
  lemma {:induction false} EmptyGroups(ys: seq<int>, c: Column)
    ensures SumTotals(GroupRows([], ys), c) == 0.0
  {
    if ys != [] {
      EmptyGroups(ys[1..], c);
    }
  }

  /**
   * Grouping loses and duplicates nothing: each summed column, added up
   * over the summary rows, equals that column added up over the input.
   */
  lemma {:induction false} SummaryPreservesTotal(t: Table, c: Column)
    ensures SumTotals(MarketSummary(t).rows, c) == Sum(t, c)
  {
    GroupsPreserveTotal(t, Years(t), c);
  }
}
