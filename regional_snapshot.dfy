/**
 * The regional snapshot (`get_regional_analysis`): keep the records of the
 * latest year, in input order and unchanged, and give each one its share
 * of that year's total capacity and total market value, as percentages.
 *
 * Where the source divides by a zero total (NaN or an infinity) the model
 * yields `None`. On an empty table the source does not fail: the maximum
 * year is NaN, the mask keeps nothing and the result is an empty frame;
 * the model returns no rows.
 */
module RegionalSnapshot {
  import opened Wrappers
  import opened Market

  /** `df['year'].max()`, or no value for an empty table. */
  function LatestYear(t: Table): (y: Option<int>)
    ensures y.None? <==> t == []
    ensures y.Some? ==> exists r :: r in t && r.year == y.value
    ensures y.Some? ==> forall r :: r in t ==> r.year <= y.value
  {
    if t == [] then None
    else
      var rest := LatestYear(t[1..]);
      assert forall r :: r in t ==> r == t[0] || r in t[1..];
      if rest.None? || rest.value <= t[0].year then Some(t[0].year) else rest
  }

  /**
   * The records kept by the mask `df['year'] == latest_year`: exactly the
   * records whose year no other record exceeds, none of them only for the
   * empty table.
   */
  function LatestRecords(t: Table): (rs: Table)
    ensures rs == [] <==> t == []
    ensures forall r :: r in rs <==> r in t && forall q :: q in t ==> q.year <= r.year
  {
    match LatestYear(t)
    case None => []
    case Some(y) =>
      var f := Filter(t, y);
      var top :| top in t && top.year == y;
      assert top in f;
      assert forall r :: r in t && (forall q :: q in t ==> q.year <= r.year) ==> r.year == y by {
        forall r | r in t && (forall q :: q in t ==> q.year <= r.year) ensures r.year == y {
          assert top.year <= r.year;
        }
      }
      f
  }

  /** One row of the snapshot: the original record and its two shares. */
  datatype SnapshotRow = SnapshotRow(record: Record, capacitySharePct: Option<real>, valueSharePct: Option<real>)

  /** `x / total * 100`, or no value when the total is zero. */
  function Share(x: real, total: real): (s: Option<real>)
    ensures s.None? <==> total == 0.0
  {
    if total == 0.0 then None else Some(x / total * 100.0)
  }

  /** A share is the percentage that, applied to the total, gives the part. */
  lemma {:induction false} ShareMeaning(x: real, total: real)
    requires total != 0.0
    ensures Share(x, total).Some?
    ensures Share(x, total).value * total == x * 100.0
  {
    var q := x / total;
    assert q * total == x;
  }

  /** The two share columns the snapshot adds. */
  datatype ShareColumn = CapacityShare | ValueShare

  /** The source column a share column is computed from. */
  function Base(k: ShareColumn): Column
  {
    match k
    case CapacityShare => InstalledCapacity
    case ValueShare => MarketValue
  }

  /** The share cell of column `k` in a snapshot row. */
  function SharePct(row: SnapshotRow, k: ShareColumn): Option<real>
  {
    match k
    case CapacityShare => row.capacitySharePct
    case ValueShare => row.valueSharePct
  }

  /** The records of the snapshot rows, in row order. */
  function Records(rows: seq<SnapshotRow>): (rs: Table)
    ensures |rs| == |rows|
    ensures forall i :: 0 <= i < |rows| ==> rs[i] == rows[i].record
  {
    seq(|rows|, i requires 0 <= i < |rows| => rows[i].record)
  }

  /** The regional snapshot of a table. */
  function RegionalAnalysis(t: Table): (rows: seq<SnapshotRow>)
    ensures Records(rows) == LatestRecords(t)
    ensures forall i, k :: 0 <= i < |rows| ==>
              SharePct(rows[i], k) == Share(Field(rows[i].record, Base(k)), Sum(LatestRecords(t), Base(k)))
  {
    var latest := LatestRecords(t);
    var totalCapacity := Sum(latest, InstalledCapacity);
    var totalValue := Sum(latest, MarketValue);
    seq(|latest|, i requires 0 <= i < |latest| =>
      SnapshotRow(latest[i], Share(latest[i].installedCapacityMw, totalCapacity),
                  Share(latest[i].marketValueMillionUsd, totalValue)))
  }

  /**
   * When `y` is the largest year in the table, the snapshot keeps exactly
   * the records of year `y`, unchanged and in their input order, each as
   * often as it occurs in the input.
   */
  lemma {:induction false} SnapshotRows(t: Table, y: int)
    requires exists r :: r in t && r.year == y
    requires forall r :: r in t ==> r.year <= y
    ensures Records(RegionalAnalysis(t)) == Filter(t, y)
    ensures forall r :: multiset(Records(RegionalAnalysis(t)))[r] == if r.year == y then multiset(t)[r] else 0
  {
    var latest := LatestYear(t);
    assert latest == Some(y) by {
      var r :| r in t && r.year == y;
      var q :| q in t && q.year == latest.value;
    }
    forall r: Record ensures multiset(Filter(t, y))[r] == if r.year == y then multiset(t)[r] else 0 {
      FilterMultiplicity(t, y, r);
    }
  }

  /** The sum of share column `k` over the rows, a missing share adding nothing. */
  function SumShares(rows: seq<SnapshotRow>, k: ShareColumn): real
  {
    if rows == [] then 0.0
    else (match SharePct(rows[0], k) case Some(v) => v case None => 0.0) + SumShares(rows[1..], k)
  }

  /** Shares of a fixed non-zero total add up to the records' sum as a percentage of it. */
  lemma {:induction false} SharesOfSuffix(t: Table, rows: seq<SnapshotRow>, k: ShareColumn, total: real)
    requires total != 0.0
    requires Records(rows) == t
    requires forall i :: 0 <= i < |rows| ==> SharePct(rows[i], k) == Share(Field(t[i], Base(k)), total)
    ensures SumShares(rows, k) * total == Sum(t, Base(k)) * 100.0
  {
    if rows != [] {
      assert Records(rows[1..]) == t[1..];
      SharesOfSuffix(t[1..], rows[1..], k, total);
      var v := SharePct(rows[0], k).value;
      ShareMeaning(Field(t[0], Base(k)), total);
      assert v * total == Field(t[0], Base(k)) * 100.0;
      calc {
        SumShares(rows, k) * total;
        (v + SumShares(rows[1..], k)) * total;
        v * total + SumShares(rows[1..], k) * total;
        Field(t[0], Base(k)) * 100.0 + Sum(t[1..], Base(k)) * 100.0;
      }
    }
  }

  /**
   * Whenever the latest year's total of a share's base column is non-zero
   * (in particular when it is positive), that share column sums to exactly
   * 100 over the snapshot.
   */
  lemma {:induction false} SharesSumTo100(t: Table, k: ShareColumn)
    requires Sum(LatestRecords(t), Base(k)) != 0.0
    ensures SumShares(RegionalAnalysis(t), k) == 100.0
  {
    var latest := LatestRecords(t);
    var rows := RegionalAnalysis(t);
    assert Records(rows) == latest;
    assert forall i :: 0 <= i < |rows| ==> rows[i].record == latest[i];
    SharesOfWholeTotal(latest, rows, k);
  }

  /** Shares of the records' own non-zero total add up to exactly 100. */
  lemma {:induction false} SharesOfWholeTotal(t: Table, rows: seq<SnapshotRow>, k: ShareColumn)
    requires Sum(t, Base(k)) != 0.0
    requires Records(rows) == t
    requires forall i :: 0 <= i < |rows| ==> SharePct(rows[i], k) == Share(Field(t[i], Base(k)), Sum(t, Base(k)))
    ensures SumShares(rows, k) == 100.0
  {
    SharesOfSuffix(t, rows, k, Sum(t, Base(k)));
    CancelFactor(SumShares(rows, k), 100.0, Sum(t, Base(k)));
  }

  /** A non-zero factor cancels on both sides of an equation. */
  lemma {:induction false} CancelFactor(a: real, b: real, f: real)
    requires f != 0.0
    requires a * f == b * f
    ensures a == b
  {
    assert (a - b) * f == 0.0;
  }

  /** When the latest year's total of a base column is zero, no row has that share. */
  lemma {:induction false} SharesUndefinedOnZeroTotal(t: Table, k: ShareColumn)
    requires Sum(LatestRecords(t), Base(k)) == 0.0
    ensures forall i :: 0 <= i < |RegionalAnalysis(t)| ==> SharePct(RegionalAnalysis(t)[i], k) == None
  {
  }

  /**
   * With no negative value in the base column, every share lies between 0
   * and 100 when the total is positive.
   */
  lemma {:induction false} ShareBounds(t: Table, k: ShareColumn, i: int)
    requires forall r :: r in t ==> Field(r, Base(k)) >= 0.0
    requires Sum(LatestRecords(t), Base(k)) > 0.0
    requires 0 <= i < |RegionalAnalysis(t)|
    ensures SharePct(RegionalAnalysis(t)[i], k).Some?
    ensures 0.0 <= SharePct(RegionalAnalysis(t)[i], k).value <= 100.0
  {
    var latest := LatestRecords(t);
    var total := Sum(latest, Base(k));
    var x := Field(latest[i], Base(k));
    assert SharePct(RegionalAnalysis(t)[i], k) == Share(x, total);
    assert 0.0 <= x <= total by {
      forall j | 0 <= j < |latest| ensures Field(latest[j], Base(k)) >= 0.0 {
        assert latest[j] in latest;
      }
      FieldAtMostSum(latest, Base(k), i);
    }
    ShareInRange(x, total);
  }

  /** The share of a part between zero and a positive total lies in [0, 100]. */
  lemma {:induction false} ShareInRange(x: real, total: real)
    requires 0.0 <= x <= total
    requires 0.0 < total
    ensures Share(x, total).Some?
    ensures 0.0 <= Share(x, total).value <= 100.0
  {
    ShareMeaning(x, total);
    PercentBounds(Share(x, total).value, x, total);
  }

  /** A percentage of a positive total, of a part between zero and the total, lies in [0, 100]. */
  lemma {:induction false} PercentBounds(v: real, x: real, total: real)
    requires 0.0 <= x <= total
    requires 0.0 < total
    requires v * total == x * 100.0
    ensures 0.0 <= v <= 100.0
  {
  }
}
