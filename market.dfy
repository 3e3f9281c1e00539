/**
 * The market table: one record per (year, region), and the column
 * arithmetic that both aggregations share (column sums and the filter on
 * an exact year).
 */
module Market {

  /** One row of the raw market table. Every numeric field is present. */
  datatype Record = Record(
    year: int,
    region: string,
    installedCapacityMw: real,
    generationGwh: real,
    marketValueMillionUsd: real,
    investmentMillionUsd: real,
    numberOfPlants: int)

  /** A table is an ordered sequence of records; it has no primary key. */
  type Table = seq<Record>

  /** The five numeric columns that the yearly summary adds up. */
  datatype Column = InstalledCapacity | Generation | MarketValue | Investment | NumberOfPlants

  /** The value of column `c` in record `r` (the plant count read as a real). */
  function Field(r: Record, c: Column): real
  {
    match c
    case InstalledCapacity => r.installedCapacityMw
    case Generation => r.generationGwh
    case MarketValue => r.marketValueMillionUsd
    case Investment => r.investmentMillionUsd
    case NumberOfPlants => r.numberOfPlants as real
  }

  /** The sum of column `c` over the table, first record first. */
  function Sum(t: Table, c: Column): real
  {
    if t == [] then 0.0 else Field(t[0], c) + Sum(t[1..], c)
  }

  /** The sum of the plant counts, in integers. */
  function SumPlants(t: Table): int
  {
    if t == [] then 0 else t[0].numberOfPlants + SumPlants(t[1..])
  }

  /**
   * The records whose year is exactly `y`, in their original order: the
   * boolean mask `df[df['year'] == y]`.
   */
  function Filter(t: Table, y: int): (f: Table)
    ensures |f| <= |t|
    ensures forall r :: r in f <==> r in t && r.year == y
  {
    if t == [] then []
    else (if t[0].year == y then [t[0]] else []) + Filter(t[1..], y)
  }

  /**
   * Reference definition of a per-year column total that does not filter:
   * every record contributes its value when its year is `y` and zero
   * otherwise.
   */
  function SumWhere(t: Table, y: int, c: Column): real
  {
    if t == [] then 0.0
    else (if t[0].year == y then Field(t[0], c) else 0.0) + SumWhere(t[1..], y, c)
  }

  /** Column sums split over concatenation. */
  lemma {:induction false} SumAppend(a: Table, b: Table, c: Column)
    ensures Sum(a + b, c) == Sum(a, c) + Sum(b, c)
  {
    if a == [] {
      assert a + b == b;
    } else {
      assert (a + b)[1..] == a[1..] + b;
      SumAppend(a[1..], b, c);
    }
  }

  /** The integer plant total agrees with the real column sum. */
  lemma {:induction false} SumPlantsIsColumnSum(t: Table)
    ensures SumPlants(t) as real == Sum(t, NumberOfPlants)
  {
    if t != [] {
      SumPlantsIsColumnSum(t[1..]);
    }
  }

  /** Filtering commutes with concatenation, so the relative order of the kept records is that of the input. */
  lemma {:induction false} FilterAppend(a: Table, b: Table, y: int)
    ensures Filter(a + b, y) == Filter(a, y) + Filter(b, y)
  {
    if a == [] {
      assert a + b == b;
    } else {
      assert (a + b)[1..] == a[1..] + b;
      FilterAppend(a[1..], b, y);
    }
  }

  /** Each record occurs in the filter exactly as often as in the input when its year is `y`, and not at all otherwise. */
  lemma {:induction false} FilterMultiplicity(t: Table, y: int, r: Record)
    ensures multiset(Filter(t, y))[r] == if r.year == y then multiset(t)[r] else 0
  {
    if t != [] {
      FilterMultiplicity(t[1..], y, r);
      assert t == [t[0]] + t[1..];
    }
  }

  /** Summing the filtered records is the brute-force masked sum over the whole table. */
  lemma {:induction false} FilteredSumIsMaskedSum(t: Table, y: int, c: Column)
    ensures Sum(Filter(t, y), c) == SumWhere(t, y, c)
  {
    if t != [] {
      var head := if t[0].year == y then [t[0]] else [];
      SumAppend(head, Filter(t[1..], y), c);
      FilteredSumIsMaskedSum(t[1..], y, c);
    }
  }

  /** A member of a table with no negative entries in column `c` is at most the column total. */
  lemma {:induction false} FieldAtMostSum(t: Table, c: Column, i: int)
    requires 0 <= i < |t|
    requires forall j :: 0 <= j < |t| ==> Field(t[j], c) >= 0.0
    ensures 0.0 <= Field(t[i], c) <= Sum(t, c)
  {
    NonNegativeSum(t[1..], c);
    if i > 0 {
      FieldAtMostSum(t[1..], c, i - 1);
    }
  }

  /** A column with no negative entries has a non-negative total. */
  lemma {:induction false} NonNegativeSum(t: Table, c: Column)
    requires forall j :: 0 <= j < |t| ==> Field(t[j], c) >= 0.0
    ensures Sum(t, c) >= 0.0
  {
    if t != [] {
      NonNegativeSum(t[1..], c);
    }
  }
}
