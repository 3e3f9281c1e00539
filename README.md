# Hydro market aggregation engine

This project models the aggregation core of the Brazil hydro-energy market
analysis (`HydroDataLoader` in `src/data_processing/data_loader.py`). The core
turns a table of market records into two derived tables. Each record has a
year, a region, installed capacity (MW), generation (GWh), market value and
investment (million USD) and a plant count.

- **Yearly summary** (`get_market_summary`). The records are grouped by exact
  year, and the five numeric columns are summed per group. Rows come out in
  ascending year order. Four of the sums (not the plant count) then get a
  `<col>_growth_pct` column: the percentage change from the previous row. The
  previous row is the one before it in sorted order, however many calendar
  years lie between them.
- **Regional snapshot** (`get_regional_analysis`). The records of the latest
  year are kept unchanged and in input order. Each one gets its share of that
  year's total capacity and total market value, as a percentage.

Modules, one per concern:

- `Wrappers` (`wrappers.dfy`): the `Option` type.
- `Market` (`market.dfy`): the record, the table as `seq<Record>`, column sums
  and the exact-year filter.
- `YearlySummary` (`yearly_summary.dfy`): the yearly summary.
- `RegionalSnapshot` (`regional_snapshot.dfy`): the regional snapshot.
- `DataStore` (`data_store.dfy`): the file layer under the loader, reduced to
  a directory seen as a map from file name to table.
- `Scenarios` (`scenarios.dfy`): worked examples on small concrete tables.

Numbers are exact `real`s. The plant count is an `int`. Wherever pandas would
produce NaN or an infinity, the model produces `None`:

- the first row of every growth column;
- a growth cell whose previous value is zero;
- a share whose total is zero.

The yearly summary is a pure function, `MarketSummary`. The source's
`for col in ...` loop, which adds the growth columns one at a time to the
freshly built frame, is the method `GetMarketSummary`. It is proved to return
exactly `MarketSummary`. Neither operation can change its input: the table is
an immutable value, and the method has no `modifies` clause.

On an empty table the code does not fail. `max()` of the empty year column is
NaN, the mask keeps nothing, and an empty frame comes back. The model returns
an empty snapshot and an empty summary; it raises no error.

## Model

| member | source | states |
|---|---|---|
| `Market.Filter` | src/data_processing/data_loader.py:91 | the mask `year == y` keeps a record if and only if it is in the input and has year `y`, and never lengthens the table |
| `Market.FilterAppend` | src/data_processing/data_loader.py:91 | filtering a concatenation is concatenating the filtered parts, so kept records keep their relative input order |
| `Market.FilterMultiplicity` | src/data_processing/data_loader.py:91 | a record of year `y` is kept exactly as often as it occurs in the input; a record of any other year is dropped |
| `Market.FilteredSumIsMaskedSum` | src/data_processing/data_loader.py:69-75 | the sum of a column over the records of year `y` equals the brute-force sum over the whole table that counts only year-`y` records |
| `YearlySummary.InsertYear` | src/data_processing/data_loader.py:69 | adding a key to the sorted keys keeps them strictly ascending and adds exactly that key |
| `YearlySummary.Years` | src/data_processing/data_loader.py:69 | the `groupby('year')` keys are strictly ascending (no year twice); every record's year is a key, and every key is the year of some record of the table |
| `YearlySummary.Aggregate` | src/data_processing/data_loader.py:69-75 | the `agg` row of year `y` carries year `y`, and each of its five cells equals the brute-force sum of that column over exactly the records of year `y` |
| `YearlySummary.GroupRows` | src/data_processing/data_loader.py:69-75 | there is one aggregated row per group key, in key order, each labelled with its key; `GroupRowAt` shows row `i` is the aggregate of key `i` |
| `YearlySummary.Growth` | src/data_processing/data_loader.py:79 | a growth cell has no value exactly when the previous value is zero |
| `YearlySummary.GrowthMeaning` | src/data_processing/data_loader.py:79 | a defined growth cell is `(cur - prev) / prev * 100`, and growing `prev` by that percentage gives `cur` |
| `YearlySummary.Changes` | src/data_processing/data_loader.py:79 | entry `i` of the neighbour changes compares element `i + 1` with element `i`; there is one entry fewer than elements |
| `YearlySummary.PctChange` | src/data_processing/data_loader.py:79 | `pct_change() * 100` has one cell per row; the first cell has no value; cell `i > 0` is the growth from row `i - 1` to row `i` |
| `YearlySummary.GrowthForShape` | src/data_processing/data_loader.py:78-79 | adding growth columns for a list of columns, one after another, yields a column for exactly the listed columns, each holding its own column's `pct_change() * 100` |
| `YearlySummary.GrowthTable` | src/data_processing/data_loader.py:78-79 | the growth columns are keyed by exactly capacity, generation, market value and investment, each the percentage change of that column over the rows |
| `YearlySummary.GrowthTableColumns` | src/data_processing/data_loader.py:78-79 | over any rows there is no growth column for the plant count; each growth column has one cell per row, no value in the first row, and row `i > 0` compared with row `i - 1` |
| `YearlySummary.MarketSummary` | src/data_processing/data_loader.py:63-82 | every summary row is the aggregate of the records of its own year; order and coverage are in `SummaryOneRowPerYear`, the growth columns in `SummaryGrowthColumns`, totals in `SummaryRowSums` and `SummaryPreservesTotal` |
| `YearlySummary.GetMarketSummary` | src/data_processing/data_loader.py:63-82 | the grouped frame with the growth columns added one by one in the loop is exactly the yearly summary `MarketSummary` |
| `YearlySummary.SummaryGrowthColumns` | src/data_processing/data_loader.py:78-79 | the summary has growth columns for capacity, generation, market value and investment and none for the plant count; each has one cell per row; the first row's cells have no value; row `i > 0` is compared with row `i - 1` by position |
| `YearlySummary.SummaryOneRowPerYear` | src/data_processing/data_loader.py:69-75 | summary rows are strictly ascending by year; every input record's year has a row and every row's year has an input record |
| `YearlySummary.SummaryRowSums` | src/data_processing/data_loader.py:69-75 | each of the five summed cells of a row equals the brute-force sum of that column over exactly the input records of that row's year |
| `YearlySummary.SummaryPreservesTotal` | src/data_processing/data_loader.py:69-75 | a summed column added up over the summary rows equals the same column added up over the input: grouping loses and duplicates nothing |
| `RegionalSnapshot.LatestYear` | src/data_processing/data_loader.py:90 | `max(year)` has no value exactly for the empty table; otherwise it is a year that occurs in the table and no record's year exceeds it |
| `RegionalSnapshot.LatestRecords` | src/data_processing/data_loader.py:90-91 | the mask at `max(year)` keeps exactly the records whose year no record exceeds; it keeps none only for the empty table |
| `RegionalSnapshot.Share` | src/data_processing/data_loader.py:97-98 | a share has no value exactly when the total is zero |
| `RegionalSnapshot.ShareMeaning` | src/data_processing/data_loader.py:97-98 | a defined share, applied as a percentage to the total, gives back the record's value |
| `RegionalSnapshot.RegionalAnalysis` | src/data_processing/data_loader.py:84-101 | the snapshot's records are the latest-year records; each share cell is the row's value as a share of that subset's total for the share's base column |
| `RegionalSnapshot.SnapshotRows` | src/data_processing/data_loader.py:90-91 | for the largest year `y` of the table, the snapshot's records are the input records of year `y`, unchanged and in input order, each as often as it occurs in the input |
| `RegionalSnapshot.SharesSumTo100` | src/data_processing/data_loader.py:94-98 | when the latest year's capacity (or value) total is non-zero, the capacity (or value) shares over the snapshot sum to exactly 100 |
| `RegionalSnapshot.SharesOfWholeTotal` | src/data_processing/data_loader.py:94-98 | for any records whose column total is non-zero, shares of that total computed record by record add up to exactly 100 |
| `RegionalSnapshot.SharesUndefinedOnZeroTotal` | src/data_processing/data_loader.py:94-98 | when the latest year's total of a base column is zero, no row has that share |
| `RegionalSnapshot.ShareBounds` | src/data_processing/data_loader.py:94-98 | with no negative values in the base column and a positive total, every share is defined and lies in [0, 100] |
| `DataStore.LoadData` | src/data_processing/data_loader.py:33-61 | loading a file gives no table exactly when the file is missing, and otherwise the table stored under that name |
| `DataStore.SaveProcessedData` | src/data_processing/data_loader.py:103-110 | a successful save makes the named file hold exactly the saved table and leaves every other file alone; a failed save is swallowed and is modelled as changing no file |
| `DataStore.SaveThenLoad` | src/data_processing/data_loader.py:103-110 | reading back a file that was saved successfully gives the saved table |
| `DataStore.FailedSaveThenLoad` | src/data_processing/data_loader.py:105-110 | after a failed save, which the model takes to touch no file, every file reads as it did before |
| `Scenarios.TwoYearSummary` | src/data_processing/data_loader.py:63-82 | one region over 2020 and 2021 gives two rows; the 2021 growth is 50% for capacity, generation and value and 60% for investment; 2020 has none |
| `Scenarios.GrowthAcrossMissingYear` | src/data_processing/data_loader.py:69-79 | with 2020 absent, 2021 is compared with 2019 (whose two regions are summed first); a previous value of zero gives no growth |
| `Scenarios.TwoRegionSnapshot` | src/data_processing/data_loader.py:84-101 | two regions in the only year with capacities 150 and 50 and values 15 and 5 get shares of 75% and 25% in both columns |
| `Scenarios.EmptyTable` | src/data_processing/data_loader.py:63-101 | an empty table gives an empty snapshot and a summary with no rows and empty growth columns |

## Left out

- Reading and writing CSV files (`pd.read_csv`, `to_csv`) and the messages printed around them. A directory is modelled as a map from file name to an already-parsed table. Text encoding, number precision in the file and parse errors are not modelled.
- DataStore.SaveProcessedData: every failed write is modelled as touching no file. `to_csv` opens the target for writing, which truncates it, before it writes, so a failure part-way through (a full disk, an encoding error) leaves a truncated file that the `except` then hides; the model does not capture that state.
- DataStore.FailedSaveThenLoad: states that every file reads as before a failed save, which holds only under the same assumption that a failed write touches no file.
- Whether a write succeeds depends on the file system. It enters `DataStore.SaveProcessedData` as the `writeSucceeds` parameter.
- Path resolution in `HydroDataLoader.__init__` (`data_loader.py:15-31`). The path fields are used only by the file operations, so the class itself is not modelled.
- The `df is None` branches of both aggregations (`data_loader.py:65-66`, `86-87`, and the `return None` after them). They only call the loader; the model takes the table as a parameter.
- `main` (`data_loader.py:112-140`): printing and orchestration.
- `src/visualization/chart_generator.py`: chart construction, global plotting style and image files. It computes nothing the aggregations depend on.
- `src/data_processing/__init__.py` and `src/visualization/__init__.py`: re-exports only.
- Floating point: sums and percentages are exact reals, so rounding does not arise.
- NaN handling in pandas: skip-NaN sums, the fill behaviour of `pct_change`, and the difference between NaN and an infinity. All of these become `None`. Every numeric field is assumed present, so a missing or unparseable value cannot be expressed.
- The 64-bit integer width of `number_of_plants`: plant counts are unbounded integers.
- Column order of the output frames. The summary's growth columns are a map keyed by the source column. The snapshot row carries the original record and the two share fields.
