# Performance engine of `Assignment`

This project models the calculation core of the `Assignment` class in Dafny. The core has three
queries over date-indexed tables:

- `calculate_asset_performance` computes a weighted price index of the assets.
- `calculate_currency_performance` computes an index of the settlement-currency exchange rates. It
  weights each currency by the summed weights of the assets settled in it.
- `calculate_total_performance` computes the asset index after each price has been converted at that
  date's exchange rate.

All three follow the same pipeline:

1. Take the current block, which is the rows dated from `start` to `end` plus one day, both ends
   included.
2. Widen the block by the lookback window (`days`, five days in the source). The row before each
   current row is its comparison row.
3. Left-join the weights onto the block's dates. A missing weight becomes its column's mean over the
   joined rows.
4. Blend the simple returns of each period into one return.
5. Compound the returns into an index. The index is seeded at 1, and the seed is not emitted.

The model works on immutable tables of `real`:

- A table is a `Table(labels, dates, rows)`.
- Dates are whole days, and `Day` is one day.
- The lookback window is a parameter `lookback`. The source fixes it at `DefaultLookback` = 5 days.
- Each query returns a `Result`. Where the source would produce NaN, inf, a numpy broadcasting error
  or an exception, the model returns an error value. The exceptions are a `KeyError` for an exchange
  currency without a weight column (currency query, line 116) and pandas' length-mismatch `ValueError`
  when the joined rate columns are relabelled with the exchange labels (total query, line 164).

The modules follow the pipeline:

- `Tables`: the table store and the inclusive label slice, computed with a left and a right
  `searchsorted`.
- `Lookback`: the comparison rows `wide[len(wide) - len(cur) - 1 : -1]`, modelled with Python's
  slice-bound rules.
- `Labels`: the sorted order of the group keys of a column group-by.
- `Weights`: the left join, the column-mean fill, and the per-currency grouping.
- `Returns`: simple returns, the blend, and the compounding recurrence with its product closed form.
  It also contains the source's loop as a method.
- `Performance`: the three queries, and the lemmas tying their results to the recurrence.
- `Results`: `Option`, `Result` and the error values.

The code differs from its documentation in two places, and the model follows the code:

- The comment at tests.py:34 says a start date without a price for the previous period cannot be
  calculated. The code fails only when the current block has two or more rows. With zero or one row,
  numpy broadcasts the empty comparison array, and the result is an empty index.
- The docstrings at assignment.py:38, 88 and 133 promise a series from `start_date` to `end_date`, and
  the comment at tests.py:16 says the end date is included. The current block actually also includes
  the day after `end` (assignment.py:60, 110 and 157), when a row exists on that day.

## Model

| member | source | states |
|---|---|---|
| Tables.SearchLeft | assignment.py:61 | The start of an inclusive label slice. Every earlier date is before the bound; in ascending dates every later one is at or after it. |
| Tables.SearchRight | assignment.py:61 | The end of an inclusive label slice. Every earlier date is at or before the bound; in ascending dates every later one is after it. |
| Tables.Find | assignment.py:72 | The first position of a date, or none exactly when the date is absent. |
| Tables.FirstNotIn | assignment.py:116 | Some label of the first list that the second lacks, or none exactly when every label is present. |
| Tables.RowAt | assignment.py:72 | The row stored under a date; every row stored under that date equals it. |
| Tables.Slice | assignment.py:61 | A slice keeps the table's labels and takes at most its rows, one per date; which dates it takes is stated by SliceSelectsRange. |
| Tables.SliceDates | assignment.py:60-61 | A slice holds a date exactly when the table holds it and it lies in [lo, hi], both ends included. |
| Tables.SliceSelectsRange | assignment.py:60-61 | A slice is well formed, holds exactly the dates in [lo, hi], and keeps every row unchanged under its date. |
| Tables.BlockKeepsRows | assignment.py:61 | A contiguous run of rows is a well-formed table with each row unchanged. |
| Tables.SliceSuffix | assignment.py:61-64 | Widening the slice to the left only adds rows in front: the current block is a suffix of the widened block. |
| Tables.SliceOfBoundedIsSuffix | assignment.py:168 | When no date lies after `hi`, slicing from `lo` to `hi` keeps a suffix of the table. |
| Tables.SliceWhole | assignment.py:168 | Slicing over a range that holds every date returns the table unchanged. |
| Tables.SliceOfSlice | assignment.py:159-168 | Slicing the widened block from `start` gives the same rows as slicing the table from `start`. |
| Tables.AscendingUnique | assignment.py:61 | Two ascending date sequences with the same dates are equal. |
| Tables.TableExtensionality | assignment.py:61 | Two well-formed tables with the same labels, dates and rows per date are equal. |
| Lookback.PyBound | assignment.py:65 | A slice bound never exceeds the sequence length. |
| Lookback.PyBoundNormalises | assignment.py:65 | A bound within reach counts from the front when non-negative and from the end when negative; one beyond either end is clamped to that end. |
| Lookback.PySlice | assignment.py:65 | A Python slice is no longer than the sequence. |
| Lookback.Previous | assignment.py:64-65 | If the widened block is longer than the current block, there are m comparison rows and row i is the widened row at n - m - 1 + i. With equal lengths there are none. |
| Lookback.PriorDate | assignment.py:64 | The latest date before `start`. It is a date of the table, lies in the lookback window, and no earlier-than-start date follows it. |
| Lookback.PriorPosition | assignment.py:64 | A window holding a date before `start` contributes at least one row ahead of the current block. |
| Lookback.PreviousIsPrecedingRow | assignment.py:64-65 | Comparison row i is the widened row immediately before current row i. It is dated earlier, no widened row lies between them, and from i = 1 on it is current row i - 1. |
| Lookback.HistoryIffPrior | assignment.py:64-65 | For a non-empty current block, the widened block is longer exactly when the lookback window holds a row before `start`. |
| Lookback.PriorIndex | assignment.py:64-65 | The latest prior date is the date just before the first one at or after `start`, and it lies inside the window. |
| Lookback.PriorRow | assignment.py:169 | The widened row just before the current block is the row of the latest date before `start`. |
| Lookback.FirstComparisonIsPriorRow | assignment.py:63-65 | The first comparison row is the row of the latest date before `start` within the lookback window. |
| Lookback.FirstComparisonDate | assignment.py:112-113 | The first comparison row is dated at the latest date before `start`. |
| Lookback.PriorWithinSlice | assignment.py:159 | A window reaching `start` holds a prior row exactly when the whole table does. |
| Lookback.PriorDateWithinSlice | assignment.py:159 | The window's latest prior date is the table's. |
| Labels.BelowIrreflexive | assignment.py:116 | No label sorts before itself. |
| Labels.BelowTransitive | assignment.py:116 | Python's string order on labels is transitive. |
| Labels.BelowTotal | assignment.py:116 | Any two distinct labels are ordered one way or the other. |
| Labels.SortedPairs | assignment.py:116 | In a strictly sorted list every label sorts before every later one. |
| Labels.BelowFirstNotIn | assignment.py:116 | A label sorting before the first of a sorted list is not in it. |
| Labels.Insert | assignment.py:116 | Inserting a key keeps the keys strictly sorted and adds exactly that key, once. |
| Labels.SortKeys | assignment.py:116 | The group keys are strictly sorted and hold every label once; distinct labels keep their count. |
| Labels.SortedUnique | assignment.py:116 | Two strictly sorted key lists with the same labels are equal. |
| Labels.SortKeysIdentity | assignment.py:116-117 | The group keys come out in the given column order exactly when that order is strictly sorted. |
| Returns.SimpleReturn | assignment.py:78 | The simple return is the rate that grows the comparison price into the current price. |
| Returns.Blend | assignment.py:78-79 | The blended return of a period is the weighted sum of price relatives less the total weight. |
| Returns.ZeroWeightsNoReturn | assignment.py:78-79 | A period whose weights are all zero has a blended return of 0. |
| Returns.FlatPricesNoReturn | assignment.py:78-79 | A period in which no price moved has a blended return of 0, whatever the weights. |
| Returns.ReturnIsRelativeLessOne | assignment.py:78 | Proof step for Blend: a weighted simple return is the weighted price relative less the weight. |
| Returns.PeriodReturns | assignment.py:78-79 | One blended return per current row. |
| Returns.Compound | assignment.py:80-84 | The index has one value per period. |
| Returns.CompoundStep | assignment.py:81-83 | Index value i is the value before it, or the seed 1 for the first, times one plus return i. |
| Returns.GrowthStep | assignment.py:83 | Extending a run by one period multiplies its growth by that period's factor. |
| Returns.CompoundIsGrowth | assignment.py:80-84 | Index value i is the product of one plus return j over j = 0..i. |
| Returns.GrowthChains | assignment.py:83 | Growth over two consecutive runs is the product of their growths. |
| Returns.GrowthOfFlatRun | assignment.py:83 | A run of zero returns has growth 1. |
| Returns.FlatRunKeepsIndex | assignment.py:83 | Over zero returns the index stays at 1. |
| Returns.IndexRatioIsReturn | assignment.py:83 | Each value divided by the one before it (the seed for the first), minus 1, gives back that period's return. |
| Returns.GrownRatio | assignment.py:83 | Proof step for IndexRatioIsReturn: dividing a grown value by its base gives back the growth factor. |
| Returns.CompoundExtends | assignment.py:82-83 | One more period appends the latest value times one plus that return. |
| Returns.LoopStep | assignment.py:82-83 | One pass of the source's loop keeps the computed prefix equal to the index so far. |
| Returns.CompoundLoop | assignment.py:80-84 | The source's seeded loop, with the seed dropped, computes the index. |
| Weights.LeftJoin | assignment.py:72-73 | One joined row per block date. A cell holds the weight stored on that date, and is empty when no weight row has that date. |
| Weights.PresentSumAtLeast | assignment.py:76 | Proof step for NonNegativeMean: present values bounded below by `lo` sum to at least `lo` times their count. |
| Weights.ColumnMean | assignment.py:76 | The mean of a column's present values is non-negative exactly when their sum is. |
| Weights.NonNegativeMean | assignment.py:76 | A column of non-negative weights has a non-negative mean, so gaps are filled with a non-negative weight. |
| Weights.NoneMeansAllGaps | assignment.py:76 | A column has no present cell exactly when every cell is empty. |
| Weights.FillColumn | assignment.py:76 | Filling keeps a column's length. |
| Weights.FillMissing | assignment.py:76 | Fails with NoWeightData exactly when some column has rows but no present value. Otherwise present cells are kept and every empty cell becomes its column's mean over the joined rows. |
| Weights.FillColumnSum | assignment.py:76 | A filled column sums to its present values plus the fill value once per gap. |
| Weights.MeanOfPadded | assignment.py:76 | Proof step for FillColumnMean: padding a mean with copies of itself keeps the mean. |
| Weights.FillColumnMean | assignment.py:76 | A column filled with its mean has that mean. |
| Weights.FilledColumn | assignment.py:76 | Each column of a successful fill is the joined column with its gaps set to the column's mean. |
| Weights.FillKeepsMean | assignment.py:76 | Filling leaves each column's mean over the joined rows unchanged. |
| Weights.FullColumnPresent | assignment.py:76 | A column without gaps has every cell present. |
| Weights.FillCompleteIsIdentity | assignment.py:76 | Filling a matrix without gaps returns it unchanged. |
| Weights.JoinedColumnsEmpty | assignment.py:72-73 | A joined column is all gaps exactly when no block date has a weight row. |
| Weights.AlignWeights | assignment.py:67-76 | One weight row per block date, one column per weight label. A block date with a weight row keeps that row; any other date takes, per column, the mean of the column over the joined block rows, which has at least one value. It fails with NoWeightData exactly when there are dates and columns but no block date has a weight row. |
| Weights.GroupSum | assignment.py:116 | A currency that labels no asset column gets weight 0. |
| Weights.GroupByCurrency | assignment.py:116 | Column k, per date, is the sum of the asset-weight columns labelled with currency k. |
| Weights.GroupedRows | assignment.py:116 | The grouped table has the weight dates, and its row for each date holds that date's per-currency sums. |
| Weights.GroupSumSingle | assignment.py:116 | A currency held by exactly one asset column gets that column's weight. |
| Weights.WeightAmongSplit | assignment.py:116 | The weight of a set of currencies splits into the first currency's group plus the rest. |
| Weights.WeightAmongNone | assignment.py:116 | An empty set of currencies carries no weight. |
| Weights.GroupConservation | assignment.py:116 | Summing the group sums gives the total weight of the asset columns in those currencies. |
| Weights.GroupByPosition | assignment.py:116-117 | The source's positional pairing: same dates and labels, with column k holding the group of the k-th smallest label. |
| Weights.PositionalPairingIsByLabel | assignment.py:116-124 | With exchange-rate columns in sorted order, positional pairing equals pairing by label. |
| Weights.PositionalPairingMislabels | assignment.py:116-124 | With distinct columns out of sorted order, some column receives another currency's group. |
| Weights.PositionalPairingMisplaces | assignment.py:116-124 | For rate columns USD, EUR with weights EUR 1 and USD 0, positional pairing gives USD weight 1; by label it gets 0. |
| Performance.High | assignment.py:60 | The end of the current block is exactly one day after `end`. |
| Performance.Low | assignment.py:64 | The widened block starts no later than `start`. |
| Performance.DefaultWindowCoversWeekend | assignment.py:63-64 | With the source's five-day window, a price at most three days before `start` gives the query an earlier row, and the first day is compared with a row no older than that price. |
| Performance.Blocks | assignment.py:60-64 | The widened block and the current block are well formed, have the same labels, and the current block is the widened block's suffix. |
| Performance.Engine | assignment.py:78-84 | Shared returns-and-compounding step. InsufficientHistory exactly when there is no earlier row and two or more current rows. Ok exactly when there is no earlier row and at most one current row (empty index), or the weights exist and every comparison price is nonzero. The index has one value per current row. |
| Performance.CompoundGrows | assignment.py:78-84 | Compounding the blended returns of consecutive rows yields an index that grows through them period by period. |
| Performance.EngineOutcome | assignment.py:64-84 | With an earlier row and a non-empty block, the engine succeeds exactly when the weights aligned and the latest row before `start` and every block row but the last are free of zero prices. It reports NoWeightData exactly when the weights did not align. |
| Performance.EmptyBlockIsEmptyIndex | assignment.py:78-84 | An empty current block gives an empty index once the weights are aligned, whatever the comparison rows. A single current row with no row before it gives an empty index whatever the weights. |
| Performance.EngineRecurrence | assignment.py:78-84 | A successful engine run grows its index through the comparison row and the current block. |
| Performance.AssetWeights | assignment.py:67-76 | Weights for the block's dates, taken from weight rows dated in [start, end + 1 day]. It fails exactly when none of the block's dates has such a row. Otherwise a date with a row keeps that row's weights, and any other date takes each column's mean over the joined block rows. |
| Performance.AssetPerformance | assignment.py:60-84 | InsufficientHistory exactly when the window holds no earlier row and the block has two or more rows. On success there is one value per block row, or none without an earlier row. An empty block, or a single-row block without an earlier row, gives an empty index. With an earlier row and a non-empty block, it succeeds exactly when the weights align and no price it divides by (the latest row before `start`, every block row but the last) is zero, and it reports NoWeightData exactly when the weights do not align. |
| Performance.BlocksRecurrence | assignment.py:61-84 | For any table, a successful run grows its index from the latest row before `start` through the current block. |
| Performance.PriorThenBlock | assignment.py:61-65 | The rows the engine compares are the latest row before `start`, then the current block. |
| Performance.AssetRecurrence | assignment.py:60-84 | Each asset index value is the previous one, or 1 for the first, times one plus that day's weighted return. The first day is compared with the latest earlier price row in the window. |
| Performance.CurrencyWeights | assignment.py:116-121 | Per block date and currency: the sum of that date's asset weights labelled with the currency, taken from weight rows in [start, end + 1 day]. A date without such a row takes each currency column's mean over the joined block rows. It fails exactly when no block date has such a row. |
| Performance.CurrencyPerformance | assignment.py:110-129 | MissingColumn exactly when some exchange currency has no weight column, naming one such currency. Otherwise it has the same history and length promises as the asset query, over the exchange table. An empty block, or a single-row block without an earlier row, gives an empty index exactly when no column is missing. With no column missing, an earlier row and a non-empty block, it succeeds exactly when the per-currency weights align and no rate it divides by is zero, and it reports NoWeightData exactly when the weights do not align. |
| Performance.RatePerformance | assignment.py:110-129 | The currency index once every currency has a weight column: the history and length promises over the exchange table, and an empty index for an empty block or a single-row block without an earlier row. With an earlier row and a non-empty block, it succeeds exactly when the per-currency weights align and no rate it divides by is zero, and it reports NoWeightData exactly when the weights do not align. |
| Performance.CurrencyRecurrence | assignment.py:110-129 | Each currency index value is the previous one times one plus that day's rate return, weighted by the per-currency sums. The first day is compared with the latest earlier rate row. |
| Performance.ConvertRow | assignment.py:165-166 | Conversion keeps a row's width. |
| Performance.Convert | assignment.py:162-166 | Same dates and labels. A cell whose label is an exchange currency with a rate on that date is multiplied by the rate. Every other cell is unchanged. |
| Performance.ConvertAtDate | assignment.py:162-166 | The same conversion, stated per date. |
| Performance.ConvertUnitIsIdentity | assignment.py:162-166 | At rate 1 everywhere, conversion changes nothing. |
| Performance.Converted | assignment.py:159-166 | The converted window has the price labels and exactly the price dates in [start - lookback, end + 1 day]. |
| Performance.ConvertedCells | assignment.py:159-166 | A converted cell is the price times that date's rate for its currency, or the bare price when the date has no rate row or the label is not an exchange currency. |
| Performance.TotalBlocks | assignment.py:159-169 | The converted window is its own widened block, and its current block has the price table's current dates. |
| Performance.TotalPrior | assignment.py:159-169 | The converted window holds a row before `start` exactly when the price table does within the window, dated alike. |
| Performance.TotalHistory | assignment.py:168-169 | For a non-empty block, the converted window has a comparison row exactly when the price table has an earlier row in the window. |
| Performance.ConvertedPerformance | assignment.py:168-183 | The engine over the converted window keeps the asset query's history and length promises, and gives an empty index for an empty block or a single-row block without an earlier row. With an earlier price row and a non-empty block, it succeeds exactly when the weights align and no converted price it divides by is zero, and it reports NoWeightData exactly when the weights do not align. |
| Performance.ComparedFromPrior | assignment.py:168-170 | The first row the total query compares is the converted row of the latest price date before `start`. |
| Performance.UnratedDate | assignment.py:162-170 | A date it reports is a price date in the window and has no rate row. It is compared: the block is non-empty, the window has an earlier row, and the date is not before the latest price date before `start`. |
| Performance.TotalPerformance | assignment.py:157-183 | MissingColumn exactly when an exchange currency has no price column. MissingRate needs a rate column and names a price date without a rate row that is compared: the block is non-empty, there is an earlier row, and the date is not before the latest price date before `start`. InsufficientHistory and the output length are as in the asset query. An empty block, or a single-row block without an earlier row, gives an empty index exactly when no column is missing. With no column missing, an unrated compared date and at least one rate column give exactly MissingRate for that date; otherwise the result is the engine run over the converted window. |
| Performance.TotalRecurrence | assignment.py:168-183 | Each total index value is the previous one times one plus that day's weighted return on converted prices. The first day is compared with the converted row of the latest earlier price date. |
| Performance.TotalPriorRated | assignment.py:162-169 | A successful total query has a rate row on the latest date before `start`. |
| Performance.TotalBlockRated | assignment.py:162-168 | A successful total query has a rate row on every date of the block. |
| Performance.TotalTail | assignment.py:168-169 | The block's dates are the trailing dates of the converted window, and with an earlier row they are strictly fewer. |
| Performance.TailRated | assignment.py:169 | If every compared date has a rate row, so does every block date. |
| Performance.TotalRatesPresent | assignment.py:162-170 | A successful total query has a rate row for the date of every compared row. |
| Performance.SuffixRated | assignment.py:162-170 | If every price date has a rate row, no trailing run of price dates holds an unrated one. |
| Performance.AllRatedWhenNoneUnrated | assignment.py:162-170 | With no unrated compared date, every compared date has a rate row. |
| Performance.UnitSlice | assignment.py:160 | A slice of a rate table that is 1 everywhere is 1 everywhere. |
| Performance.UnitRatesConvertNothing | assignment.py:162-166 | At rate 1 everywhere, the converted window is the price window. |
| Performance.FullRatesLeaveNothingUnrated | assignment.py:162-166 | With a rate row on every price date, no date is unrated. |
| Performance.TotalWithUnitRatesIsAsset | assignment.py:157-183 | Take rate 1 everywhere, a rate row on every price date, and a price column for every exchange currency. Then the total query equals the asset query. |

## Left out

- Loading and preparing the tables (assignment.py:13-34) is not modelled: CSV reading, the load-time
  mean fill, column reordering and relabelling, and date parsing. A `Store` of well-formed tables
  stands in for the result. Its weight labels are the price labels, which is what lines 26 and 30
  establish.
- Timestamps are whole days. Sub-day times and time zones are not modelled.
- NaN and infinity are not modelled: floating point is replaced by `real`. A zero comparison price
  gives `ZeroDenominator`, and a weight column with no value on any block date gives `NoWeightData`.
  In these cases the source returns a series holding NaN or inf, and the model returns an error
  instead of that partial series.
- Pandas merge mechanics are not modelled. The model uses separate tables, not merge suffixes or
  column picking by `isinstance(i, int)` and `"1" in i`. A price label that itself contains the
  character `1` would be picked up by the source's rate-column filter on line 163. The model does
  not reproduce that mix-up.
- Duplicate exchange-rate labels are excluded: `Valid` requires distinct exchange labels.
- The lookback window is a parameter `lookback`, not the fixed five days of line 11. The source's value
  is `DefaultLookback`.
- Performance.TotalPerformance: a date without a rate row is reported only when its row is compared.
  A conversion with NaN in rows that are never compared leaves the source's result unaffected. Rows
  without a rate are kept unconverted in `Converted`. An empty block compares nothing, so it gives an
  empty index whatever rates are missing.
- Performance.TotalPerformance: a rate that is missing for a compared date is reported as
  `MissingRate` only when the exchange table has at least one column. With no rate columns the source
  multiplies nothing.
- Performance.TotalRecurrence: requires `start <= end + 1 day`. For a later start the block is empty
  and the index is empty anyway.
- Performance.CurrencyPerformance: pairs the group sums with the exchange-rate columns by label; the
  source pairs them by position. This is the finding below; the two agree when the exchange columns
  are in sorted order.
- Performance.CurrencyWeights: builds the per-currency weights paired by label, not by position, for
  the same reason.
- Performance.RatePerformance: weights each rate column by its own currency's group, paired by label,
  for the same reason.
- Performance.CurrencyRecurrence: states the recurrence with the weights paired by label, for the same
  reason.

## Findings

| source | as written | input that shows it | evidently intended | confidence | as-written member | corrected member |
|---|---|---|---|---|---|---|
| assignment.py:116-117 | The group-by emits the per-currency weight sums in sorted label order. The columns are then renumbered and multiplied with the exchange-rate columns by position. | Exchange columns `USD, EUR`; asset weights EUR 1 and USD 0. The USD rate return gets weight 1 and the EUR return gets 0. | Each currency's return is weighted by that currency's summed weight, matched by label. | not executed | Weights.PositionalPairingMisplaces | Weights.PositionalPairingIsByLabel |
