# tsa-dash-app data pipeline, modelled in Dafny

The dashboard loads one table of hourly close prices per crypto asset from a SQLite store.
It cleans each table with `load_data`:

- it sorts by timestamp;
- it optionally shifts timestamps one hour forward to Paris time;
- it optionally drops every row whose minute is not 0.

The cleaned series are outer-joined, in a fixed order, into one price table. Its columns are
the asset names `BTC, ETH, SOL, ALGO, XRP, HBAR, BONK, LINK`.

From that table the dashboard derives:

- the simple returns, `pct_change().dropna()` (a row is dropped for all assets if any asset's
  change is undefined there);
- the cumulative returns, `(1 + pct_change()).cumprod()`, with the first row then set to 1.

The charts take the columns the user selects from these two tables.

This project models that pipeline:

- `wrappers.dfy`: `Option` and `Result`.
- `masks.dfy`: selection of the rows a boolean mask marks, `df[mask]`. It is shared by the
  hourly filter and by `dropna`.
- `load_n_clean.dfy` (module `LoadClean`): a record is a timestamp in whole minutes and a
  close price. `LoadData` is `load_data`: an insertion sort, then the Paris shift, then the
  hourly filter.
- `tables.dfy` (module `Tables`): the price table (columns, index, rows of `Option<real>`
  cells) and the outer join `pd.concat([df, s], axis=1)`. The join is a recursive merge of a
  strictly increasing index with a series.
- `transforms.dfy` (module `Transforms`): `pct_change` (with or without the forward fill
  that older pandas applies first), `dropna`, the running product `cumprod`, and selecting
  columns by name.
- `dashboard.dfy` (module `Dashboard`): lines 12-22 of `src/app.py`. `AssembleTable` is the
  load-and-join loop. `ComputeReturns` derives both return tables. It also holds two worked
  examples of the pipeline.

Timestamps are integers counting minutes. The minute of the hour is `ts % 60`, and Paris time
adds 60. Prices are `real`, which is exact arithmetic.

A loaded series may repeat a timestamp: `load_data` only sorts, it never removes duplicates,
and two raw rows can also meet on the same stamp. The model keeps this:

- `LoadData` promises non-decreasing timestamps, not strictly increasing ones, and the number
  of rows kept is the number of whole-hour rows, repeats included.
- `pd.concat(axis=1)` builds the sorted union of the indexes and realigns every series whose
  index differs from that union. It raises only when a series with repeated stamps has to be
  realigned. The model is stricter: `AssembleTable` ends with `DuplicateTimestamps` at the
  first join that meets any repeated stamp (see "## Left out").

## Model

| member | source | states |
|---|---|---|
| LoadClean.LoadData | load_n_clean.py:6-19 | The result is sorted by timestamp and is, as a multiset, exactly the raw rows after the optional +60 shift and optional minute-0 filter. With both flags off it is a permutation of the input. With `hourly` every minute is 0 and the length is the number of whole-hour raw rows, duplicates included. Every row is a raw row, shifted by 60 when `parisTime` is on. |
| LoadClean.SortIndex | load_n_clean.py:11 | `sort_index`: the output is sorted by timestamp and is a permutation of the input. |
| LoadClean.InsertKeepsSorted | load_n_clean.py:11 | Inserting a record at its insertion point keeps the series sorted and adds exactly that record to its multiset. |
| LoadClean.InsertionPoint | load_n_clean.py:11 | The insertion point of a record in a sorted series: every earlier stamp is `<=` the record's and every later one is `>`. |
| LoadClean.Minute | load_n_clean.py:17 | `index.minute` is always in 0..59. |
| LoadClean.Shifted | load_n_clean.py:13-14 | The Paris shift keeps the length and the prices and adds exactly 60 minutes to every timestamp. |
| LoadClean.ShiftedSorted | load_n_clean.py:13-14 | A series is sorted if and only if its shifted series is sorted. |
| LoadClean.ShiftedCount | load_n_clean.py:13-14 | A record occurs in the shifted series as often as its un-shifted twin occurs in the input. |
| LoadClean.ShiftedMember | load_n_clean.py:13-14 | Every shifted row is the shift of some input row. |
| LoadClean.ShiftKeepsMinute | load_n_clean.py:13-17 | Shifting by one hour keeps the minute of the hour. |
| LoadClean.ShiftedWholeHourCount | load_n_clean.py:13-17 | The shift keeps the number of whole-hour rows. |
| LoadClean.HourMask | load_n_clean.py:17 | The mask `index.minute == 0` has one entry per row. |
| LoadClean.OnTheHour | load_n_clean.py:15-18 | The hourly filter never lengthens the series, and every row it keeps has minute 0. |
| LoadClean.OnTheHourKeeps | load_n_clean.py:15-18 | The filter keeps exactly the rows with minute 0, at strictly increasing positions, each unchanged: an exact subsequence. |
| LoadClean.OnTheHourSnoc | load_n_clean.py:15-18 | Filtering a series ending in `x` gives the filter of the rest, followed by `x` exactly when `x` is on the hour. |
| LoadClean.OnTheHourSorted | load_n_clean.py:15-18 | Filtering a sorted series leaves it sorted. |
| LoadClean.OnTheHourCount | load_n_clean.py:15-18 | A minute-0 record survives as often as it occurs in the input, and any other record does not survive. |
| LoadClean.OnTheHourMember | load_n_clean.py:15-18 | Every row kept by the filter is a row of the input. |
| LoadClean.WholeHourCount | load_n_clean.py:17 | The number of minute-0 rows is at most the length. |
| LoadClean.OnTheHourLength | load_n_clean.py:15-18 | The filtered length equals the number of minute-0 rows, duplicates counted. |
| LoadClean.ShiftCommutesWithHourly | load_n_clean.py:13-18 | Shifting then filtering gives the same series as filtering then shifting. |
| LoadClean.Cleaned | load_n_clean.py:13-18 | The shift-then-filter applied after the sort: never longer than its input, exactly as long without the hourly filter, and every minute 0 with it. |
| LoadClean.CleanedRespectsPermutation | load_n_clean.py:11-18 | Permuting the sorted rows permutes the cleaned result in the same multiset sense, so tie order after the sort does not matter. |
| LoadClean.CleanedMembers | load_n_clean.py:13-18 | Every cleaned row is an input row, shifted by 60 when Paris time is on. |
| LoadClean.CleanedSorted | load_n_clean.py:11-18 | Cleaning a sorted series keeps it sorted. |
| LoadClean.CleanedFromRaw | load_n_clean.py:6-19 | Every row of the cleaned sorted series comes from a raw row, shifted by 60 when Paris time is on. |
| LoadClean.CleanedLength | load_n_clean.py:13-18 | With the hourly filter the cleaned length is the number of whole-hour raw rows, whatever the shift. |
| Masks.Select | load_n_clean.py:18 | Boolean-mask selection never lengthens a sequence. |
| Masks.Positions | load_n_clean.py:18 | The positions a mask marks are valid row numbers. |
| Masks.SelectAt | load_n_clean.py:18 | `df[mask]` is the rows at the marked positions, in increasing order. A position is kept if and only if the mask marks it. |
| Masks.PositionsExact | load_n_clean.py:18 | The marked positions increase strictly and are exactly the positions where the mask is true. |
| Masks.PositionsIncreasing | load_n_clean.py:18 | The marked positions increase strictly. |
| Masks.PositionsMembers | load_n_clean.py:18 | A position is listed if and only if the mask is true there. |
| Masks.SelectByPositions | load_n_clean.py:18 | The k-th selected row is the row at the k-th marked position. |
| Masks.PositionsFirstFalse | src/app.py:20 | If the first entry of a mask is false, at most all the other rows are kept, and exactly those if they are all marked. |
| Tables.Gaps | src/app.py:16 | Definition: a row of gaps (NaN) of the table's width. |
| Tables.Stamps | load_n_clean.py:9-10 | The index of a series lists its timestamps in order. |
| Tables.Lookup | src/app.py:16 | Looking a stamp up in a series gives a gap if and only if the series has no row there. |
| Tables.LookupAt | src/app.py:16 | In a series without repeated stamps, looking up a row's stamp gives that row's close. |
| Tables.RowAt | src/app.py:16 | Reindexing the table at a stamp gives gaps where the table has no row, and, for a strictly increasing index, otherwise its row there. |
| Tables.Merge | src/app.py:16 | The outer join keeps the row count equal to the index length, and each row is one cell wider. |
| Tables.MergeIndex | src/app.py:16 | The joined index is the union of the two indexes and is strictly increasing. |
| Tables.MergeIndexFrameFirst | src/app.py:16 | The union holds when the table's first stamp comes first. |
| Tables.MergeIndexSeriesFirst | src/app.py:16 | The union holds when the series' first stamp comes first. |
| Tables.MergeIndexBothFirst | src/app.py:16 | The union holds when both start at the same stamp. |
| Tables.MergeCells | src/app.py:16 | Every joined row is the table's row at that stamp (gaps if it had none), followed by the series' close there (a gap if it had none). |
| Tables.MergeCellsFrameFirst | src/app.py:16 | The cell alignment holds when the table's first stamp comes first. |
| Tables.MergeCellsSeriesFirst | src/app.py:16 | The cell alignment holds when the series' first stamp comes first. |
| Tables.MergeCellsBothFirst | src/app.py:16 | The cell alignment holds when both start at the same stamp. |
| Tables.CellsFrameFirst | src/app.py:16 | Prepending the table's own first row, with a gap for the series, keeps the alignment. |
| Tables.CellsSeriesFirst | src/app.py:16 | Prepending the series' first row, with gaps for the table, keeps the alignment. |
| Tables.CellsBothFirst | src/app.py:16 | Prepending a row that both share keeps the alignment. |
| Tables.SeriesFirstHead | src/app.py:16 | A stamp only the series has gives gaps in the table and the series' close. |
| Tables.SeriesTable | src/app.py:13 | `load_data(...)['close']` as a one-column table indexed by the series' timestamps. |
| Tables.SeriesTableAligned | src/app.py:13 | A one-column table of a series without repeated stamps is aligned with that series. |
| Tables.Concat | src/app.py:16 | `pd.concat([df, new_df], axis=1)` appends the new column name. |
| Tables.ConcatAligned | src/app.py:16 | Each join adds one column, keeps the index the sorted union of all stamps seen, and makes every cell the asset's close at that stamp or a gap when the asset has no row there. |
| Dashboard.Universe | src/app.py:12 | `tbNames`: the eight asset names in column order. |
| Dashboard.UniverseDistinct | src/app.py:12 | The universe has eight names and none repeats. |
| Dashboard.AlignedRenamed | src/app.py:17 | Renaming the columns to the universe keeps the cells and the index. |
| Dashboard.LoadedExtend | src/app.py:14-15 | One more loaded series keeps every series cleaned with the default flags. |
| Dashboard.JoinedExtend | src/app.py:14-16 | One more join keeps the loop's alignment invariant. |
| Dashboard.AssembleTable | src/app.py:12-17 | Every asset is loaded with the default flags. The result is a table if and only if all eight series are loaded and none repeats a stamp. Otherwise it is `DuplicateTimestamps`, and then one of the series loaded so far does repeat a stamp. The table's columns are the universe in order, its index is the sorted union of all stamps, and each cell is defined if and only if that asset has a row at that stamp, holding its close there. No two columns share a name. |
| Transforms.CellChange | src/app.py:20 | The change is defined if and only if both prices are present and the earlier one is non-zero; compounding it onto the earlier price gives the later one. |
| Transforms.ChangeRows | src/app.py:20 | `pct_change` keeps the number of rows and the width. |
| Transforms.FillRow | src/app.py:20 | One row of `fillna(method='pad')` inside `pct_change`: a present cell is kept, and a cell is a gap if and only if it and the cell above are both gaps. |
| Transforms.FFill | src/app.py:20 | The forward fill keeps the number of rows and the width. |
| Transforms.FFillAt | src/app.py:20 | A present cell is kept and a gap takes the filled value of the row above. |
| Transforms.FFillAtEarlier | src/app.py:20 | The fill, for every row but the last. |
| Transforms.FFillAtLast | src/app.py:20 | The fill, for the last row. |
| Transforms.FFillNoGaps | src/app.py:20 | Filling a table without gaps changes nothing. |
| Transforms.FFillLeadingGaps | src/app.py:20 | After the fill, a cell is a gap if and only if its column has had no price up to that row. |
| Transforms.Prices | src/app.py:20 | The prices `pct_change` compares have the table's shape. |
| Transforms.PricesNoGaps | src/app.py:20 | For a table without gaps, the prices compared are the table's own, padded or not. |
| Transforms.PctChange | src/app.py:20-21 | `df.pct_change()` keeps the columns, the index and the shape. |
| Transforms.CompleteMask | src/app.py:20 | The `dropna` mask has one entry per row. |
| Transforms.DropNa | src/app.py:20 | `dropna()` keeps the columns and leaves no gap. |
| Transforms.SimpleReturns | src/app.py:20 | `rets` keeps the columns, has the table's shape and has no gap. |
| Transforms.ChangeComplete | src/app.py:20 | The first change row is complete only for a table with no columns. A later row is complete if and only if every column's change is defined there. |
| Transforms.ReturnsPositions | src/app.py:20 | `rets` holds, in order, exactly the rows of `pct_change()` without any gap, with their stamps. |
| Transforms.ReturnsKeep | src/app.py:20 | Row-wise dropping: a later row survives if and only if every asset's change is defined there, and the first row survives only in a table with no columns. |
| Transforms.ReturnsAt | src/app.py:20 | The k-th return row is a complete change row, with its stamp. |
| Transforms.ReturnsFormula | src/app.py:20 | Every return cell is `P[i]/P[i-1] - 1` for the row `i >= 1` it came from, with both prices present and the earlier one non-zero. |
| Transforms.ChangeFirst | src/app.py:20 | The first change row is all gaps. |
| Transforms.CompleteChange | src/app.py:20 | A complete change row holds the defined change of every column. |
| Transforms.ReturnsSkipFirst | src/app.py:20 | For a table with at least one column and a strictly increasing index, the first stamp never appears in `rets`. |
| Transforms.ReturnsCount | src/app.py:20 | `rets` has at least one row fewer than the price table (`|rets| <= |df| - 1`), and exactly one fewer when the table has no gap and no zero price. |
| Transforms.PlusOne | src/app.py:21 | `1 + pct_change()` keeps the shape. |
| Transforms.Step | src/app.py:21 | One step of the running product keeps the width. |
| Transforms.Running | src/app.py:21 | The running product has one entry per column. |
| Transforms.Emit | src/app.py:21 | One output row of `cumprod` has the row's width. |
| Transforms.CumProd | src/app.py:21 | `cumprod()` keeps the number of rows and the width. |
| Transforms.RunningIsProduct | src/app.py:21 | The running product of a column is the product of its present factors so far, with gaps skipped. |
| Transforms.CumProdAt | src/app.py:21 | Row i of `cumprod` is the running product over rows 0..i, with a gap where row i has one. |
| Transforms.Ones | src/app.py:22 | Definition: the row written by `cumrets.iloc[0] = 1.` is all ones. |
| Transforms.CumulativeReturns | src/app.py:21-22 | `cumrets` keeps the columns and the index, and its first row is 1. |
| Transforms.CumulativeAt | src/app.py:21-22 | Every later cell of `cumrets` is the product of the growth factors of its column up to that row, or a gap where that row's change is a gap. |
| Transforms.GrowthAt | src/app.py:21 | Where both prices are present, `1 + pct_change()` is the price ratio. |
| Transforms.ProductFirst | src/app.py:21 | The product of the first factor alone is `P0/P0`. |
| Transforms.ProductTelescopes | src/app.py:21 | For prices without gaps or zeros, the product of the growth factors up to row i is `P[i]/P[0]`. |
| Transforms.ProductLater | src/app.py:21 | The telescoping, for rows after the first. |
| Transforms.TelescopeStep | src/app.py:21 | One more factor carries `P[i-1]/P[0]` to `P[i]/P[0]`. |
| Transforms.CumulativeTelescopes | src/app.py:21-22 | For prices without gaps or zeros, `cumrets[i] = P[i]/P[0]` in every column (1 at row 0). |
| Transforms.LaterTelescopes | src/app.py:21-22 | The same, for rows after the first. |
| Transforms.CumulativeRecurrence | src/app.py:21-22 | For prices without gaps or zeros, `cumrets[i] = cumrets[i-1] * P[i]/P[i-1]`. |
| Dashboard.ComputeReturns | src/app.py:20-22 | `rets` is the simple-returns table: same columns, no gaps. `cumrets` is an error for a table without rows (the `iloc[0]` write fails), and otherwise the cumulative-returns table with first row 1. |
| Transforms.IndexOf | src/app.py:100 | The first column carrying a name. |
| Transforms.Missing | src/app.py:100 | The requested names that are not columns; it is empty if and only if every requested name is a column. |
| Transforms.Column | src/app.py:100 | Definition: a column of the table, one cell per row. |
| Transforms.SelectColumns | src/app.py:100 | `t[names]` fails with the list of unknown names if and only if some requested name is not a column. Otherwise it has exactly the requested columns, in the requested order, over the same index. |
| Transforms.SelectedColumn | src/app.py:100 | A selected column holds exactly the values of the table's column of that name. |
| Transforms.SelectAll | src/app.py:100 | Selecting every column, in order, gives back the table. |
| Transforms.SelectTwice | src/app.py:110 | Selecting `b` from a selection `a` that contains `b` equals selecting `b` directly. |
| Dashboard.HalfHourRecordDropped | load_n_clean.py:15-18 | A record at a half-hour mark is dropped with the hourly filter and kept, shifted, without it. |
| Dashboard.ExamplePrices | src/app.py:17 | A two-asset price table without gaps or zero prices. |
| Dashboard.ExampleReturns | src/app.py:20 | Prices 100, 110, 99 give returns +0.1 and -0.1 at the second and third stamps. |
| Dashboard.ExampleCumulative | src/app.py:21-22 | The same prices give cumulative returns 1.0, 1.1, 0.99. |

## Left out

- Reading from SQLite (load_n_clean.py:7-9, 12): the raw rows are a parameter. Connections, SQL and the table name are not modelled.
- `pd.to_datetime` (load_n_clean.py:10): timestamps are whole minutes since an epoch that falls on a whole hour, such as the Unix epoch, given already parsed. Seconds and time zones are not modelled, and neither is daylight saving (the source has none).
- LoadData: the tie order among equal timestamps is not promised. `sort_index` uses an unstable sort, so only sortedness and the multiset of rows are stated.
- Tables.Concat: both inputs must be free of repeated stamps. pandas joins a series with repeated stamps as long as its index already equals the sorted union, so that it need not be realigned.
- Dashboard.AssembleTable: refuses every repeated stamp, while pandas raises only when a series with repeats must be realigned. Example: cleaned BTC stamps [60, 120, 120] and every other asset [60, 120]. Each union equals BTC's index, so pandas builds a three-row table with 120 twice; the model returns `DuplicateTimestamps` at the first join.
- Transforms.CellChange: a zero previous price gives a gap here. pandas gives `inf` or `NaN`, which `dropna` keeps or drops differently.
- Transforms.PctChange: the `pad` flag chooses between pandas' older default (forward-fill first) and no fill. The deprecation warning is not modelled.
- Floating-point rounding: prices and returns are exact reals, so `110/100 - 1` is exactly 0.1.
- The correlation matrix `rets[selected_assets].corr()` (src/app.py:110): it needs square roots, which are not modelled. Only the column selection it starts from is.
- Transforms.SelectColumns: a table with repeated column names is not modelled. The universe has none, and for such a table pandas returns every matching column while the model takes the first. The message text of pandas' `KeyError` is not modelled; the error lists the missing names.
- The Dash app, its layout, callbacks, Plotly figures and the HTTP server (src/app.py:26 onward, apart from the two selections).
