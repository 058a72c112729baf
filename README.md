# GDP dashboard pipeline, modelled in Dafny

This project models the data core of a small GDP analysis program. The
program loads a wide table of GDP figures with one column per year. It
melts the table into one row per country and year, cleans it, and filters
and aggregates it by continent and year. It then builds chart data and a
paged dashboard from the result.

Tables are modelled as `Frame(columns, rows)`. Each row is a map from a
column label to a `Cell`, and a cell is `Missing` (NaN), `Num(v)` or
`Str(s)`. Pandas' exceptions become `Err(...)` values of a `Result`.
Reading `config.json` is replaced by a `Parsed` input, which is a missing
file, invalid JSON or a JSON object.

The modules:

- `Frames` (`frames.dfy`): the table model, `Filter`/`Count`/`Unique`, and number parsing.
- `Sorting` (`sorting.dfy`): a sort over any total preorder, and Python string order.
- `DataLoader` (`data_loader.dfy`): year columns, reshaping to long form, and summaries.
- `DataCleaner` (`data_cleaner.dfy`): fill strategies, missing-value statistics, numeric conversion, duplicate removal and the cleaning summary.
- `DataFilter` (`data_filter.dfy`): row selection and group-by aggregation.
- `ParseCsv` (`parse_csv.dfy`) and `RowFilters` (`filter.dfy`): the two other copies of the selection helpers.
- `Graph` (`graph.dfy`): the unit choice and the sorted copy behind the bar chart.
- `Dashboard` (`dashboard.dfy`): pages, grid layout and keyboard navigation.
- `ConfigLoader` (`config_loader.dfy`) and `ConfigParser` (`config_parser.dfy`): the two configuration readers.

Behaviour worth noting:

- `astype(float)` on a year cell that holds non-numeric text raises `ValueError`; it does not produce a missing value (`DataLoader.ReshapeToLong`).
- Forward and backward fill leave a leading or trailing gap missing, so not every strategy leaves zero missing cells (`DataCleaner.ForwardFillKeepsLeadingGap`).
- Mode ties go to the smallest value, as in pandas' sorted `mode()`.
- An unknown strategy name raises only when there is at least one numeric column to process.

## Model

| member | source | states |
|---|---|---|
| `DataLoader.GetYearColumns` | data_loader.py:23-30 | exactly the labels that are all digits with a value in 1900..2100, each as often as in the table, in string order |
| `DataLoader.GetMetadataColumns` | data_loader.py:33-40 | exactly the non-year labels, in their original order |
| `DataLoader.YearAndMetadataPartitionColumns` | data_loader.py:39-40 | year and metadata columns together are the table's columns as a multiset |
| `DataLoader.YearColumnsIdempotent` | data_loader.py:29-30 | taking the year columns of the year columns changes nothing |
| `DataLoader.YearColumnsInNumericOrder` | data_loader.py:30 | the string-sorted year labels are in numeric order |
| `DataLoader.ReshapeToLong` | data_loader.py:43-69 | a `ValueError` exactly when some year cell cannot be cast to float; otherwise the columns are metadata, `Year`, `GDP_Value`, with rows × years records |
| `DataLoader.ReshapeCell` | data_loader.py:55-67 | long row `j*n+i` carries row `i`'s metadata, year `j` as an integer and that cell as a float |
| `DataLoader.ExtractRegionsUnique` | data_loader.py:72-81 | the distinct continent names, sorted, without repeats; `[]` without the column |
| `DataLoader.ExtractCountriesUnique` | data_loader.py:84-93 | the distinct country names, sorted, without repeats; `[]` without the column |
| `DataLoader.ExtractYearsRange` | data_loader.py:96-106 | none without a `Year` column or value; otherwise the least and greatest year present |
| `DataLoader.DataInfoOfReshape` | data_loader.py:109-129 | for a table and its long form: long records = original records × year columns, and there is a year range exactly when both are non-zero |
| `DataCleaner.StrategyName` | src/data_cleaner.py:44-50 | every strategy's name is a key of the strategy table |
| `DataCleaner.LookupStrategy` | src/data_cleaner.py:108-110 | found exactly for the five names, and the found strategy carries that name |
| `DataCleaner.LookupStrategyName` | src/data_cleaner.py:44-50 | every strategy is found under its own name |
| `DataCleaner.MeanStrategy` | src/data_cleaner.py:13-16 | a mean exists exactly when the column holds a number |
| `DataCleaner.MeanWithinRange` | src/data_cleaner.py:13-16 | the mean lies between the least and greatest value |
| `DataCleaner.MedianStrategy` | src/data_cleaner.py:19-22 | a median exists exactly when the column holds a number |
| `DataCleaner.MedianSplitsValues` | src/data_cleaner.py:19-22 | the median lies between min and max, with at least half the values at or below it and at least half at or above it |
| `DataCleaner.MostFrequent` | src/data_cleaner.py:28 | a candidate no other candidate outnumbers, the smallest among equally frequent ones |
| `DataCleaner.ModeStrategy` | src/data_cleaner.py:25-28 | a value of greatest frequency, or the mean (NaN) when there is no value |
| `DataCleaner.FillNa` | src/data_cleaner.py:116 | missing cells become the fill value and all others are unchanged; a NaN fill changes nothing |
| `DataCleaner.ForwardFillIsLastNonMissing` | src/data_cleaner.py:31-34 | each forward-filled cell is the last non-missing cell at or before it |
| `DataCleaner.BackwardFillIsFirstNonMissing` | src/data_cleaner.py:37-40 | each backward-filled cell is the first non-missing cell at or after it |
| `DataCleaner.FillValue` | src/data_cleaner.py:115 | a statistical strategy has a fill value exactly when the column holds a number |
| `DataCleaner.HandleMissingValuesInColumn` | src/data_cleaner.py:95-116 | a `ValueError` whose text names the strategy and lists the five keys, exactly for names outside the table; otherwise the named strategy applied to the column, of the same length |
| `DataCleaner.StrategyKeepsPresentCells` | src/data_cleaner.py:112-116 | no strategy changes a non-missing cell |
| `DataCleaner.StatisticFillsEveryGap` | src/data_cleaner.py:114-116 | mean, median and mode fill every gap of a column that holds a number |
| `DataCleaner.ForwardFillKeepsLeadingGap` | src/data_cleaner.py:31-34 | forward fill leaves `[NaN, 1]` unchanged |
| `DataCleaner.MeanFillExample` | src/data_cleaner.py:108-116 | `[100, NaN, 300]` filled by "mean" gives `[100, 200, 300]` |
| `DataCleaner.MissingPercentage` | src/data_cleaner.py:60 | NaN for an empty column; otherwise in [0, 100], 0 iff nothing is missing, 100 iff everything is |
| `DataCleaner.DetectMissingValues` | src/data_cleaner.py:53-62 | one entry per column label, holding that column's missing percentage |
| `DataCleaner.IdentifyNumericColumns` | src/data_cleaner.py:65-73 | exactly the columns without text, in table order |
| `DataCleaner.ToNumericCoerces` | src/data_cleaner.py:85 | a converted cell is missing iff it was missing or unparsable text; numbers and numeric text keep their value |
| `DataCleaner.ToNumericIdempotent` | src/data_cleaner.py:85 | converting twice is converting once |
| `DataCleaner.ConvertToNumeric` | src/data_cleaner.py:76-92 | as written: every listed column receives the conversion of the last listed column; a `KeyError` iff that column is absent; other columns unchanged |
| `DataCleaner.ConvertEachToNumeric` | src/data_cleaner.py:76-92 | as intended: each listed column is converted from its own cells; a `KeyError` iff some listed column is absent |
| `DataCleaner.LateBindingLosesColumn` | src/data_cleaner.py:84-90 | on `{a: 1, b: NaN}` the code as written turns `a` into NaN, while the intended version keeps 1 |
| `DataCleaner.DropAllMissingRows` | src/data_cleaner.py:132-133 | exactly the rows with a value, in order, each as often as it occurs |
| `DataCleaner.DropAllMissingColumns` | src/data_cleaner.py:136-137 | exactly the columns with a value, in order; rows unchanged |
| `DataCleaner.HandleMissingValuesInDataframe` | src/data_cleaner.py:119-153 | each numeric column is replaced by its strategy's result and every other column is unchanged; an unknown name raises when there is a numeric column |
| `DataCleaner.ProcessColumns` | src/data_cleaner.py:143-151 | after the write-back loop each processed column holds its result and every other column is unchanged |
| `DataCleaner.StatisticLeavesNoGap` | src/data_cleaner.py:129-151 | with dropping on and mean, median or mode, no numeric column keeps a missing cell |
| `DataCleaner.DedupRowsKeepsFirst` | src/data_cleaner.py:161 | the result is a subsequence whose keys are the input's distinct keys in order of first appearance, and each kept row is the first row with its key |
| `DataCleaner.DedupRowsDistinct` | src/data_cleaner.py:161 | rows whose keys are already pairwise distinct come through unchanged (the step behind idempotence) |
| `DataCleaner.RemoveDuplicateRows` | src/data_cleaner.py:156-161 | a `KeyError` naming the first absent subset label, exactly when some subset label is absent; the columns are unchanged |
| `DataCleaner.RemoveDuplicateRowsKeepsFirst` | src/data_cleaner.py:161 | the kept keys are the distinct keys in order of first appearance and each kept row is the first with its key (keep='first'); removing twice is removing once |
| `DataCleaner.CleanDataframe` | src/data_cleaner.py:176-202 | deduplicates first, then handles missing values with dropping on, each step only when asked |
| `DataCleaner.ColumnsWithMissing` | src/data_cleaner.py:232-233 | zero exactly when no column has a positive missing share |
| `DataCleaner.ImprovedColumns` | src/data_cleaner.py:221-225 | exactly the columns in both frames whose missing share fell, in order |
| `DataCleaner.GetCleaningSummary` | src/data_cleaner.py:205-236 | rows removed = rows before − rows after; the counts are those of the two frames |
| `DataCleaner.ImprovedMeansStrictlyFewerMissing` | src/data_cleaner.py:220-225 | a column is improved iff it is in both non-empty frames and its missing share strictly fell |
| `DataFilter.Where` | src/data_filter.py:7-16 | a `KeyError` iff the column is absent; otherwise exactly the matching rows, in order, as many as match |
| `DataFilter.Region` | src/data_filter.py:7-8 | exactly the rows of that continent, in order, each as often as it occurs; `KeyError` without the column |
| `DataFilter.Country` | src/data_filter.py:11-12 | exactly the rows of that country, in order, each as often as it occurs; `KeyError` without the column |
| `DataFilter.Year` | src/data_filter.py:15-16 | exactly the rows of that year, in order, each as often as it occurs; `KeyError` without the column |
| `DataFilter.WhereNoMatchIsEmpty` | src/data_filter.py:7-8 | no match gives an empty frame with the same columns, not an error |
| `DataFilter.WhereIdempotent` | src/data_filter.py:7-8 | selecting twice by the same value is selecting once |
| `DataFilter.WhereCommutes` | src/data_filter.py:7-16 | two selections give the same rows in either order |
| `DataFilter.GroupKeys` | src/data_filter.py:21-25 | the distinct non-missing key values of the rows |
| `DataFilter.Accumulate` | src/data_filter.py:19-26 | `KeyError` without an operation; unchanged data for other operations; for average/sum one row per group with columns `[key, GDP_Value]` |
| `DataFilter.AccumulateGroups` | src/data_filter.py:20-25 | row `i` holds group key `i` with its group's sum, or mean (NaN without values) |
| `DataFilter.GroupAverageIsMeanOfGroup` | src/data_filter.py:20-22 | a group's average is `mean()` of the `GDP_Value` column of the rows that `Where` selects for its key, NaN when they hold no number; it lies between the least and the greatest of the group's values |
| `DataFilter.SumOfGroupsIsTotal` | src/data_filter.py:23-25 | the group sums over the keys add up to the total of the rows with those keys |
| `DataFilter.AccumulateSumPreservesTotal` | src/data_filter.py:23-25 | summing per group preserves the total GDP of the keyed rows |
| `ParseCsv.FilterByRegion` | parse_csv.py:8-9 | exactly the rows of that continent, in order, each as often as it occurs; `KeyError` without the column |
| `ParseCsv.FilterByCountry` | parse_csv.py:12-13 | exactly the rows of that country, in order, each as often as it occurs; `KeyError` without the column |
| `ParseCsv.FilterByYear` | parse_csv.py:16-17 | the year column, one cell per row, or a `KeyError` iff the label is absent |
| `ParseCsv.RegionYearColumn` | parse_csv.py:8-17 | a year column taken after the continent selection holds exactly that continent's cells for the year |
| `RowFilters.Region` | filter.py:7-8 | exactly the rows of that continent, in order, each as often as it occurs; `KeyError` without the column |
| `RowFilters.Country` | filter.py:11-12 | exactly the rows of that country, in order, each as often as it occurs; `KeyError` without the column |
| `RowFilters.Year` | filter.py:15-16 | exactly the rows of that year, in order, each as often as it occurs; `KeyError` without the column |
| `RowFilters.RegionYearCommute` | filter.py:7-16 | region-then-year equals year-then-region |
| `Graph.MaxValue` | graph.py:7 | the largest number present, or none when there is no number |
| `Graph.UnitFor` | graph.py:8-19 | the tiers ≥1e12, [1e9, 1e12), [1e6, 1e9) and the rest (or NaN) do not overlap |
| `Graph.Humanize` | graph.py:6-20 | `KeyError` without the column and `TypeError` on text; otherwise the unit is the tier of the maximum, every row's `Display_Val` is its value divided by that tier's divisor (1e12, 1e9, 1e6 or 1, as `Graph.Divisor` states) and stays missing where the value is, and the other columns are unchanged |
| `Graph.HumanizeScale` | graph.py:9-18 | `Display_Val` is missing exactly where the value is and orders the rows as the values do; it equals the values in the "Value" tier; in the other tiers some row reads at least 1; in the billions and millions tiers every row reads below 1000 (trillions have no upper bound, and the "Value" tier has no lower one) |
| `Graph.HumanizeNumbers` | graph.py:6-20 | writes the humanized frame into the caller's frame in place; on an error the frame is unchanged |
| `Graph.Barplot` | graph.py:24-28 | rows sorted ascending by `Display_Val` and a permutation of the humanized rows |
| `Graph.BarplotAscending` | graph.py:28 | numbers ascend and rows without a value come last |
| `Graph.BarplotData` | graph.py:23-28 | the caller's frame is unchanged, and the result is the sorted humanized copy |
| `Dashboard.DashboardApp.constructor` | src/ui/dashboard.py:5-7 | no pages, index 0 |
| `Dashboard.DashboardApp.AddNewPage` | src/ui/dashboard.py:13-16 | appends one fresh page with the title and no elements, returns it, and leaves earlier pages and the index alone |
| `Dashboard.DashboardApp.AddElement` | src/ui/dashboard.py:18-19 | appends one element to that page only |
| `Dashboard.GridFor` | src/ui/dashboard.py:26-31 | none for no elements; otherwise 1 column for one element, else 2, with rows × cols ≥ n and no empty row |
| `Dashboard.DashboardApp.RenderCurrentPage` | src/ui/dashboard.py:21-35 | `IndexError` without pages; otherwise the page's title and grid, with element `i` in subplot `i+1` inside the grid |
| `Dashboard.Step` | src/ui/dashboard.py:40-46 | right and left give an index in [0, n) or `ZeroDivisionError` when n = 0; other keys keep the index |
| `Dashboard.DashboardApp.OnKey` | src/ui/dashboard.py:40-48 | moves the index by `Step`, keeps it valid, then renders the new current page |
| `Dashboard.LeftUndoesRight` | src/ui/dashboard.py:41-46 | a left press undoes a right press and the other way round |
| `Dashboard.RightPresses` | src/ui/dashboard.py:41-43 | k right presses from page i reach page (i + k) mod n |
| `Dashboard.RightCycle` | src/ui/dashboard.py:41-43 | n right presses return to the starting page |
| `ConfigLoader.MissingKeys` | src/config_loader.py:10 | exactly the required keys that are absent, in the order region, operation, year, output |
| `ConfigLoader.GetConfigOptions` | src/config_loader.py:4-23 | a copy of the whole document, extra keys included, exactly when it is a JSON object with all four keys; otherwise none |
| `ConfigLoader.EmptyDocumentMissesAll` | src/config_loader.py:5-10 | an empty document lacks all four keys, in order |
| `ConfigParser.GetConfigOptions` | config_parser.py:5-12 | `FileNotFoundError` propagates; invalid JSON or a missing key gives none; otherwise the tuple (region, year, operation, output) |
| `ConfigParser.ReadersAgree` | config_parser.py:5-12 | both readers accept the same documents and read the same four settings, and differ only on a missing file |

## Findings

| source | as written | input that shows it | evidently intended | confidence | as-written member | corrected member |
|---|---|---|---|---|---|---|
| src/data_cleaner.py:84-90 | each lambda reads `result[col]` only when called, after `col` is bound to the last listed label, so every listed column gets the last column's conversion | columns `[a, b]` on the row `{a: 1, b: NaN}`: `a` becomes NaN | each listed column converted from its own cells | high (not executed) | `DataCleaner.ConvertToNumeric` | `DataCleaner.ConvertEachToNumeric` |

`DataCleaner.LateBindingLosesColumn` runs both versions on that input. No other part of the model calls the conversion.

## Left out

- File I/O is not modelled: `load_csv`, the module-level `read_csv` calls and `open`/`json.load`. The loaded table and the parsed configuration are inputs.
- Printing is not modelled, including the configuration error messages and the summary output.
- Plotting is not modelled: seaborn and matplotlib calls, the bar labels, `donutplot`, `line_plot`, `scatter_plot`, `show_dashboard`, and the dashboard figure, canvas and key hook. Element functions are recorded, not called.
- `validate_data_types`, `summary_plugin` and `main.py` are outside the modelled core. `main.py` calls a `validate_config` that the loader does not define.
- Floating point is modelled with exact reals. Rounding in means, percentages and unit scaling is not modelled, and neither is the `{:.2f}` display format.
- Number parsing covers an optional sign and decimal digits with one dot. Exponents, `inf`/`nan` spellings, surrounding whitespace and non-ASCII digits are not modelled.
- Cells are numbers, text or missing. Pandas dtypes are approximated: a column is numeric when it holds no text cell. Booleans and mixed object columns are not modelled.
- Statistics, `max()` and `map(str, ...)` read only number or text cells. Text inside a numeric statistic and numbers stringified into region lists are not modelled.
- `DataLoader.ExtractYearsRange`: `map(int, ...)` is modelled on number cells only. Text cells in `Year` are skipped, where `int()` would parse digit text or raise `ValueError` on other text.
- The pandas row index is not modelled. Rows are positions, so index labels after dropping or filtering are not tracked.
- `pd.melt` output-name collisions (a metadata column already called `Year` or `GDP_Value`) are not modelled; the lemmas exclude those labels.
- `DataFilter.Accumulate` emits groups in order of first appearance, where pandas sorts them by key. The contents of each group are stated per key.
- `DataFilter.Accumulate` with `GDP_Value` as the grouping column is not modelled; the lemmas require the two columns to differ.
- `Graph.Barplot` sorts stably, while `sort_values` uses an unstable quicksort by default. Only sortedness and the permutation are promised, as in pandas.
- `DataCleaner.MissingPercentage` models the NaN share of an empty frame as none.
- A `drop_duplicates` subset that is empty, and a subset given as a single string, are not modelled.
- `DataCleaner.RemoveDuplicateRows`: the `KeyError` names the first absent subset label, where pandas lists every absent label in one error.
- A top-level JSON value that is not an object is not modelled; the parsed document is a JSON object.
