# Solar-irradiance toolkit: a Dafny model of its table transformations

The toolkit reads per-country CSV files of solar irradiance (GHI, DNI, DHI and
sensor columns) into pandas data frames, cleans them, and compares the
countries. This project models the part of it that transforms tables:

- `scripts/data_cleaning.py` and `scripts/outlier_detection.py` (module
  `DataCleaning`, `OutlierDetection`): negative readings blanked, z-score
  helper columns computed from a median-filled copy of each column, rows
  filtered column by column on `|z| <= threshold`, the surviving gaps filled
  with the median, the helpers dropped.
- `scripts/compare_utils.py` (module `CompareUtils`): the per-country files
  validated, tagged with their country and concatenated; the per-country
  summary table and its `{metric}_{stat}` labels; the ANOVA / Kruskal–Wallis
  result dictionary and the significance verdict.
- `app/utils.py` (module `AppUtils`): the country tag and the header strip
  after a read; the top-N rows by a column.
- `scripts/data_summary.py` (module `DataSummary`): the missing-value report,
  returned as a value instead of printed.

A data frame is a value `Table(names, cols, height)` (module `Frames`): named
columns of equal length whose cells are a number (`Num`, over exact reals), a
string (`Text`, for country names and timestamps) or missing (`Missing`, for
`NaN`/`None`). The pandas operations the scripts use (`df[col]`,
`df[col] = ...`, `df[mask]`, `drop(..., errors='ignore')`, `df[[...]]`,
`sort_values`, `head`, `concat`, `fillna`, `median`) are functions on it, and
the exceptions they raise (`KeyError`, a list of labels not in the index,
`TypeError` for numeric work on text, the loader's errors) are the `Err`
side of a `Result`. The functions that copy a frame and then update the copy
step by step are methods over a `DataFrame` class whose field the pandas
updates reassign; each is proved against a function that folds the same
loop, and the properties the toolkit promises are lemmas about those
functions. Generic sequence facts (`Seqs`) and the statistics behind the
z-score, the median and `round` (`Stats`) are modules of their own.

The code departs from the toolkit's design description in a few places; the
model follows the code:

- A zero standard deviation gives `NaN` scores (`Missing` in every row of the
  helper column); no score of 0 is substituted.
- `perform_stat_tests` does not check the number of groups or their sizes; the
  tests receive whatever groups exist.
- The cleaned columns are free of gaps only where a surviving row had a
  reading at that column's step (`CleanFillsGaps`); a column with none keeps
  its gaps, since `median()` is `NaN` and `fillna(NaN)` fills nothing.
- `load_country_data` raises on an empty file but not on a file of zero rows,
  and `read_csv(parse_dates=['Timestamp'])` fails on a file without
  `Timestamp` before the required-column check can name it.
- The "no column above the threshold" message states 5% whatever the
  threshold is (`QuietPercent`).

## Model

| member | source | states |
|---|---|---|
| Frames.Assign | scripts/data_cleaning.py:7 | `df[name] = c` keeps the height, overwrites the column in place or appends the label at the end, and leaves every other column's cells as they were |
| Frames.DropCol | scripts/data_cleaning.py:18 | the columns that remain after `drop(columns=...)` keep their cells |
| Frames.DropAbsent | scripts/data_cleaning.py:18 | with `errors='ignore'`, dropping an absent label changes nothing |
| Frames.Select | scripts/data_cleaning.py:16 | `df[mask]` keeps the labels, has as many rows as the mask has `true` entries, and each column keeps exactly the selected cells in their order |
| Frames.Rename | app/utils.py:15 | assigning `df.columns` changes the labels only |
| Frames.Pick | app/utils.py:30 | the reordered frame has row `k` equal to input row `rows[k]` in every column |
| Frames.Take | app/utils.py:30 | `head(count)` keeps the labels and the first `count` cells of each column |
| Frames.Project | app/utils.py:30 | `df[[...]]` succeeds exactly when every label is present, then holds those columns in the listed order; otherwise the error lists the absent labels |
| Frames.Tag | scripts/compare_utils.py:25 | `df['Country'] = country` puts the name in every row of `Country` (overwritten or appended) and leaves the other columns alone |
| Frames.FillMissingSpec | scripts/data_cleaning.py:17 | `fillna(v)` changes exactly the missing cells; with a value at hand no missing cell is left |
| Frames.MaskFillMissing | scripts/data_cleaning.py:16-17 | filling then filtering rows equals filtering then filling |
| Frames.ImputeMedianSpec | scripts/data_cleaning.py:17 | median imputation leaves no gap in a column with a reading, and every filled value lies within any bounds the readings obey |
| Frames.DataFrame.Copy | scripts/data_cleaning.py:5 | `df.copy()` is a new object with the same contents |
| Frames.DataFrame.SetItem | scripts/data_cleaning.py:7 | `df[col] = ...` updates the object to the assigned frame |
| Frames.DataFrame.DropColumn | scripts/data_cleaning.py:18 | in-place `drop` updates the object to the frame without the label |
| Frames.DataFrame.Where | scripts/data_cleaning.py:16 | `df[mask]` is a new object holding the selected rows |
| Frames.DataFrame.SetColumns | app/utils.py:15 | `df.columns = names` relabels the object in place |
| Frames.KeyLeTotalPreorder | scripts/compare_utils.py:59 | the order `groupby` sorts its keys in is total and transitive |
| Frames.KeyLeAntisymmetric | scripts/compare_utils.py:59 | two keys that are each at most the other are equal, so the sorted keys are strictly ascending |
| Stats.Median | scripts/data_cleaning.py:17 | `median()` exists exactly when there is a reading |
| Stats.MedianIsMiddle | scripts/data_cleaning.py:17 | at least half the readings lie at or below the median and at least half at or above |
| Stats.MedianWithin | scripts/data_cleaning.py:17 | the median lies within any bounds all readings obey |
| Stats.ZScoresSumToZero | scripts/outlier_detection.py:9 | standard scores against the mean sum to zero |
| Stats.ZScoresUnitVariance | scripts/outlier_detection.py:9 | with the population deviation, the squared scores sum to the number of readings (unit variance) |
| Stats.ZScoresMonotone | scripts/outlier_detection.py:9 | a larger reading never scores lower, and the mean scores 0 |
| Stats.RoundIsNearest | scripts/compare_utils.py:75-76 | `round(x, places)` is a whole number of `10^-places` steps at most half a step from `x` |
| OutlierDetection.ZNameInjective | scripts/outlier_detection.py:9 | distinct columns get distinct `_zscore` helpers, and no helper is its own column |
| OutlierDetection.FilledAt | scripts/outlier_detection.py:9 | the values `zscore` sees: a reading stays, a gap becomes the column's median |
| OutlierDetection.ZScoreColumnScores | scripts/outlier_detection.py:9 | with nonzero deviation the helper column holds the standard scores of the filled column |
| OutlierDetection.ZScoreOfGap | scripts/outlier_detection.py:9 | a gap scores as the median does, against the mean and deviation of the filled column |
| OutlierDetection.ZScoreValues | scripts/outlier_detection.py:9 | the helper column read back as numbers is the standardised filled column |
| OutlierDetection.ZScoresStandardized | scripts/outlier_detection.py:9 | the helper column has mean 0 and unit population variance |
| OutlierDetection.ZScoresOrdered | scripts/outlier_detection.py:9 | scores keep the order of the readings, and a reading at the mean scores 0 |
| OutlierDetection.ComputeZScores | scripts/outlier_detection.py:5-10 | works on a fresh copy and ends in the state the fold of the loop describes, or raises its exception |
| OutlierDetection.ZScoresPrefix | scripts/outlier_detection.py:8-9 | after `i` passes the loop has raised exactly when an earlier column is absent or holds text, and otherwise holds the input plus the first `i` helpers |
| OutlierDetection.ZScoresResult | scripts/outlier_detection.py:5-10 | succeeds exactly when every column is present and text-free; then one helper per column is appended, the row count and the original columns (gaps included) are unchanged, and each helper holds that column's scores |
| DataCleaning.MaskNegatives | scripts/data_cleaning.py:7 | no negative reading is left, zero and positive readings stay, and the only change is a negative reading turned missing |
| DataCleaning.MaskNegativesIdempotent | scripts/data_cleaning.py:7 | blanking twice is blanking once, and text cells stay where they were |
| DataCleaning.HandleNegativeIrradiance | scripts/data_cleaning.py:3-8 | works on a fresh copy and ends in the state the fold of the loop describes, or raises its exception |
| DataCleaning.NegativesPrefix | scripts/data_cleaning.py:6-7 | after `i` passes the loop has raised exactly when an earlier column is absent or holds text, and otherwise has blanked just those columns |
| DataCleaning.NegativesResult | scripts/data_cleaning.py:3-8 | succeeds exactly when every named column is present and text-free; then labels and row count are unchanged, named columns are blanked and every other column is as it was |
| DataCleaning.NegativesIdempotent | scripts/data_cleaning.py:3-8 | on a frame with distinct labels, a second pass over its own output returns that output unchanged |
| DataCleaning.CleanOutliersAndMissing | scripts/data_cleaning.py:10-19 | works on a fresh copy and ends in the state the fold of the loop describes, or raises its exception |
| DataCleaning.CleanPrefix | scripts/data_cleaning.py:13-18 | after `i` passes the loop has raised exactly when an earlier pass failed, and otherwise has filled and unhelpered the first `i` columns over the rows that survived their filters |
| DataCleaning.CleanResult | scripts/data_cleaning.py:10-19 | succeeds exactly when each pass does; the result drops the helpers, keeps the surviving rows in order, and fills each listed column with the median taken after its own filter and the earlier ones |
| DataCleaning.SurvivorRows | scripts/data_cleaning.py:14-16 | a row survives exactly when, for each earlier listed column with a helper, its score is a number of absolute value at most the threshold (at the threshold kept, `NaN` dropped) |
| DataCleaning.CleanDropsHelpers | scripts/data_cleaning.py:18 | no helper of a processed column remains, whether or not it was present |
| DataCleaning.FillValueExists | scripts/data_cleaning.py:17 | the fill value exists exactly when a row surviving that column's filter has a reading in it |
| DataCleaning.CleanFillsGaps | scripts/data_cleaning.py:16-17 | a processed column with a reading at its step has no gap in the result |
| CompareUtils.LoadOne | scripts/compare_utils.py:18-25 | one file loads exactly when it exists, parses and has every required column, and is then tagged; the missing-column error lists the absent required columns in order |
| CompareUtils.LoadAllResult | scripts/compare_utils.py:17-26 | the loop succeeds exactly when every file loads, and then holds one tagged frame per file in dictionary order |
| CompareUtils.LoadAllFailure | scripts/compare_utils.py:17-28 | otherwise it raises the exception of the first file that fails |
| CompareUtils.Concat | scripts/compare_utils.py:29 | `pd.concat` fails exactly on no frames; otherwise it has the labels of the parts in order of first appearance, the sum of the row counts, and each column stacked part after part (`StackedRow` and `StackedOrigin` say where each row comes from) |
| CompareUtils.ConcatSameLabels | scripts/compare_utils.py:29 | parts with the same labels give exactly those labels |
| CompareUtils.StackedRow | scripts/compare_utils.py:29 | row `i` of part `k` is row `RowOf(parts, k, i)` of the result |
| CompareUtils.StackedOrigin | scripts/compare_utils.py:29 | every row of the result comes from some part |
| CompareUtils.LoadCountryData | scripts/compare_utils.py:13-29 | returns a fresh object holding the concatenated frame, or the exception of the first failure |
| CompareUtils.LoadCountryOutcome | scripts/compare_utils.py:13-29 | succeeds exactly when there is a file and every file loads; otherwise the error is that of the first failing file or of the empty concatenation |
| CompareUtils.LoadCountryRows | scripts/compare_utils.py:26-29 | the row count is the sum of the files' and each file's rows appear at their place in dictionary order |
| CompareUtils.LoadedTag | scripts/compare_utils.py:25 | a loaded file carries its dictionary key in every row |
| CompareUtils.LoadCountryTagged | scripts/compare_utils.py:25-29 | row `i` of the `k`-th file has `Country` equal to the `k`-th key |
| CompareUtils.LoadCountryTags | scripts/compare_utils.py:25-29 | every row of the result carries one of the keys |
| CompareUtils.GroupKeysSpec | scripts/compare_utils.py:59 | the groups are the distinct non-missing `Country` values, strictly ascending |
| CompareUtils.SampleAsOneFilter | scripts/compare_utils.py:71 | taking a group's rows and then dropping the missing cells is one filter over the rows: those of the group whose metric is present |
| CompareUtils.SampleSpec | scripts/compare_utils.py:71 | a group's sample is exactly the non-missing cells of the metric in the rows of that group: its `j`-th cell is the metric at the `j`-th such row, rows strictly increase and none is skipped |
| CompareUtils.SummaryNamesAt | scripts/compare_utils.py:60 | the label of statistic `s` of metric `i` is `metric_stat`, metric-major, stats in the order mean, median, std |
| CompareUtils.SummaryNamesDistinct | scripts/compare_utils.py:60-61 | with distinct metrics, `Country` and the joined labels are all distinct |
| CompareUtils.SummaryLabelPosition | scripts/compare_utils.py:60 | looking up `metric_stat` finds the column of that statistic of that metric |
| CompareUtils.FirstText | scripts/compare_utils.py:59 | finds a metric with text in a group exactly when there is one |
| CompareUtils.SummaryOutcome | scripts/compare_utils.py:58-62 | the table exists exactly when `Country` and every metric are columns with no text in a group; otherwise the first failing check names the error |
| CompareUtils.SummaryResult | scripts/compare_utils.py:58-62 | one row per group with `Country` the key; each statistic cell is mean, median or std of that group's readings, rounded to 2 places |
| CompareUtils.InterpretPValue | scripts/compare_utils.py:65-66 | "Significant" exactly when `p < alpha`, "Not significant" otherwise, `p == alpha` included |
| CompareUtils.VerdictBeforeRounding | scripts/compare_utils.py:75-76 | the verdict uses the unrounded p-value: 0.04996 reports 0.05 yet is significant |
| CompareUtils.PerformStatTests | scripts/compare_utils.py:68-78 | the loop builds the dictionary the specification function describes, or raises its exception |
| CompareUtils.ToMapSpec | scripts/compare_utils.py:69-77 | the dictionary has exactly the listed metrics as keys, each mapped to its entry |
| CompareUtils.StatTestsResult | scripts/compare_utils.py:68-78 | succeeds exactly when `Country` is a column and each metric is one whenever a group exists; then one entry per metric |
| CompareUtils.MetricEntryResult | scripts/compare_utils.py:71-77 | each entry runs both tests on the per-group samples in key order, with statistic to 2 and p-value to 4 places and the verdict of the unrounded p-value |
| AppUtils.StripSpec | app/utils.py:15 | stripping keeps one contiguous run of the label, inner whitespace included, and removes only whitespace before and after it |
| AppUtils.StripEnds | app/utils.py:15 | a stripped label neither starts nor ends with whitespace |
| AppUtils.StripStripped | app/utils.py:15 | a label without surrounding whitespace is left as it is |
| AppUtils.StripIdempotent | app/utils.py:15 | stripping twice is stripping once |
| AppUtils.LoadData | app/utils.py:11-16 | the returned object holds the read frame, tagged when the name is truthy, with stripped labels |
| AppUtils.LoadedLabels | app/utils.py:12-15 | the row count is the file's, and the labels are the file's (plus `Country` when a truthy name adds it) stripped |
| AppUtils.LoadedUntagged | app/utils.py:13 | without a truthy name (`None` or empty) the cells are those of the file |
| AppUtils.TagCells | app/utils.py:14 | the tag overwrites the first `Country` column or becomes a new last column, and other columns stay |
| AppUtils.LoadedTagged | app/utils.py:13-14 | with a truthy name the tag column holds the name in every row and every other column is the file's |
| AppUtils.LoadedTagLabel | app/utils.py:14-15 | the tag column is still labelled `Country` after the strip |
| AppUtils.LoadedStripped | app/utils.py:15 | no label of the loaded frame starts or ends with whitespace |
| AppUtils.AheadMeaning | app/utils.py:30 | the descending sort order is `>=` on numbers and puts missing cells last |
| AppUtils.AheadTotalPreorder | app/utils.py:30 | the descending sort order is total and transitive |
| AppUtils.SortOrderSpec | app/utils.py:30 | the sort is a permutation of the rows that puts them in descending order, missing last |
| AppUtils.HeadCount | app/utils.py:30 | `head(n)` keeps `min(n, rows)` rows, or all but the last `-n` for negative `n` |
| AppUtils.TopRegionsOutcome | app/utils.py:28-32 | succeeds exactly when `column` and `Country` exist and `column` does not mix numbers and text; otherwise the sort's `KeyError` or `TypeError`, or the projection's error naming `Country` |
| AppUtils.TopRegionsRows | app/utils.py:28-32 | the result has labels `[Region, Country, column]` when `Region` exists and `[Country, column]` otherwise, `HeadCount` rows, each a row of the input in sorted order |
| AppUtils.TopRegionsOrdered | app/utils.py:30 | the returned `column` cells are non-increasing, missing cells last |
| AppUtils.TopRegionsSelects | app/utils.py:30-32 | every row left out comes after each returned row in the sort order |
| DataSummary.CountMissing | scripts/data_summary.py:9 | a column's count is zero exactly when it has no missing cell |
| DataSummary.ListedSpec | scripts/data_summary.py:9-10 | the listed counts are exactly the positive counts, each as often as it occurs, in non-increasing order |
| DataSummary.ListedColumn | scripts/data_summary.py:9-10 | a column is listed with its count exactly when it has a missing cell |
| DataSummary.ReportComplete | scripts/data_summary.py:12-14 | "no missing values" is the outcome exactly when no column has a gap; otherwise the report lists the counts |
| DataSummary.ImportantSpec | scripts/data_summary.py:19-20 | the important counts are exactly the listed ones strictly above the limit: the `j`-th is the listed count at the `j`-th such position, positions strictly increase and none is skipped, so order and repeats are those of the listed counts |
| DataSummary.ReportAlert | scripts/data_summary.py:19-24 | columns are flagged exactly when a listed count exceeds `threshold * rows`, named with `int(threshold * 100)` and listing the labels of the important counts in their listed order; otherwise the message states 5 |
| DataSummary.Truncate | scripts/data_summary.py:21 | `int()` truncates toward zero |
| DataSummary.FlaggedPercent | scripts/data_summary.py:21-22 | at threshold 0.1 a fully missing column is flagged under "10" |
| DataSummary.QuietPercent | scripts/data_summary.py:24 | at threshold 0.1 a column missing 1 cell in 20 is listed, not flagged, and the message still states 5 |

## Left out

- Reading files and URLs (`pd.read_csv`, `os.path.exists`) is a parameter: `disk` maps a path to no file, an empty file or a parsed frame, and `load_data` receives the parsed frame. Parsing, type inference and `Timestamp` conversion to dates are not modelled.
- `print` and `display` are replaced by the returned `Report`; their formatting is not modelled.
- scipy's `zscore`, `f_oneway` and `kruskal`: the square root inside `zscore` and pandas' `std` is a parameter `sqrt`, and the two tests are parameters returning `(statistic, p)`. Their own errors and warnings (too few groups, constant input) are not modelled.
- Floating point: arithmetic is on exact reals. `round` is round-half-even on the exact value, and `int(threshold * 100)` truncates the exact product (`int(0.29 * 100)` is 28 in floats and 29 here).
- The pandas index: rows are positions, and the `ignore_index` of `concat` and the `reset_index` of the summary are positional by construction.
- Duplicate labels: `Col` reads the first column of that name, where pandas would return a frame.
- Text in numeric operations: in the cleaning, z-score and summary passes any text cell in the column raises `TypeError`, and a sort raises it only on numbers and text together. Pandas' exact rules for object columns are not modelled.
- `AppUtils.SortOrder` and `DataSummary.ListedCounts` order ties stably. pandas' default quicksort is not stable, so the lemmas about them state only the order and the selection, and which tied column is listed first is not promised by the source.
- Mixed number and text `groupby` keys: pandas cannot sort them, while the model orders numbers before strings.
- `perform_stat_tests` returns a `map`, which has no key order.
- DataCleaning.NegativesIdempotent: stated for frames with distinct labels, the only frames on which `Col` matches pandas.
- DataCleaning.CleanResult: stated for column lists whose entries are distinct and none of which is another's `_zscore` helper, the way the notebooks call it.
- DataCleaning.CleanPrefix: stated under the same hypothesis on the column list.
- DataCleaning.CleanDropsHelpers: stated under the same hypothesis on the column list.
- DataCleaning.CleanFillsGaps: stated under the same hypothesis on the column list.
- OutlierDetection.ZScoresResult: stated for distinct columns whose helpers are not yet in the frame and none of which is another's helper.
- OutlierDetection.ZScoresPrefix: stated under the same hypothesis.
- Plotting and rendering are not part of this model: `plot_zscore_distribution`, `plot_boxplots`, `plot_irradiance_boxplots`, `plot_avg_ghi_bar`, `generate_radiation_boxplot`, scripts/eda_plots.py and the `color_dict` constants.
- `summarize_statistics` is only `describe` printed.
- app/main.py (the Streamlit interface and downloads) and scripts/data_loading.py (a `read_csv` wrapper) are not part of this model.
