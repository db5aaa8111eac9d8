# Crop and rainfall dashboard: the table pipeline

This project models the data pipeline inside `crop.py`, a Streamlit dashboard
that joins a rainfall-by-year table with a 2023-24 crop production table. Once
both tables are loaded, the script does four things:

- It normalises the column headers. Rainfall headers are stripped and
  lower-cased. Crop headers are only stripped, then renamed from the verbose
  2023-24 labels to short canonical ones.
- It offers a sorted catalogue of crop names. It selects the rows of the
  chosen crop and cuts them down to three columns.
- It finds the rainfall table's year column. It averages every numeric column
  per year with `groupby(year).mean(numeric_only=True).reset_index()`.
- It quotes the chosen crop's first production and yield figures
  (`values[0]`).

The tables are values (`Frames.Table`): column labels, one pandas dtype per
column (`Numeric` or `Textual`), and rows of cells. A cell is a number (`real`),
a string, or `Missing` (pandas' NaN). Pandas errors are `Frames.Error` values:

- `KeyError` for an absent label;
- `DuplicateLabel` when a label names several columns where one is needed;
- `IndexError` for `[0]` on an empty list or column.

Modules follow the script's structure:

- `Text`: `str.strip`, ASCII `str.lower`, `in` on strings, and string order.
- `Frames`: tables, label lookup, and `sorted(col.dropna().unique())`.
- `Preprocess`: header normalisation. It has functions that say what the new
  headers are, and a `DataFrame` class whose methods reassign the headers in
  place, as lines 18-26 do.
- `YearColumn`: the year-column resolver.
- `Aggregate`: the group-by-year mean.
- `CropView`: the catalogue, the filter, the projection and the `values[0]`
  reads.
- `Dashboard`: one run of the script, with each step in order and the first
  exception ending the run.
- `Scenarios`: worked examples. Rainfall readings of 100 and 200 for 1901
  and 150 for 1902 average to 150 and 150. A Wheat row under the verbose
  headers is renamed, selected and quoted. `"wheat"` selects nothing.

Three behaviours of the code are worth stating outright:

- When no column contains `"year"`, line 60's `[...][0]` raises
  `IndexError`.
- `mean(numeric_only=True)` drops every text (`object`) column whole.
- The `keys()` branch at line 56 repeats the test at line 54, so it is never
  taken (`YearColumn.KeysBranchUnreachable`).

## Model

| member | source | states |
|---|---|---|
| `Text.Strip` | crop.py:18-19 | The result is a slice of the header that has only whitespace cut off at both ends, and it has no whitespace at either end |
| `Text.StripIdempotent` | crop.py:18-19 | Stripping a second time changes nothing |
| `Text.Lower` | crop.py:18 | The length is kept, no capital letter remains, each capital becomes its small letter, and every other character is kept |
| `Text.ContainsAt` | crop.py:60 | `"year" in col` holds exactly when `"year"` starts at some offset of `col` |
| `Text.StrLessIrreflexive` | crop.py:38 | Python's string order `StrLess` never puts a string before itself |
| `Text.StrLessTransitive` | crop.py:38 | The string order is transitive |
| `Text.StrLessTotal` | crop.py:38 | Of two different strings, one comes before the other, so `sorted` has a single answer |
| `Preprocess.RainfallHeader` | crop.py:18 | A rainfall header comes out stripped and lower case, and it is empty exactly when stripping leaves nothing |
| `Preprocess.RainfallHeaders` | crop.py:18 | The header count and order are kept, and each header is normalised on its own |
| `Preprocess.RainfallHeaderIdempotent` | crop.py:18 | Normalising one rainfall header twice gives the same result as once |
| `Preprocess.RainfallIdempotent` | crop.py:18 | Normalising the rainfall table twice gives the same result as once, and the data is untouched |
| `Preprocess.CropHeaders` | crop.py:19 | The crop header count and order are kept, and each header is stripped |
| `Preprocess.CropHeadersKeepCase` | crop.py:19 | Each stripped crop header is a slice of the original, so its case is kept |
| `Preprocess.Rename` | crop.py:22-26 | A header that is a key of the map becomes the key's value, and every other header is unchanged, each at its own position |
| `Preprocess.CropRenamesAt` | crop.py:22-26 | `"Crop"` stays `"Crop"`, the two verbose 2023-24 headers become `"Production (Lakh Tons)"` and `"Yield (kg/ha)"`, and any other header is kept |
| `Preprocess.RenameIgnoresAbsentKeys` | crop.py:22-26 | A map key that no header carries has no effect, and the rename cannot fail |
| `Preprocess.CropHeadersRenamed` | crop.py:19-26 | After stripping and renaming, the crop header count is kept and every header is stripped. A header whose stripped form is not a key of the rename map is its stripped form |
| `Preprocess.CropRenameValuesFixed` | crop.py:22-26 | The rename map's values are stripped, and renaming them again leaves them as they are |
| `Preprocess.CropIdempotent` | crop.py:19-26 | Stripping and renaming the crop headers twice gives the same result as once |
| `Preprocess.WithColumns` | crop.py:18-19 | Reassigning `df.columns` replaces the labels and keeps the dtypes, the rows and well-formedness |
| `Preprocess.NormalizedRainfall` | crop.py:18 | The normalised rainfall table keeps its dtypes, rows and well-formedness, and every header is stripped and lower case |
| `Preprocess.NormalizedCrop` | crop.py:19-26 | The normalised crop table keeps its dtypes, rows and well-formedness, and every header is stripped |
| `Preprocess.DataFrame.StripLowerColumns` | crop.py:18 | In place, the frame's headers become the normalised rainfall headers, every one stripped and lower case, and the data is unchanged |
| `Preprocess.DataFrame.StripColumns` | crop.py:19 | In place, the frame's headers become their stripped forms, and the data is unchanged |
| `Preprocess.DataFrame.RenameColumns` | crop.py:22-26 | In place, the frame's headers become the renamed headers, and the data is unchanged |
| `Preprocess.PreprocessFrames` | crop.py:18-26 | After lines 18-26, each frame holds its table with normalised headers |
| `YearColumn.Keys` | crop.py:56 | `df.keys()` holds exactly the labels of the columns |
| `YearColumn.YearLike` | crop.py:60 | The comprehension holds exactly the columns that contain `"year"` |
| `YearColumn.YearLikeFirst` | crop.py:60 | Its first element is the first column, in column order, that contains `"year"` |
| `YearColumn.ResolveYearColumn` | crop.py:54-60 | An exact `"year"` column wins. Otherwise the result is the first column, in order, containing `"year"`. The resolver fails with `IndexError` exactly when no column contains `"year"` |
| `YearColumn.KeysBranchUnreachable` | crop.py:54-57 | `"year" in keys()` equals `"year" in columns`, so the branch at line 56 is never the one taken |
| `YearColumn.ResolvedIsYearLike` | crop.py:54-60 | A resolved year column is a column of the table and contains `"year"` |
| `Frames.Lookup` | crop.py:38 | `df[label]` finds the one column carrying the label. It fails with `KeyError` when none does and with `DuplicateLabel` when several do |
| `Frames.LookupFindsUnique` | crop.py:38 | A label carried by exactly one column is found at that column |
| `Frames.LessIrreflexive` | crop.py:38 | The cell order `Less` (NaN, then numbers, then strings) never puts a cell before itself |
| `Frames.LessTransitive` | crop.py:38 | The cell order is transitive |
| `Frames.LessTotal` | crop.py:38 | Of two different cells, one comes before the other, so sorted keys and the sorted catalogue are unique |
| `Frames.SortedUnique` | crop.py:38 | `sorted(col.dropna().unique())` is strictly ascending and holds exactly the non-missing values of the column |
| `Frames.AscendingUnique` | crop.py:38 | Two strictly ascending lists with the same elements are equal, so the catalogue is fully determined by the column |
| `Aggregate.Numbers` | crop.py:63 | The numbers a mean is taken over: no more than the cells, and a value is among them exactly when some cell holds it as a number |
| `Aggregate.NumbersConcat` | crop.py:63 | Collecting numbers splits over concatenation, so together with `NumbersOfCell` it keeps every number, in order and with repetitions |
| `Aggregate.NumbersOfCell` | crop.py:63 | A number cell gives its number, and a NaN or text cell gives nothing |
| `Aggregate.Mean` | crop.py:63 | A group's mean is NaN exactly when the group holds no number. Otherwise it is the exact average of the group's numbers, with NaN skipped |
| `Aggregate.MeanWithinRange` | crop.py:63 | A numeric mean lies between the least and the greatest number it was taken over |
| `Aggregate.GroupCells` | crop.py:63 | A group holds no more cells than there are rows. Its cells are exactly the column values of the rows whose key equals the group's year |
| `Aggregate.GroupCellsInRowOrder` | crop.py:63 | A group holds one cell per row of its year, in row order: its `m`-th cell comes from the `m`-th row whose key equals the year |
| `Aggregate.NumericColumns` | crop.py:63 | `numeric_only=True` keeps exactly the numeric columns other than the key |
| `Aggregate.NumericColumnsAscending` | crop.py:63 | The kept columns stay in their original order |
| `Aggregate.GroupMeans` | crop.py:63 | The summary has one row per distinct non-missing year, in sorted order. Each row holds the year, then one mean per kept column |
| `Aggregate.AggregateByYear` | crop.py:63 | Line 63 succeeds exactly when the year label names one column, and otherwise raises the lookup's error. On success the summary is well formed and the year comes first |
| `Aggregate.SummaryWellFormed` | crop.py:63 | The summary is a well-formed table. The year keeps its dtype and every mean column is numeric |
| `Aggregate.SummaryYearsAscending` | crop.py:63 | The summary's years strictly ascend, so no year has two rows |
| `Aggregate.SummaryYearsFromInput` | crop.py:63 | Every summary year is a non-missing year of some input row |
| `Aggregate.EveryYearSummarized` | crop.py:63 | Every input row with a non-missing year has its year in the summary |
| `Aggregate.HeaderOnlyNumeric` | crop.py:63 | After the year, the summary header names only numeric input columns other than the year |
| `Aggregate.HeaderAllNumeric` | crop.py:63 | The summary header names every numeric input column other than the year |
| `Aggregate.SummaryColumnsNumeric` | crop.py:63 | After the year, every summary column is a numeric input column other than the year |
| `Aggregate.NumericColumnsKept` | crop.py:63 | Every numeric column other than the year appears in the summary |
| `Aggregate.TextColumnsDropped` | crop.py:63 | A uniquely labelled text column other than the year does not appear in the summary |
| `Aggregate.CellMissingIffNoNumber` | crop.py:63 | A summary cell is NaN exactly when no input row of its year holds a number in its column |
| `Aggregate.GroupMeanWithinRange` | crop.py:63 | A group's numeric mean is bounded by numbers that rows of that group actually hold |
| `Aggregate.SummaryCellIsMean` | crop.py:63 | Each summary cell is the mean of its column over the input rows of its year |
| `Aggregate.CellWithinGroupRange` | crop.py:63 | A numeric summary cell lies between the least and the greatest number of its column in the input rows of its year |
| `Aggregate.CellIsGroupAverage` | crop.py:63 | A numeric summary cell is the exact average of the numbers of its column in the input rows of its year |
| `Aggregate.HeaderIndependentOfRows` | crop.py:63 | The summary's header and dtypes depend only on the input's header and dtypes, so an empty table gets the same header |
| `Aggregate.EmptyInputEmptySummary` | crop.py:63 | An empty table gives a summary with no rows |
| `CropView.Catalogue` | crop.py:38 | The catalogue is strictly ascending and free of duplicates. It holds exactly the non-missing values of the `Crop` column, and it fails as `df["Crop"]` does |
| `CropView.MatchingRows` | crop.py:45 | The mask `Crop == selected` is true exactly at the rows whose crop equals the selection, in row order. NaN matches nothing |
| `CropView.SelectCrop` | crop.py:45 | The filter keeps the header and dtypes and keeps exactly the matching rows, in order |
| `CropView.SelectionOnlySelected` | crop.py:45 | Every kept row carries the selected crop, compared exactly and case-sensitively |
| `CropView.SelectionAllSelected` | crop.py:45 | Every input row carrying the selected crop is kept |
| `CropView.SelectionKeepsOrder` | crop.py:45 | The selection is the matching rows at strictly increasing indices, with none missed |
| `CropView.SelectionNonEmptyIffListed` | crop.py:38-45 | The selection is non-empty exactly when the selected value is in the catalogue |
| `CropView.LookupAll` | crop.py:47 | Every requested label is looked up, and the lookup fails if any single one fails |
| `CropView.Project` | crop.py:47 | `crop_info[[...]]` has exactly the named columns in the named order, and every row is cut down to them |
| `CropView.FirstValue` | crop.py:72-73 | `values[0]` is the label's cell in the first row. It raises `IndexError` on an empty selection |
| `CropView.FirstSelectedRow` | crop.py:38-45 | For a listed crop, the selection's first row is the table's first row of that crop |
| `CropView.ListedCropHasFigures` | crop.py:38-73 | For every crop the catalogue offers, both `values[0]` reads succeed, and they read that crop's first row |
| `CropView.UnlistedCropHasNoFigures` | crop.py:45-72 | A value the catalogue does not offer selects no row, so line 72 raises `IndexError` |
| `Dashboard.Selectbox` | crop.py:39 | The sidebar choice is one of the options. With no options it is `None`, which matches no crop |
| `Dashboard.ShowCrop` | crop.py:37-47 | The crop section succeeds exactly when the three labels each name one column. It holds the catalogue, the selection and its three-column projection |
| `Dashboard.ShownRowsNameChoice` | crop.py:45-47 | The table written at line 47 has the three labels in order, one row per selected row, and each row names the choice |
| `Dashboard.ShowRainfall` | crop.py:54-65 | The rainfall section succeeds exactly when a year column resolves to one column. Its summary is the group-by-year mean, and its charted series are the summary columns after the year |
| `Dashboard.Render` | crop.py:37-73 | A successful run offers an ascending catalogue that holds the choice, shows a non-empty selection, and quotes the selection's first production and yield |
| `Dashboard.RenderSucceedsIff` | crop.py:37-73 | A run succeeds exactly when both tables carry the labels it reads and the choice is in the catalogue |
| `Dashboard.RenderQuotesFirstRow` | crop.py:45-73 | The quoted figures are the production and yield of the first row, in table order, of the chosen crop |
| `Dashboard.SidebarChoiceRenders` | crop.py:38-73 | With a choice the sidebar can produce, a run succeeds exactly when the catalogue is non-empty. With an empty catalogue it raises `IndexError` |
| `Dashboard.CropErrorsComeFirst` | crop.py:38-63 | A bad `Crop` column ends the run with its error before the rainfall table is read |
| `Dashboard.NoYearColumnFails` | crop.py:54-60 | With the crop table ready, a rainfall table with no column containing `"year"` ends the run with `IndexError` |
| `Dashboard.RunScript` | crop.py:18-73 | The script, with headers normalised in place and then rendered, gives the same result as rendering the normalised tables |
| `Scenarios.ReadingsByYear` | crop.py:63 | Readings (1901, A, 100), (1901, B, 200) and (1902, A, 150) aggregate to (1901, 150) and (1902, 150). The region column is dropped |
| `Scenarios.WheatNormalized` | crop.py:19-26 | The verbose 2023-24 headers of a Wheat row become `Crop`, `Production (Lakh Tons)` and `Yield (kg/ha)` |
| `Scenarios.WheatOverview` | crop.py:45-73 | Choosing `"Wheat"` quotes 1100.25 and 3200.5. Choosing `"wheat"` selects nothing and raises `IndexError` |

## Left out

- `load_data`, `pd.read_csv` and the `@st.cache_data` memoisation (crop.py:7-13) are file I/O and a library cache. Both tables are parameters, and `Dashboard.RunScript` takes them as already loaded.
- All Streamlit presentation is left out: page configuration, titles, captions, the sidebar header, `st.write`, `st.line_chart` and `st.markdown`. Only the chart's series list (`columns[1:]`) is kept. The `selectbox` widget is modelled as "the option at the index the user picked" (`Dashboard.Selectbox`).
- The `float(...)` conversion and the `:,.2f` thousands-separator formatting at lines 72-73 are left out. The model returns the cell that would be formatted.
- `Aggregate.Mean` is exact over `real` and does not model IEEE floating-point rounding.
- `Text.Lower` lower-cases ASCII capitals only, not the full Unicode case mapping of `str.lower`.
- `Text.IsSpace` is the fixed set of characters that Python's `str.isspace` accepts. Unicode database versions are not modelled.
- CSV dtype inference is not modelled. Each column's dtype is given with the table, and a well-formed table never mixes numbers and strings in one column. So `sorted` never compares a number with a string, which in Python would raise `TypeError`.
- `Frames.Lookup` turns a duplicated label into a `DuplicateLabel` error wherever one column is needed. Pandas would sometimes go on with a two-column frame and fail or behave differently later. That behaviour is not modelled.
- Pandas NaN coercion beyond these rules is not modelled. A missing cell is skipped by the mean, dropped from the group keys and the catalogue, and never equal in the `==` mask.
