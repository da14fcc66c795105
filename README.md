# GUI-Based Data Cleaning: a Dafny model of the cleaning engine

The repository offers two front-ends for cleaning a table:

- a command-line tool, `data_cleaning_tool.py`;
- a Streamlit page, `Revised_Cleaning_Tool.py`.

Both wrap the same few pandas calls:

- drop chosen columns;
- drop rows with a missing cell;
- fill missing cells with the column mean, the column median or a typed value;
- convert one column to another type;
- check file extensions and output formats.

The page adds a data quality report. The report counts missing cells and duplicate rows and turns them into a score out of 100.

In this model a table is `Tables.Table(cols, rows)`:

- column names are distinct;
- every row has one `Cell` per column;
- a `Cell` is `Missing`, `Int`, `Num` (an exact `real`) or `Str`;
- pandas exceptions are values of `Tables.Error`, carried in a `Result`.

The modules are:

- **Seqs**, **Text**, **Stats**: the list, string and statistics primitives the code relies on.
  - Seqs: order-preserving filtering, positions and counting.
  - Text: `str.endswith`, `str.strip` and `str.split` with their inverse `Join`.
  - Stats: sum, mean, insertion sort and median.
- **Tables**: cells, rows, tables, well-formedness, column lookup.
- **Cleaning**: the table operations of `data_cleaning_tool.py`, as functions from a table to a table or an error.
- **Frames**: a pandas DataFrame as a class whose in-place calls (`inplace=True`, `df[c] = ...`, `copy()`) update a `table` field. Each call is specified by the corresponding Cleaning function.
- **Cli**: the `interactive_cleaning` loop.
  - `RunCli` and `StepOf` are its reference semantics over the sequence of input lines.
  - `InteractiveCleaning` is the `while True` loop itself, proved equal to `RunCli`.
  - `CallerTable` follows the in-place writes that reach the caller's frame object.
- **Report**: the page's `load_data` and `data_report`.
- **Gui**: the page's session state.
  - `CleaningSession.cleaned` models `st.session_state.cleaned_df`. It is created once, as a copy, and then changed in place by each button.
  - `ActionResult` is the reference semantics of one button press.

## Model

| member | source | states |
|---|---|---|
| Cleaning.PathFormat | data_cleaning_tool.py:8-13 | the format is CSV exactly when the path ends in `.csv`, Excel exactly when it ends in `.xlsx`, and there is none otherwise |
| Cleaning.LoadData | data_cleaning_tool.py:6-13 | a `.csv` or `.xlsx` path reaches the matching reader; any other path fails with UnsupportedFileFormat |
| Cleaning.PreviewData | data_cleaning_tool.py:15-17 | the columns are the same; the rows are the first HeadLength rows, unchanged and in order; well-formedness is kept |
| Cleaning.PreviewTwice | data_cleaning_tool.py:15-17 | previewing m rows of a preview of n rows is previewing min(n, m) rows |
| Cleaning.Project | data_cleaning_tool.py:19-21 | keeping the columns at increasing positions ks gives a well-formed table holding exactly those columns and cells, in order, with the same row count |
| Cleaning.KeptColumnNames | data_cleaning_tool.py:19-21 | the kept positions are exactly the columns not named, in increasing order |
| Cleaning.RemoveColumns | data_cleaning_tool.py:19-21 | fails exactly when some name is not a column, with the error listing every such name; otherwise the result is well-formed, its columns are exactly the old ones not named, in order, and every row keeps the cells of those columns |
| Cleaning.RemoveNoColumns | data_cleaning_tool.py:19-21 | removing an empty list gives the same table |
| Cleaning.FilterMissingValues | data_cleaning_tool.py:23-25 | the columns are the same; no row has a missing cell; the rows are exactly the complete rows, in their original order; every complete row is kept |
| Cleaning.FilterMissingIdempotent | data_cleaning_tool.py:23-25 | dropping incomplete rows twice is dropping them once |
| Cleaning.FilterMissingKeeps | data_cleaning_tool.py:23-25 | the table is unchanged exactly when it has no missing cell |
| Cleaning.FillRow | data_cleaning_tool.py:30-34 | each missing cell takes its column's fill value and every other cell is kept |
| Cleaning.FillNa | data_cleaning_tool.py:30-34 | `fillna` with one value per column: the shape is kept, each missing cell takes its column's value, and present cells are unchanged |
| Cleaning.Values | data_cleaning_tool.py:30-32 | the numbers of a column: as many as its present cells |
| Cleaning.FillValue | data_cleaning_tool.py:29-32 | the fill value of a column is missing exactly when the column has no number, and otherwise a number inside every range that holds all of the column's numbers |
| Cleaning.ValuesMembers | data_cleaning_tool.py:30-32 | every present cell's number is among the column's numbers, and each of them is the number of a present cell |
| Cleaning.FirstNonNumeric | data_cleaning_tool.py:30-32 | finds a column from position j that holds text, and finds none exactly when every such column is numeric |
| Cleaning.ColumnStats | data_cleaning_tool.py:30-32 | `df.mean()` / `df.median()` fail exactly when some column holds text, naming such a column; otherwise they give each column's statistic |
| Cleaning.ReplaceMissingValues | data_cleaning_tool.py:27-36 | fails with InvalidReplacement exactly for a method other than mean, median, or custom with a value; mean and median fail exactly when their statistics do; custom with a value always succeeds; a success keeps the shape and every present cell |
| Cleaning.CustomFill | data_cleaning_tool.py:33-34 | a custom fill always succeeds; a value other than the missing marker leaves no missing cell; the value goes exactly where cells were missing, and keeps every other cell |
| Cleaning.StatisticFillValue | data_cleaning_tool.py:29-32 | after a mean or median fill the column is numeric, and each cell is its old value if present, else the column's fill value |
| Cleaning.StatisticFill | data_cleaning_tool.py:29-32 | a missing cell of a column with numbers becomes exactly the mean (or median) of that column's present numbers; a present cell is unchanged |
| Cleaning.FillValueMissing | data_cleaning_tool.py:29-32 | the fill value is itself missing exactly when the whole column is missing |
| Cleaning.StatisticFillMissing | data_cleaning_tool.py:29-32 | after a mean or median fill a cell is still missing exactly when its whole column was missing |
| Cleaning.MeanFillExample | data_cleaning_tool.py:29-30 | the column 25, missing, 35 filled with its mean becomes 25, 30, 35 |
| Cleaning.ConvertAll | data_cleaning_tool.py:40 | `astype` on a column: a type name pandas does not understand fails whatever the cells, even on a column without rows; otherwise it succeeds exactly when every cell converts, and then gives each cell's conversion |
| Cleaning.WithColumn | data_cleaning_tool.py:40 | writing column j back replaces exactly that column's cells |
| Cleaning.ChangedTable | data_cleaning_tool.py:38-41 | an unknown column fails with UnknownColumn; then a type name pandas does not understand fails with UnknownType; otherwise it succeeds exactly when every cell converts, and fails with ConversionFailed if not; a success changes only that column's cells, to their conversions |
| Cleaning.ChangeToOwnType | data_cleaning_tool.py:38-41 | converting a column whose cells already have the type changes nothing |
| Cleaning.ChangeTypeIdempotent | data_cleaning_tool.py:38-41 | for an idempotent conversion, converting a column twice is converting it once |
| Cleaning.SaveCleanedData | data_cleaning_tool.py:43-50 | the format is CSV exactly for "csv" and Excel exactly for "xlsx"; any other value fails with UnsupportedOutputFormat |
| Frames.DataFrame.DropColumns | Revised_Cleaning_Tool.py:50 | the in-place drop leaves the frame as RemoveColumns gives it, or unchanged with its error |
| Frames.DataFrame.DropNa | Revised_Cleaning_Tool.py:60 | the in-place dropna leaves the frame as FilterMissingValues |
| Frames.DataFrame.FillNa | Revised_Cleaning_Tool.py:64-74 | the in-place fillna leaves the frame as Cleaning.FillNa |
| Frames.DataFrame.SetColumn | data_cleaning_tool.py:40 | assigning a column writes exactly that column |
| Frames.DataFrame.AsType | data_cleaning_tool.py:40 | the in-place conversion leaves the frame as ChangedTable gives it, or unchanged with its error |
| Frames.DataFrame.Copy | Revised_Cleaning_Tool.py:42 | `copy()` of a well-formed frame is a new well-formed frame with equal contents |
| Cli.ChangeDataTypes | data_cleaning_tool.py:38-41 | the frame passed in is converted in place and returned, as ChangedTable says; on an error it is unchanged |
| Cli.ParseColumns | data_cleaning_tool.py:66-67 | at least one name, one per comma-separated part and each its part stripped; no name holds a comma or has whitespace at either end |
| Cli.RemoveStep | data_cleaning_tool.py:64-68 | choice '1' with no line left raises EndOfInput; otherwise it reads one more line and goes on, with a new frame, exactly when RemoveColumns of the parsed names succeeds, holding its table, and raises its error if not |
| Cli.ReplaceStep | data_cleaning_tool.py:74-81 | choice '3' with no line left raises EndOfInput; it reads a third line exactly when the method is "custom", raising EndOfInput when there is none; it goes on, with a new frame, exactly when ReplaceMissingValues of that method (and value) succeeds, holding its table, and raises its error if not |
| Cli.ChangeTypeStep | data_cleaning_tool.py:83-87 | choice '4' with fewer than two lines left raises EndOfInput; otherwise it goes on in the same frame exactly when ChangedTable of the column and type succeeds, holding its table, and raises its error if not |
| Cli.StepOf | data_cleaning_tool.py:61-92 | a pass that goes on consumes between 1 and all remaining lines and keeps the table well-formed; with no input left, `input()` ends the session |
| Cli.RunCli | data_cleaning_tool.py:52-94 | a session that ends normally returns a well-formed table; one that runs out of input fails |
| Cli.CallerTable | data_cleaning_tool.py:38-41 | the caller's frame holds a well-formed table, and input in which no line is '4' leaves it exactly as it was passed in, since every other choice rebinds `df` or leaves it alone |
| Cli.Pass | data_cleaning_tool.py:62-92 | one pass of the loop body does what StepOf says: it leaves the loop, raises, or binds the frame to a fresh object (choices '1' to '3') or the same one (choice '4', an unknown choice); what RunCli and CallerTable give for the remaining input is unchanged by the pass |
| Cli.InteractiveCleaning | data_cleaning_tool.py:52-94 | the loop returns exactly the table RunCli gives, or RunCli's error; the caller's frame ends up as CallerTable says |
| Cli.InvalidChoice | data_cleaning_tool.py:91-92 | an unknown choice consumes one line and leaves the table as it was |
| Cli.InvalidChoicesSkipped | data_cleaning_tool.py:91-92 | any run of unknown choices can be deleted from the input without changing the outcome |
| Cli.ExitReturnsCurrent | data_cleaning_tool.py:89-90 | the choice '5' returns the current table |
| Cli.StepExit | data_cleaning_tool.py:89-90 | a pass ends the loop normally only on the choice '5' |
| Cli.ExitNeeded | data_cleaning_tool.py:61-94 | input in which no line is '5' never ends normally |
| Cli.DropMissingChoice | data_cleaning_tool.py:70-72 | the choice '2' goes on with FilterMissingValues of the table |
| Cli.StepRemove | data_cleaning_tool.py:64-67 | the choice '1' goes on with RemoveColumns of the parsed names, or ends with its error |
| Cli.StepReplace | data_cleaning_tool.py:74-81 | the choice '3' goes on with ReplaceMissingValues of the method (and the custom value after "custom") or ends with its error |
| Cli.StepChangeType | data_cleaning_tool.py:83-87 | the choice '4' goes on in the same frame with ChangedTable of the column and the type, or ends with its error |
| Cli.UnknownMethodEndsSession | data_cleaning_tool.py:74-80 | a replacement method other than mean, median and custom ends the session with InvalidReplacement |
| Cli.RunCliCrash | data_cleaning_tool.py:61-94 | a pass that raises ends the session with its error |
| Cli.ParseSingleColumn | data_cleaning_tool.py:66-67 | a line without commas or surrounding blanks names exactly that one column |
| Cli.RemoveUnknownColumn | data_cleaning_tool.py:19-21 | removing one unknown column fails and names it |
| Cli.UnknownColumnEndsSession | data_cleaning_tool.py:64-67 | a choice '1' followed by the name of one unknown column ends the session with ColumnsNotFound naming that column, whatever input follows |
| Report.LoadUpload | Revised_Cleaning_Tool.py:5-17 | a `.csv` or `.xlsx` upload reaches the matching reader; any other name gives None |
| Report.UploadNeedsTableExtension | Revised_Cleaning_Tool.py:8-14 | only a `.csv` or `.xlsx` name can give a table |
| Report.MissingCountsAgree | Revised_Cleaning_Tool.py:22 | summing the missing cells column by column gives the number of missing cells in all rows |
| Report.MissingByColumnsLastRow | Revised_Cleaning_Tool.py:22 | one more row adds its missing cells to the per-column sum |
| Report.MissingOfNoRows | Revised_Cleaning_Tool.py:22 | a table without rows has no missing cells |
| Report.MissingBounded | Revised_Cleaning_Tool.py:21-22 | there are no more missing cells than cells |
| Report.MissingByColumns | Revised_Cleaning_Tool.py:22 | the per-column sum counts at most one missing cell per row and column |
| Report.MissingByRowsAppend | Revised_Cleaning_Tool.py:22 | the missing count adds up over concatenated rows |
| Report.MissingRowOrder | Revised_Cleaning_Tool.py:22 | the missing count does not depend on the order of the rows |
| Report.DuplicatesAndDistinct | Revised_Cleaning_Tool.py:23 | the duplicate rows (rows equal by value to an earlier one) number the rows less the distinct rows |
| Report.DuplicateRows | Revised_Cleaning_Tool.py:23 | no more duplicates than rows |
| Report.DuplicateOfIntAndFloat | Revised_Cleaning_Tool.py:23 | a row holding the integer 1 and a later row holding the float 1.0 make one duplicate, as `duplicated()` compares by value |
| Report.DuplicatesBelowRows | Revised_Cleaning_Tool.py:23 | a non-empty table has fewer duplicates than rows |
| Report.DuplicateRowOrder | Revised_Cleaning_Tool.py:23 | the duplicate count does not depend on the order of the rows |
| Report.ScoreRange | Revised_Cleaning_Tool.py:24 | given at most as many missing cells as cells and fewer duplicates than rows, the clamp at 0 never acts, the score is in (0, 100], and it is 100 exactly without missing cells and duplicates |
| Report.Score | Revised_Cleaning_Tool.py:24 | the score lies in [0, 100] and is 100 exactly without missing cells and duplicates |
| Report.DataReport | Revised_Cleaning_Tool.py:19-24 | the cells are rows × columns; the missing count is the number of missing cells; the duplicates are the rows less the distinct rows, fewer than the rows; the score is 100 − 50·missing/cells − 50·duplicates/rows, in (0, 100], and 100 exactly for a clean table |
| Report.ReportRowOrder | Revised_Cleaning_Tool.py:19-24 | reordering the rows does not change the report |
| Report.ReportColumnOrder | Revised_Cleaning_Tool.py:19-24 | rearranging the columns, the same way in every row, does not change the report |
| Report.ReportExample | Revised_Cleaning_Tool.py:19-24 | rows (1, 25), (2, missing), (1, 25) give 6 cells, 1 missing, 1 duplicate and a score of 75 |
| Gui.OfferedType | Revised_Cleaning_Tool.py:81 | a type reaches the conversion exactly when it is one of the select box's options int, float, str, datetime |
| Gui.FillStatistic | Revised_Cleaning_Tool.py:64-68 | fails exactly when some column holds text, naming such a column; otherwise every column is numeric, each missing cell takes its column's mean or median and every present cell is kept |
| Gui.FillText | Revised_Cleaning_Tool.py:72-74 | every missing cell becomes the typed string and every other cell is kept |
| Gui.ActionResult | Revised_Cleaning_Tool.py:47-95 | a success is well-formed, has no more rows and no new columns; only removal changes the columns; dropna, custom fill and no press never fail; a type the select box does not offer changes nothing; no action fails with an unknown type name, since the page names each of its four types itself |
| Gui.FillsMatchCommandLine | Revised_Cleaning_Tool.py:63-74 | the page's mean, median and custom fills equal ReplaceMissingValues of the command-line tool |
| Gui.SelectedColumnsRemovable | Revised_Cleaning_Tool.py:48-50 | columns chosen from the table's own columns are always removed, leaving exactly the others |
| Gui.CustomFillCompletes | Revised_Cleaning_Tool.py:72-74 | after a custom fill no cell is missing |
| Gui.DropMissingRowsTwice | Revised_Cleaning_Tool.py:59-60 | a second "Remove Missing Rows" changes nothing |
| Gui.CleaningSession.constructor | Revised_Cleaning_Tool.py:41 | a new session has no cleaned frame |
| Gui.CleaningSession.Enter | Revised_Cleaning_Tool.py:41-42 | an absent cleaned frame becomes a fresh copy of the uploaded one; an existing one is kept, contents included |
| Gui.CleaningSession.RemoveSelected | Revised_Cleaning_Tool.py:49-50 | the cleaned frame becomes RemoveColumns of it, or stays unchanged with the error |
| Gui.CleaningSession.DropMissingRows | Revised_Cleaning_Tool.py:59-60 | the cleaned frame becomes FilterMissingValues of it |
| Gui.CleaningSession.FillWithStatistic | Revised_Cleaning_Tool.py:63-70 | the cleaned frame becomes FillStatistic of it, or stays unchanged with the error |
| Gui.CleaningSession.FillWithText | Revised_Cleaning_Tool.py:71-76 | the cleaned frame becomes FillText of it |
| Gui.CleaningSession.ChangeType | Revised_Cleaning_Tool.py:82-95 | all or nothing: on success only the selected column changes, as ChangedTable says; on a failed conversion or an unknown column the error is reported and the frame is exactly as before; an unoffered type changes nothing; the error is never an unknown type name |
| Gui.CleaningSession.Rerun | Revised_Cleaning_Tool.py:38-95 | one run of the page: the cleaned frame is the kept one, or a fresh copy on the first run; it becomes ActionResult of its old contents, or keeps them with the error; the uploaded frame is untouched |
| Text.EndsWith | data_cleaning_tool.py:8-10 | `str.endswith`: true exactly when the string is some prefix followed by the suffix |
| Text.Strip | data_cleaning_tool.py:62 | `str.strip`: the result is no longer than the input and has no whitespace at either end |
| Text.StripSlice | data_cleaning_tool.py:62 | the strip is a slice of the input with only whitespace before it and after it |
| Text.StripIdempotent | data_cleaning_tool.py:62 | stripping twice is stripping once |
| Text.Split | data_cleaning_tool.py:66 | `str.split(sep)`: at least one part, and no part contains the separator |
| Text.SplitJoin | data_cleaning_tool.py:66 | joining the parts of a split with the separator gives the input back |
| Text.JoinSplit | data_cleaning_tool.py:66 | splitting a join of separator-free parts gives the parts back |
| Seqs.Positions | data_cleaning_tool.py:19-25 | the selected positions, as `drop` and `dropna` select columns and rows: each is in range and kept, in increasing order |
| Seqs.PositionsComplete | data_cleaning_tool.py:19-25 | no kept position is missed |
| Seqs.Filter | data_cleaning_tool.py:23-25 | the kept elements: no more than the input, each one from the input and kept, and every kept element present |
| Seqs.FilterIdempotent | data_cleaning_tool.py:23-25 | filtering twice is filtering once |
| Seqs.Count | Revised_Cleaning_Tool.py:22-23 | `sum()` over a boolean mask: no more than the length |
| Seqs.CountZero | Revised_Cleaning_Tool.py:22-23 | the count is zero exactly when no element passes |
| Seqs.CountAppend | Revised_Cleaning_Tool.py:22 | the count adds up over concatenation |
| Seqs.CountOrder | Revised_Cleaning_Tool.py:22 | the count does not depend on the order of the elements |
| Seqs.PickPermutation | Revised_Cleaning_Tool.py:19-24 | taking a sequence's elements in the order of a permutation of its positions rearranges it |
| Tables.IndexOf | data_cleaning_tool.py:40 | `df[column]` finds a name exactly when the table has it, at its first position |
| Tables.IndexOfDistinct | data_cleaning_tool.py:40 | with unique column names, a column's lookup finds its own position |
| Stats.Mean | data_cleaning_tool.py:30 | the mean taken once per value adds up to the sum of the values |
| Stats.MeanBounds | data_cleaning_tool.py:30 | the mean lies between any lower and upper bound of the values |
| Stats.Insert | data_cleaning_tool.py:32 | inserting into sorted values keeps them sorted and adds exactly the one value |
| Stats.Sort | data_cleaning_tool.py:32 | the values in ascending order: sorted, a permutation, the same length |
| Stats.Median | data_cleaning_tool.py:32 | the median lies between the lower and the upper middle of the sorted values |
| Stats.MedianBounds | data_cleaning_tool.py:32 | the median lies between any lower and upper bound of the values |
| Stats.MiddleWithin | data_cleaning_tool.py:32 | the middle element, or the mean of the two middle elements, of values in a range is in that range |
| Stats.MedianSplits | data_cleaning_tool.py:32 | at least half the sorted values lie at or below the median and at least half at or above it |
| Stats.MedianOddIsValue | data_cleaning_tool.py:32 | with an odd number of values the median is one of them |

## Left out

- Reading and writing files is not modelled. This covers `pd.read_csv`, `pd.read_excel`, `to_csv`, `to_excel` and the cleaned-file write and download at Revised_Cleaning_Tool.py:97-102. Only the extension and format decisions are modelled; a reader is a parameter of `LoadData` and `LoadUpload`.
- The Tkinter file dialog, `argparse` and both `main` functions are not modelled: they are UI and argument plumbing, and so is main's final save call.
- Cleaning.PreviewData: takes the row count explicitly; preview_data's default argument `num_rows=5` (data_cleaning_tool.py:15) is not modelled.
- Every `print`, `st.*` rendering call and widget is not modelled. The widgets' values are the parameters of `Gui.Action`. The input lines of the command-line tool are a `seq<string>`.
- How pandas converts values (`astype(int/float/str)`, `pd.to_datetime`) is not modelled. A conversion is an arbitrary per-cell partial function `Converter`; the model proves only the all-or-nothing column update around it.
- Arithmetic is exact: means, medians and the score use `real`, not IEEE floating point, and the score's display rounding to two places is left out.
- Report.DataReport: requires a table with at least one row and one column, because the source divides by the cell count and the row count without a guard.
- Cleaning.ColumnStats: treats any column holding text as an error. This follows pandas 2, where `df.mean()` raises on non-numeric columns; older pandas versions silently skipped them instead.
- Cleaning.ChangedTable: does not model pandas' dtype of a column, only its cells. Which type names pandas understands, and how one cell converts, are the two parts of the `Converter` parameter.
- Text.Strip: its whitespace set is ASCII whitespace plus U+001C-U+001F, U+0085 and U+00A0; the other Unicode spaces Python strips are not included.
- Cli.InteractiveCleaning: `input()` after the last line raises EOFError, modelled as `EndOfInput`. An exception inside the loop is not caught by the source and ends the session with that error, which the model carries as `Err`.
- The streamlit page run as a whole (option radio, upload widget, the choice between report and cleaning) is not modelled beyond `Rerun` for one run of the cleaning page.

## Notes on the code

- The loop at data_cleaning_tool.py:61-92 has no `try` around its body, so an exception in choices '1' to '4' ends the session: `RunCli` returns `Err`.
- For rows (1, 25), (2, missing), (1, 25) the formula at Revised_Cleaning_Tool.py:24 gives 100 − 50/6 − 50/3 = 75, which `Report.ReportExample` proves.
- `replace_missing_values` raises one error for both an unknown method and "custom" without a value (data_cleaning_tool.py:36). The model uses the single error `InvalidReplacement` for both.
- `df.duplicated()` compares cells by value: two missing cells are equal, and so are the integer 1 and the float 1.0. The model compares rows through `Report.RowKey`, which maps every integer to the float of the same value.
- On the command line a custom fill value is always a string (data_cleaning_tool.py:77), as it is on the page.
