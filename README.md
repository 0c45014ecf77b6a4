# Per-annotator value counts: a Dafny model of `process()` in app.py

The web application takes a CSV of annotation judgments. It has one row per
judgment and many rows per annotator. It returns a wide table with one row per
annotator and one column per (value column, numeric value) pair. Each cell
counts how often that annotator's rows hold that value in that column. This
project models the engine inside `process()` (app.py:54-75) and proves what it
computes:

- `Frame`: the parsed table. It is given as header labels and the lines
  after the header. The line right after the header is skipped (line 54).
  `str()` of a missing cell is "nan".
- `Text`: Python's `str.strip()` (line 62) and the substring test
  `'Unnamed:' in col` (line 65).
- `Seqs`: `Series.unique()` (line 68), which keeps first appearances in
  order. It also holds occurrence counting and first-index search.
- `Counting`: `groupby(...).value_counts().unstack(fill_value=0)` (line 71)
  for one value column. It gives counts per (identifier, value) and proves
  conservation.
- `Pivot`: the whole pipeline as functions.
  - `ResolveId` renames the identifier column (lines 57-59).
  - `IdKeys` produces the identifier keys (line 62).
  - `ValueCols` selects the value columns (line 65).
  - `Accumulate` folds `MergeCounts` over the value columns: the left merge
    of each column's counts (lines 68-73).
  - `Fill` does the final `fillna(0)` (line 75).
  - `Run` composes all of these.
  - `RunCorrect` states what the resulting table holds.
- `App`: `Process`, the statement-by-statement form of the same body, and
  `MergeColumns`, its loop, which reassigns the accumulator once per value
  column. They are proved to return exactly what `Pivot.Run` and
  `Pivot.Accumulate` return.

Behaviour the code has, and which the model keeps:

- Identifier column:
  - It is the column labelled `Unnamed: 2` if one exists. Otherwise it is
    the column in position 2.
  - A table with fewer than three columns and no such label fails.
  - There is no name-based search for an identifier column, and there is no
    fallback to column 0.
- Identifier cells:
  - A missing identifier cell is not dropped. It becomes the identifier
    "nan".
  - If relabelling leaves two columns called `annotator_id`, the run fails
    with no table.
- Value columns: the selection excludes only `annotator_id` and labels
  containing `Unnamed:`.
- Failure: every failure is one error for the whole run. No partial table
  is returned.

## Model

| member | source | states |
|---|---|---|
| Frame.DataRows | app.py:54 | the data rows are the lines after the header minus the first one, in order |
| Frame.CellAt | app.py:54 | a line shorter than the header reads as NaN in the missing columns; no contract of its own, its behaviour is stated through `Pivot.IdKeys` and `Pivot.BlankColumnAddsNothing` |
| Frame.StrForm | app.py:62 | `str()` of a text cell is its text; of an empty (NaN) cell it is "nan" |
| Text.StripStart | app.py:62 | the index of the first non-whitespace character (or the length), with only whitespace before it |
| Text.StripEnd | app.py:62 | the end of the last non-whitespace character (or 0), with only whitespace after it |
| Text.Strip | app.py:62 | the result is the slice of the input between its leading and trailing whitespace: only whitespace is cut, and the result neither starts nor ends with whitespace |
| Text.ContainsIff | app.py:65 | the substring test holds exactly when the pattern starts at some position of the label |
| Seqs.Unique | app.py:68 | the distinct identifiers: no duplicates, and exactly the identifiers that occur in the column |
| Seqs.UniqueFirstAppearance | app.py:68 | distinct identifiers are listed in the order of their first appearance in the column |
| Pivot.IdTarget | app.py:58 | the target label exists exactly when `Unnamed: 2` is a label or there are at least three columns; it is always a label of the header, and it is `Unnamed: 2` whenever that label is present |
| Pivot.Rename | app.py:59 | every column with the target label is relabelled `annotator_id`, every other label is kept |
| Pivot.ResolveId | app.py:57-62 | succeeds exactly when the identifier column exists and exactly one column ends up labelled `annotator_id`. On success it picks the `Unnamed: 2` column when there is one, else position 2, relabels that column and no other. Without `Unnamed: 2` and with fewer than three columns it fails with `IdColumnOutOfRange` |
| Pivot.ValueCols | app.py:65 | a column is selected exactly when its label is not `annotator_id` and does not contain `Unnamed:`, and the selection keeps column order |
| Pivot.IdKeys | app.py:62 | each row's identifier is the stripped `str()` form of its cell in the identifier column |
| Pivot.ColumnObs | app.py:70 | each row of a value column is seen as its identifier beside its coerced cell |
| Counting.Count | app.py:71 | the tally of one (identifier, value) pair; no contract of its own, `Counting.CountIsMultiplicity` states that it is the number of rows holding that pair |
| Counting.NonMissing | app.py:70-71 | the number of an identifier's rows whose cell coerced to a number; no contract of its own, `Counting.Conservation` and `Counting.CountAtMostNonMissing` relate it to the counts |
| Counting.AllMissing | app.py:70-71 | a column whose every coerced cell is missing has no values and no identifier with a numeric cell |
| Counting.Present | app.py:71 | every coerced value in the column is listed, and only values that occur are |
| Counting.Values | app.py:71-72 | the values that get an output column: each value seen anywhere in the column, once |
| Counting.CountIsMultiplicity | app.py:71 | a count is the number of rows holding that (identifier, value) pair; rows whose coercion failed are never counted |
| Counting.CountPositiveIff | app.py:71 | a count is positive exactly when some row of the identifier holds the value |
| Counting.CountsIgnoreRowOrder | app.py:71 | rows reordered give the same counts |
| Counting.CountAtMostNonMissing | app.py:71 | no count exceeds the identifier's number of rows with a numeric cell |
| Counting.Conservation | app.py:70-71 | over the column's distinct values, an identifier's counts add up to its number of rows with a numeric cell |
| Counting.CountsFrame | app.py:71 | the unstacked counts table has a row exactly for the identifiers with a numeric cell and a column for every value seen anywhere in the column. Each entry is the count, and absent combinations are 0 |
| Pivot.Base | app.py:68 | the starting table has each identifier of the column exactly once and no value columns or cells yet |
| Pivot.Block | app.py:72 | one output column per value, labelled with the value column's name, with no repeats |
| Pivot.Joined | app.py:73 | the left merge gives a row cells exactly when its identifier has a row in the counts table, and each such cell is the count |
| Pivot.MergeCounts | app.py:73 | the merge keeps the rows and their order and appends the column's block. It adds the counts where the identifier has numeric cells and leaves NaN elsewhere. Cells of other columns are unchanged |
| Pivot.Accumulate | app.py:69-73 | whenever the loop finishes, its rows are still the distinct identifiers of line 68; `Pivot.AccumulateSucceeds` and `Pivot.AccumulateSpec` state when it succeeds and what it holds |
| Pivot.AccumulateNext | app.py:69-73 | one more loop iteration is one more merge, or the failure on a non-unique label |
| Pivot.FailureSticks | app.py:69-73 | once a value column fails, the whole loop fails with that error |
| Pivot.AccumulateSucceeds | app.py:69-73 | the loop succeeds exactly when every value column's label is unique |
| Pivot.AccumulateSpec | app.py:68-73 | after the loop the rows are the distinct identifiers, there is one column per (value column, value seen), and every cell holds the count or NaN where the identifier has no numeric cell |
| Pivot.Fill | app.py:75 | the filled table keeps rows and columns; every (row, column) pair has a cell; merged counts are kept and NaN becomes 0 |
| Pivot.FilledSummarises | app.py:75 | filling the finished accumulator yields a table with every property `Summarises` lists: rows, columns and every cell as `Pivot.RunCorrect` states them |
| Pivot.Run | app.py:54-75 | the whole run as one function; no contract of its own, `Pivot.RunCorrect` states when it fails and what its table holds |
| Pivot.RunCorrect | app.py:54-75 | a run fails exactly when the identifier column cannot be resolved or a value label is not unique. Otherwise: rows are the distinct identifiers; columns are exactly the (value column, value seen anywhere in it) pairs with no repeats; every cell exists and equals the number of that identifier's rows holding that value, so absent combinations are 0 |
| Pivot.OneRowPerIdentifier | app.py:62-68 | one row per distinct stripped identifier, every data row's identifier has a row, and rows are in order of first appearance |
| Pivot.SummaryConservation | app.py:70-75 | in the output, an identifier's cells for one value column add up to its number of rows whose cell in that column is numeric |
| Pivot.BlankColumnAddsNothing | app.py:70-73 | when the coercion keeps a missing cell missing, a value column whose cells are all missing (empty, NA tokens, or past the end of a short line) leaves the table unchanged: no output columns, no cells |
| Pivot.MetaRowIgnored | app.py:54 | the content of the line right after the header never affects the result |
| App.Process | app.py:54-75 | the step-by-step run returns exactly the result (or error) of `Pivot.Run` |
| App.MergeColumns | app.py:68-73 | the loop, reassigning the accumulator with one merge per value column and stopping at the first failing column, returns exactly `Pivot.Accumulate` |

## Left out

- Flask routing, the upload check, the HTML page, `PORT` and the response headers (app.py:1-52, 77-94). They are web plumbing around the engine.
- CSV parsing (`read_csv`):
  - The model starts from the header labels and the cells of each line.
  - Blank header cells become `Unnamed: N` labels in the parser, so they are taken as given.
  - The parser also renames repeated labels, so in practice only `annotator_id` can repeat. The model keeps the general duplicate-label failure.
- Frame.StrForm: the `str()` text of a cell depends on the dtype the reader infers for its whole column, and that is not modelled. A `Cell` carries its text as already rendered. For example, a numeric identifier column with one blank cell renders 7 as "7.0".
- Frame.Cell: NaN stands for every field the reader reads as missing. That covers empty fields and pandas' default NA tokens ("NA", "N/A", "null", "None", "nan" and others). So identifiers written "NA" and "null" both become "nan" and share one row. Which texts are NA tokens is part of the reader, which is not modelled.
- Pivot.ColumnObs: `coerce` is one function for every cell of every column. `pd.to_numeric` depends on the column's dtype: a boolean column keeps True/False, while the text "True" in a text column coerces to missing. The model does not capture that dependence.
- Pivot.ColumnObs: no contract requires `coerce(NaN) == None`, although `to_numeric` maps NaN to missing. `Pivot.BlankColumnAddsNothing` states the consequence under that assumption.
- Writing the result as CSV (`to_csv`, app.py:78-87) is serialisation.
- Numeric coercion (`pd.to_numeric(..., errors='coerce')`) is the parameter `coerce`. It maps a cell to a number or to missing. How pandas parses numeric text is not modelled.
- The textual form of output column names (`<col>_<value>`, with pandas' float formatting) is left out. An output column is modelled as the pair (value column label, value). Two pairs never produce the same name, because a number's text contains no `_`.
- Pivot.Block: columns within one value column's block are in order of first appearance. pandas' `unstack` sorts them by value. No contract depends on that order: column contents are stated as sets.
- Pivot.Fill: the `convert_dtypes()` cast of the counts to integer columns (line 75) is not modelled. Counts are `nat` throughout.
- Error messages and the status-500 page are left out. A failure is an `Error` value naming its cause.
- Pivot.ResolveId: the code has no name-based search for the identifier column and no fallback to column 0. It keeps a row whose identifier cell is missing, under the identifier "nan". The model does the same.
