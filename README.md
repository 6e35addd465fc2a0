# Consolidation join of the evaluation-sheet merger

The page in `app.py` lets a user upload one main spreadsheet and several
extra spreadsheets, pick a reference column of the main sheet, and press a
button that joins everything into one sheet. This project models what the
button does and proves what it promises:

- It starts from an unchanged copy of the main table.
- For each extra file, in upload order, it reads the sheet and keeps only
  the columns the result does not have yet, plus the reference column.
- It then left-joins that cut-down sheet onto the result on the reference
  column (`pd.merge(..., how="left")`).
- If reading or joining an extra file fails (app.py:87-92), the whole
  operation ends with a single error message naming the reference column,
  and no table is produced.

## Modules

- `tables.dfy` (`Tables`): the values held in cells, with `Missing` for an
  empty cell. It also holds rows (maps from column name to value), tables
  (a column list and a row sequence), well-formedness (unique column names,
  one value per column in every row), and the "a row keeps another row's
  values" relation with its transitivity.
- `merge.dfy` (`Merge`): one round of the loop.
  - The column filter of line 91 is `FilterCols`.
  - `df_temp[cols_to_use]` is `Project`.
  - The left outer join of line 92 is `LeftJoin`. It is built from the
    matching extra rows (`MatchIndices`) and the copies of one left row
    (`Expand`).
  - The whole round is `JoinExtra`.
  - The file also holds the lemmas about columns, row counts, values and
    duplicates.
- `consolidation.dfy` (`Consolidation`): the loop.
  - An upload is either a parsed sheet or `Unreadable`.
  - An outcome is `Success(table)` or `Failure(key)`.
  - `Step` is one pass of the loop body.
  - `Fold` is the whole loop as a function.
  - `Consolidate` is the loop itself, as a method with a `while` loop, proved
    equal to `Fold`.
  - The file also holds the lemmas about the whole consolidation.
- `scenarios.dfy` (`Scenarios`): two concrete consolidations and one failing
  one, worked through the model.

## How the join behaves

- **Keys are compared as they are.** Two keys match exactly when their cell
  values are equal (`HasKey`). Nothing is trimmed and nothing is converted
  to text, since `pd.merge` compares the raw cells.
- **A repeated key repeats rows.** A left row matching several rows of an
  extra file appears once per match, in the extra file's order
  (`JoinExtraBlock`, `DuplicateKeyRepeatsRow`).
- **A missing reference column aborts everything.** app.py does not skip
  such a file: the merge at app.py:92 raises, and the single `except` at
  app.py:111-112 ends the operation (`FoldFailsIff`, `MissingKeyFails`).
- **The failure carries only the key.** The message at app.py:112 names the
  reference column, not the offending file, so `Failure` holds just the key.
- **An empty main table is not an error.** It simply yields an empty result.
- **Guards that make some cases unreachable.**
  - The page only offers the button when at least one extra file was
    uploaded (app.py:72).
  - The reference column is chosen from the main table's columns
    (app.py:80).
  - The model does not rely on either guard. With no extra file, `Fold`
    returns the main table unchanged. A key missing from the main table
    fails as soon as there is an extra file, as the merge would.

## Model

| member | source | states |
|---|---|---|
| Merge.FilterCols | app.py:91 | a column is kept exactly when it is a column of the extra sheet that the result lacks, or is the key; the kept columns are in the sheet's order and have no duplicates |
| Merge.Without | app.py:92 | the columns a merge on the key takes from the right table: exactly the right table's non-key columns, in order, with no duplicates |
| Merge.Project | app.py:92 | selecting `cols_to_use` gives a well-formed table with exactly those columns, the same number of rows, and each row's values in those columns unchanged |
| Merge.MatchIndices | app.py:92 | the partners of a left row: exactly the positions, in ascending order, of the extra rows whose key holds the left row's key value |
| Merge.Expand | app.py:92 | one left row becomes one copy per matching extra row, in order, or a single copy if nothing matches; each copy keeps the left row's values; added columns take the matching row's values, or `Missing` when there is no match |
| Merge.LeftJoinRows | app.py:92 | the joined rows are never fewer than the left rows, and each has exactly the left columns plus the added ones |
| Merge.LeftJoin | app.py:92 | a left merge on the key yields a well-formed table whose columns are the left columns followed by the right's non-key columns, with at least as many rows as the left table |
| Merge.JoinExtra | app.py:91-92 | one round yields a well-formed table that keeps the result's columns as a prefix and never loses rows |
| Merge.JoinExtraColumns | app.py:91-92 | a round's columns are the previous result's columns in their order, followed by exactly the extra sheet's new non-key columns in the sheet's order; no column name appears twice |
| Merge.MatchIndicesProject | app.py:91-92 | cutting the extra sheet down to the kept columns does not change which rows a key matches |
| Merge.UniqueKeysAtMostOneMatch | app.py:92 | with unique keys in the extra sheet, every left row has at most one partner |
| Merge.JoinExtraUniqueKeys | app.py:92 | with unique keys in the extra sheet, a round keeps the row count and order; row i keeps all of its old values; each added column holds the value of the extra row with the same key, or `Missing` if there is none |
| Merge.LeftJoinRowsCount | app.py:92 | the number of joined rows is the sum, over the left rows, of their number of matches, counting 1 for a row without a match |
| Merge.JoinExtraBlock | app.py:92 | duplicates included: left row i becomes a block of consecutive rows right after the blocks of the rows before it, with one copy per matching extra row in the sheet's order, or one copy if there is no match. Every copy keeps row i's values. The k-th copy carries the k-th match's values in the added columns, and a lone unmatched copy carries `Missing` |
| Merge.LeftJoinRowsOrigin | app.py:92 | every joined row is a copy of some left row |
| Merge.JoinExtraRowsKept | app.py:92 | a round neither invents nor drops rows: every result row keeps all values of some previous row, and every previous row has such a copy |
| Consolidation.Step | app.py:88-92 | a pass fails exactly when the upload could not be read or one side lacks the key, and a failure names the key; on success its table is well-formed and extends the result's columns |
| Consolidation.Fold | app.py:85-92 | the loop as a left fold of filter-then-join over the uploads. A success is well-formed, keeps the main columns as a prefix, and has at least as many rows as the main table. A failure is exactly `Failure(key)` |
| Consolidation.Consolidate | app.py:85-92 | the loop, which copies the main table and then reads, filters and joins each upload in order, returns exactly what `Fold` computes, the early error returns included |
| Consolidation.FoldFailsIff | app.py:111-112 | the operation fails exactly when there is an extra upload and either the key is not a main column or some upload is unreadable (line 88) or lacks the key (line 92). There is no partial result. Merge failures from incompatible key types are outside the model (see "## Left out", dtype coercion) |
| Consolidation.FoldColumns | app.py:87-92 | on success the columns are those `FinalColumns` computes from the column labels alone, with no duplicates; a column is present exactly when the main table or some upload has it |
| Consolidation.FoldRowsKept | app.py:87-92 | on success every result row keeps all values of some main row, and every main row has at least one such copy |
| Consolidation.FoldUniqueKeys | app.py:87-92 | with unique keys in every upload, success keeps the main table's row count and order, and row i keeps all of main row i's values |
| Consolidation.RoundAddsValue | app.py:91-92 | the round that adds a column fills it in row i from the extra row with row i's key, or with `Missing` |
| Consolidation.FoldValue | app.py:87-92 | first writer wins. With unique keys, a column the main table lacks gets its values from the first upload that has it: in row i, the value of that upload's row with row i's key, or `Missing` |
| Scenarios.ScenarioConsolidation | app.py:85-92 | Ana and Bruno's scores joined with a sheet that knows only Ana: both rows stay, Ana's row gains the extra value, and Bruno's row gets `Missing` |
| Scenarios.DuplicateKeyRepeatsRow | app.py:92 | with an extra sheet holding Ana twice, Ana's row appears twice, once per extra row in that sheet's order |
| Scenarios.MissingKeyFails | app.py:111-112 | a second upload without the reference column makes the whole operation fail, though the first upload could be joined |

## Left out

- The Streamlit page is UI only and not modelled: layout, styling,
  uploaders, the select box, the button, the spinner and the messages
  (app.py:1-70, 76-82, 94-98, 113-119).
- The `head(10)` preview (app.py:98) is display only.
- Spreadsheet I/O is not modelled (the foreign reader and writer). This
  covers:
  - `pd.read_excel` (app.py:74, 88). A read sheet is an input table, and
    an unreadable extra file is the `Unreadable` upload.
  - the workbook writer (app.py:101-103);
  - the download button (app.py:105-110).
- The main file is read outside the `try` (app.py:74). The model takes it as
  an already-read well-formed table, so an unreadable main file is not
  modelled.
- Every read sheet is assumed to be well-formed, with unique column labels
  and one cell per column (`UploadsWellFormed`). The spreadsheet reader
  guarantees this by renaming repeated headers.
- Pandas internals outside left-join semantics are not modelled, being
  library details:
  - dtype coercion, such as integers turning into floats once `Missing`
    cells appear, and a merge raising on incompatible key dtypes;
  - the row index;
  - suffixes for clashing names. The column filter makes clashes
    impossible.
  - Key values of different kinds simply never match in the model.
  - `Missing` keys match each other, as NaN keys do in a pandas merge.
- Exceptions other than an unreadable extra file and a missing reference
  column are not modelled (for example memory errors), nor is the text of
  the error message. `Failure` carries the column it names.
- A failure after the join is not modelled. The `try` also covers the
  workbook writer and the download button (app.py:101-110). If one of them
  raises, for example when the `xlsxwriter` engine is missing, the same
  message blaming the reference column appears after the success message
  and the preview are already on screen.
- Column labels are modelled as `string` and cell values have no date or
  time case. `pd.read_excel` yields non-text labels for numeric header cells
  and timestamps for date cells. Every proved property only uses equality
  of labels and values, so none depends on this.
- Row values are maps from column name to value. Column order lives only in
  the table's column list, as in a data frame.
