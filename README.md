# Excel compare and mark: a verified model

This project models the core of an Excel comparison tool. The tool takes two workbooks: an original, called the *base*, and a newer one, called the *compare*. It matches their rows by key, annotates the base sheet and offers the result for download.

**The row diff.** `compare_and_mark_changes` (`app.py:113-229`) builds the *annotated table*:
- Every base row gets a status in a new first column `状态`:
  - `不变` (unchanged);
  - `删除` (deleted: no compare row has its key);
  - `修改` (modified: a cell differs from the compare row with the same key).
- Compare rows whose key no base row has are appended with status `新增` (added).
- A changed cell is rewritten as `old->new`, with `空` standing for an empty side.
- A *change map* records, for each modified row, which compared columns changed.

**The worksheet.** `generate_marked_excel` (`app.py:232-318`) draws each annotated table on a worksheet:
- a styled header row;
- one fill per status, and yellow for the changed cells of a modified row;
- column widths fitted to the longest text;
- a frozen first row.

**The comparison runs.** The app compares either every sheet name the two workbooks share, or one selected sheet. It keeps the results in its session and names the download after the sheet when there is only one.

## Modules

- **`Values`** (`values.dfy`):
  - cell values: empty, text or integer;
  - the string form that goes into a join key, with the decimal form of an integer proved injective through a parse round trip.
- **`JoinKey`** (`join_key.dfy`): the `'|'`-join of the key parts.
  - `Split` inverts it when no part contains `'|'`.
  - Parts that do contain `'|'` can collide.
- **`Tables`** (`tables.dfy`):
  - a sheet is an ordered column list and a list of rows, each row a map from column name to value;
  - the status texts and the internal column names.
- **`RowMatch`** (`row_match.dfy`):
  - resolves the key columns;
  - computes the join key of every row;
  - partitions the rows into deleted, added and common-key rows.
- **`CellDiff`** (`cell_diff.dfy`): the cell-by-cell comparison of a matched pair of rows.
  - A specification function `DiffCells` and the method `DiffRow` are proved equal.
- **`Assembly`** (`assembly.dfy`): the annotated table and change map.
  - `CompareAndMark` is the specification.
  - `CompareAndMarkChanges` is the step-by-step procedure of the source, over an array of rows with loop invariants, proved equal to it.
- **`DiffProperties`** (`diff_properties.dfy`): what the annotated table promises:
  - its shape;
  - the status of every row and the content of every cell;
  - the change map, the error case, identical inputs and the positional fallback.
- **`Render`** (`render.dfy`): the worksheet layout, fills and widths.
  - Specification functions and the writing loops are proved equal.
- **`ReportProperties`** (`report_properties.dfy`): what the worksheet shows for a comparison, end to end.
- **`Session`** (`session.dfy`): the comparison runs.
  - Common sheets, the kept results and the download name.
  - A class `AppSession` holds the results and the key columns chosen per sheet.

## Where the model follows the code rather than the interface text

- **No key requested.** The result page says such a comparison uses "the row index". In the code (`app.py:128-133`), the key is every base column, plus the injected `__original_index` column, that the compare table also has.
  - So, when the base has no `__original_index` column of its own, a base row can only match the compare row at the same position, whatever its cells hold (`RowMatch.DefaultKeysPositional`). The position is the last key part, and its decimal form never contains `'|'`.
  - When no key cell contains `'|'`, rows match exactly when all their key cells have the same string forms (`RowMatch.RowKeysAgree`). Cells that contain `'|'` can give different rows the same key (`JoinKey.JoinCollides`).
  - A base column named `__original_index` is overwritten with the positions where it stands, so the position part can sit between other parts. There, rows still match only at the same position when no key cell contains `'|'` (`RowMatch.DefaultKeysPositionalSeparatorFree`), and otherwise they need not (`RowMatch.MiddleIndexCollides`).
  - The position alone is the key only when none of the requested columns exists in both tables (`app.py:134-136`).
- **Duplicate keys.** Only the first base row and the first compare row with a key are compared (`iloc[0]`, `app.py:166-167`).
  - Later base rows with that key stay `不变`.
  - Later compare rows with that key appear nowhere.
- **KeyError.** When the compare table lacks a compared base column and some key is common to both tables, `row2[col]` raises a KeyError.
  - The model returns it as the outcome `KeyError(column)`.
  - The session then skips that sheet, as the `except` clauses at `app.py:457` and `app.py:489` do.
- **Compare-only columns.** Columns that only the compare table has are appended after the base columns, and only when at least one row is added (the `pd.concat` at `app.py:215`).

## Model

| member | source | states |
|---|---|---|
| Values.NatToDecimal | app.py:139 | the string form of a natural number is a non-empty string of decimal digits |
| Values.IntToDecimal | app.py:139 | the string form of an integer is non-empty and starts with a digit exactly when the integer is non-negative, and with '-' exactly when it is negative |
| Values.DecimalRoundTrip | app.py:139 | reading back the digit string of a natural number gives the number |
| Values.NatToDecimalInjective | app.py:139 | different natural numbers have different digit strings |
| Values.IntToDecimalInjective | app.py:123-139 | different integers, such as two row positions in `__original_index`, have different string forms in the join key |
| Values.DecimalHasNo | app.py:139-140 | the string form of an integer never contains the separator or any other non-digit, non-minus character |
| JoinKey.SplitJoin | app.py:139-140 | splitting the `'|'`-join of separator-free parts at `'|'` gives back exactly those parts |
| JoinKey.JoinInjective | app.py:139-140 | two lists of separator-free key parts with the same join key are equal |
| JoinKey.JoinSingle | app.py:139-140 | with one key column, the join key is that cell's string form |
| JoinKey.JoinSnoc | app.py:139-140 | appending a part to a key appends `'|'` and the part (a one-part key is the part itself) |
| JoinKey.SameLastPart | app.py:139-140 | when `a + '|' + x == b + '|' + y` and neither `x` nor `y` contains `'|'`, then `x == y` |
| JoinKey.JoinLastPart | app.py:139-140 | two equal keys of the same number of parts agree on their last part when it has no `'|'` on either side, whatever the other parts hold |
| JoinKey.JoinCollides | app.py:139-140 | key parts that contain `'|'` can collide: ["a\|b", "c"] and ["a", "b\|c"] are different but have the same join key |
| Tables.StatusCellInjective | app.py:158-212 | the four status texts are written as four different cells, so a row's status selects exactly one fill |
| Tables.Normalize | app.py:122-125 | a row taken from a table is defined on exactly the table's columns and reads each of them as the table does |
| Tables.Project | app.py:218-227 | selecting columns keeps exactly those columns, each with the row's value (empty where the row has none) |
| RowMatch.WithIndex | app.py:122-130 | the columns after `__original_index` is added are the original columns and `__original_index` |
| RowMatch.KeepShared | app.py:133 | the kept key columns are exactly the wanted columns that both tables have, and nothing when none does |
| RowMatch.KeepSharedAppend | app.py:133 | the filter keeps the wanted order: filtering a concatenation concatenates the filtered parts |
| RowMatch.KeepSharedAll | app.py:133 | when every wanted column is in both tables, the filter keeps the wanted list unchanged |
| RowMatch.ResolveKeys | app.py:128-136 | the key is never empty and every key column is in both tables. With no request it is the base columns (with `__original_index`) that both tables have. Otherwise it is the requested columns that both tables have, or `__original_index` alone when there are none. In both cases the key is the wanted list (the base columns with `__original_index`, or the request) filtered in its own order |
| RowMatch.ResolveKeysKeepsRequest | app.py:128-136 | requested columns that both tables have are used exactly as requested, in request order |
| RowMatch.KeepSharedOne | app.py:133 | a single wanted column is kept exactly when both tables have it |
| RowMatch.KeepSharedDrop | app.py:133 | dropping a column that is not in both tables leaves the other wanted columns in their order |
| RowMatch.ResolveKeysIgnoresUnusable | app.py:128-136 | a requested column that is not in both tables has no effect on the key; together with ResolveKeysKeepsRequest, the key is the usable requested columns in request order |
| RowMatch.DefaultKeysInBaseOrder | app.py:128-133 | with no request and every base column in the compare table, the key is the base columns in base order followed by `__original_index` |
| RowMatch.KeyParts | app.py:139-140 | the parts of a row's join key are the string forms of its key cells, in key order, with the row's position under `__original_index` |
| RowMatch.RowKeys | app.py:139-140 | the `__merge_key` column holds one join key per row, in row order |
| RowMatch.RowKeysAgree | app.py:139-140 | when no key part contains `'|'`, two rows have equal join keys exactly when their key cells have equal string forms |
| RowMatch.PositionalKeys | app.py:134-140 | under the positional fallback, two rows have equal keys exactly when they are at the same position |
| RowMatch.DefaultKeysEndWithIndex | app.py:121-133 | with no request and no `__original_index` column in the base, the key is the shared base columns in base order, then `__original_index` last |
| RowMatch.KeyPartsIndexLast | app.py:121-140 | when `__original_index` is the last key column, the last key part is the row's position in decimal |
| RowMatch.IndexLastPositional | app.py:121-140 | rows whose keys end with `__original_index` have equal join keys only at the same position, whatever the other cells hold |
| RowMatch.DefaultKeysPositional | app.py:121-140 | with no requested key and no `__original_index` column in the base, a base row can only match the compare row at its own position, even when its cells contain `'|'` |
| RowMatch.DefaultKeysPositionalSeparatorFree | app.py:121-140 | with no requested key and no `'|'` in any key cell, a base row can only match the compare row at its own position, even when the base has its own `__original_index` column |
| RowMatch.MiddleIndexCollides | app.py:121-140 | with `__original_index` between two other key columns, base row 0 with cells "a\|1" and "z" and compare row 1 with cells "a" and "0\|z" have the same join key |
| RowMatch.UnmatchedRows | app.py:143-146 | the selected rows are exactly the rows whose key the other table lacks, in increasing row order |
| RowMatch.FirstIndex | app.py:166-167 | `iloc[0]` picks the first row with the key: it has the key and no earlier row does |
| RowMatch.CommonKeys | app.py:149 | the common keys are exactly the keys that occur in both tables |
| RowMatch.Counterpart | app.py:166-167 | a matched base row is diffed against the first compare row with its key |
| RowMatch.BasePartition | app.py:146-151 | a base row is deleted exactly when it has no counterpart. It has a counterpart exactly when its key is a common key |
| RowMatch.ComparePartition | app.py:143-151 | a compare row is added exactly when its key is not among the base keys, and otherwise its key is a common key |
| RowMatch.AllMatched | app.py:143-146 | when every key occurs in the other table, no row is selected as deleted or added |
| RowMatch.UnmatchedSuffix | app.py:143-146 | when exactly the rows from position m on are unmatched, the selected rows are m, m+1, ... to the last row, in that order |
| RowMatch.PositionalMatching | app.py:134-146 | under the positional fallback, base row i is matched exactly when the compare table has a row i, and its counterpart is that row. The compare rows past the base length are exactly the added ones, appended in compare order |
| CellDiff.Without | app.py:174-176 | the filtered columns are exactly those not excluded, and no more than the input |
| CellDiff.WithoutAppend | app.py:174-176 | filtering distributes over concatenation, so the kept columns stay in their original order |
| CellDiff.WithoutNone | app.py:174-176 | columns none of which is excluded are all kept, in order |
| CellDiff.DiffColumns | app.py:174-176 | the compared columns are exactly the base columns other than `__merge_key`, `__original_index` and `状态` |
| CellDiff.CellChanged | app.py:182-196 | a cell counts as changed exactly when its two values differ; two empty cells are equal |
| CellDiff.FirstAbsent | app.py:174-180 | the result is the first compared column, in base order, that the compare table lacks, and there is none exactly when all are present |
| CellDiff.DiffCellsFailsAtFirstAbsent | app.py:174-180 | the comparison of a pair raises exactly when a compared column is missing from the compare table, and it names the first such column |
| CellDiff.DiffCellsStops | app.py:174-180 | once a column raises, the comparison of the pair ends there |
| CellDiff.DiffCellsFlagsCols | app.py:171-196 | a completed comparison records a flag for exactly the compared columns |
| CellDiff.DiffCellsFlags | app.py:182-196 | each compared column is flagged exactly when its two cells differ |
| CellDiff.DiffCellsRow | app.py:185-193 | a changed cell of the marked row reads "old->new", with 空 for an empty side, and every other cell is left as it was |
| CellDiff.DiffCellsHasChanges | app.py:172-188 | `has_changes` is set exactly when some compared column differs |
| CellDiff.DiffCellsCompares | app.py:171-196 | the flags, the rewritten cells and `has_changes` of a completed comparison, together |
| CellDiff.DiffRow | app.py:171-196 | the column loop gives exactly the specified comparison, including stopping at the first missing column |
| Assembly.CompareOnlyColumns | app.py:215 | the appended columns are exactly the compare columns that are neither base columns nor internal |
| Assembly.OutputColumns | app.py:214-227 | `状态` comes first and only there, and the internal columns are gone. The compared base columns follow it in base order. When rows were added the compare-only columns come after them, every one of them present; otherwise there is no other column |
| Assembly.AddedRowsOf | app.py:203-215 | one appended row per added compare row, in the given order |
| Assembly.ProjectAll | app.py:227 | selecting the output columns keeps every row in place |
| Assembly.MarkDeleted | app.py:161-162 | after the loop over the deleted rows, exactly the rows without counterpart carry 删除 and all others are still the 不变 copies |
| Assembly.NextDeleted | app.py:161-162 | each row the loop marks has no counterpart and has not been marked before |
| Assembly.DeletedSoFarStep | app.py:161-162 | one step of the loop marks the next deleted row and changes no other row |
| Assembly.MarkOneMore | app.py:162 | marking a row deleted changes its status only |
| Assembly.AllDeletedMarked | app.py:154-162 | with every deleted row marked, the rows are where the loop over the common keys starts |
| Assembly.DiffStep | app.py:165-200 | handling a key finalises the first base row with that key and no other row |
| Assembly.ModifiedIsFirst | app.py:166-168 | a modified base row is the first base row with its key |
| Assembly.DiffKeyRows | app.py:165-200 | the rows part of the loop invariant survives a turn |
| Assembly.DiffKeyChanges | app.py:198-200 | after a turn, the change map holds exactly the modified rows whose keys have been handled |
| Assembly.DiffKeyKeepsInvariant | app.py:165-200 | the whole invariant of the loop over the common keys survives a turn |
| Assembly.DiffKey | app.py:166-200 | a turn either raises at the first compared column the compare table lacks, or keeps the loop invariant with its key done |
| Assembly.DiffCommon | app.py:165-200 | the loop over the common keys (in any order) raises exactly when a key is common and a compared column is missing. Otherwise it ends with every row final and the change map complete |
| Assembly.DiffDone | app.py:165-200 | when the loop is done, the rows are exactly the specified base rows and the map is exactly the specified change map |
| Assembly.DiffDoneRows | app.py:165-200 | with no key left, every base row is in its final form |
| Assembly.DiffDoneChanges | app.py:198-200 | a map holding exactly the modified rows with their flags is the change map |
| Assembly.AppendAdded | app.py:203-215 | the added compare rows are appended after the base rows, in compare order, each marked 新增 |
| Assembly.AppendRowsOf | app.py:203-215 | appending row after row gives the base rows followed by the given rows, in order |
| Assembly.AddedRowsOfSnoc | app.py:215 | appending one more compare row adds its 新增 row at the end |
| Assembly.CompareAndMarkChanges | app.py:113-229 | the procedure returns exactly the specified outcome: no result, a KeyError, or the annotated table with its change map |
| DiffProperties.NoResultExactlyOnEmpty | app.py:113-119 | there is no result exactly when an input is absent or has no rows or no columns |
| DiffProperties.KeyErrorExactly | app.py:174-180 | a KeyError arises exactly when a key is common to both tables and a compared base column is missing from the compare table, and it names the first such column in base order |
| DiffProperties.MarkedRowsFront | app.py:154 | the annotated rows begin with the base rows, in base order |
| DiffProperties.MarkedRowsBack | app.py:203-215 | the added rows follow the base rows, in compare order |
| DiffProperties.MarkedOutcome | app.py:113-229 | a produced annotated table has the output columns, the marked rows restricted to them, and the change map |
| DiffProperties.MarkedStatusFirst | app.py:222-227 | every annotated table has `状态` as its first column |
| DiffProperties.AddedRowAt | app.py:203-227 | annotated row \|base\|+t is added row t, restricted to the output columns |
| DiffProperties.ChangesAt | app.py:198-200 | a row has a change-map entry exactly when it is modified, and the entry holds the flags of its comparison |
| DiffProperties.BaseRowAt | app.py:154-227 | annotated row i is base row i in its final form, restricted to the output columns |
| DiffProperties.AnnotatedAddedRowAt | app.py:203-227 | annotated row \|base\|+t is the t-th added compare row with status 新增 |
| DiffProperties.AnnotatedShape | app.py:154-227 | the annotated table has \|base\| + \|added\| rows. `状态` is its first column and appears only there, the internal columns are gone, and every row is defined on exactly its columns |
| DiffProperties.MarkedBaseStatus | app.py:158-199 | a base row's status is 删除 without counterpart, 修改 when modified and 不变 otherwise |
| DiffProperties.BaseRowStatus | app.py:143-200 | base row i is 删除 exactly when its key is not among the compare keys. It is 修改 exactly when it has a change-map entry, and 不变 exactly when matched without one. Only the first base row of a key can be modified |
| DiffProperties.MatchedPairCompared | app.py:164-182 | when there is an annotated table, comparing any matched base row with its counterpart did not raise |
| DiffProperties.ChangedCellMarksModified | app.py:164-200 | the converse of the flags: a first-of-key matched base row with a compared cell that differs from its counterpart's has a change-map entry flagging that column, and its status is 修改 |
| DiffProperties.BaseRowCells | app.py:165-200 | in a modified row, a compared column is flagged exactly when its base and counterpart values differ, and holds "old->new" exactly where flagged and the base value elsewhere; at least one column is flagged. Every other base row keeps its base values |
| DiffProperties.ChangeMapDomain | app.py:171-200 | a change-map entry flags exactly the compared base columns |
| DiffProperties.AddedRowCells | app.py:203-215 | an added row comes from a compare row whose key no base row has. It carries 新增 and the compare row's own values (empty under base columns the compare table lacks), on exactly the output columns |
| DiffProperties.AddedRowProjected | app.py:204-212 | an appended compare row restricted to the output columns has status 新增 and its own values |
| DiffProperties.AddedRowsExactly | app.py:143 | a compare row is appended exactly when no base row has its key |
| DiffProperties.SelfComparisonUnmodified | app.py:165-200 | comparing a table with itself matches every row, cannot raise and modifies no row |
| DiffProperties.IdenticalMarked | app.py:113-229 | comparing a non-empty table with itself gives an annotated table and adds no row |
| DiffProperties.IdenticalNoChanges | app.py:113-229 | comparing a non-empty table with itself records no change |
| DiffProperties.IdenticalOutcome | app.py:113-229 | comparing a non-empty table with itself gives the status column followed by the compared columns, one row per base row, and no change |
| DiffProperties.IdenticalRow | app.py:113-229 | row i of a table compared with itself is 不变 and keeps its own values |
| DiffProperties.InitialRowProjected | app.py:154-158 | the copy of a base row carries 不变 and its own values under the compared columns |
| DiffProperties.IdenticalTablesUnchanged | app.py:113-229 | whatever the requested key, a table compared with itself comes back row for row as 不变 with its own values, with no added row, no compare-only column and an empty change map |
| DiffProperties.PositionalFallback | app.py:134-162 | under the positional fallback, base row i is 删除 exactly when the compare table has fewer than i+1 rows, and the annotated table has as many rows as the longer table |
| DiffProperties.PositionalDeleted | app.py:134-162 | under positional keys, a base row is 删除 exactly when the compare table has no row at its position |
| Render.SheetTitle | app.py:246 | the title is the sheet name's first 31 characters: a prefix of the name, the whole name when it is short enough, and exactly 31 characters otherwise |
| Render.Written | app.py:266-268 | a stored value is never empty: an empty cell is stored as "" and every other value as it is |
| Render.CellFill | app.py:273-285 | 不变, 新增 and 删除 rows are grey, green and blue. A cell is yellow exactly when its row is 修改, its column is not `状态` and its change flag is set. It has no fill exactly in the remaining cases |
| Render.HeaderRow | app.py:251-256 | the header row has one bold, centred, header-coloured cell per column, holding the column's name |
| Render.DataRow | app.py:259-285 | a data row has one cell per column, holding the stored value and the fill for the row's status and the cell's flag |
| Render.Grid | app.py:251-285 | the header is row 1 of the worksheet, and annotated row r is row r+2 (index r+1 here) |
| Render.MaxLength | app.py:288-303 | the longest length is at least the header's length |
| Render.MaxLengthBounds | app.py:295-303 | no stored value in the column is longer than the longest length |
| Render.MaxLengthAttained | app.py:293-303 | the longest length is the header's or some stored value's |
| Render.WidthBounds | app.py:307-308 | the width never exceeds 50 characters (500 tenths) and grows with the longest length. It is 1.2 × (length + 2) below a longest length of 40, and 50 from 40 on |
| Render.ColumnValues | app.py:295-303 | the values a width is measured over are the stored values of the column, top to bottom |
| Render.WidthsUpTo | app.py:288-308 | one width per column measured so far |
| Render.WidthsUpToAt | app.py:288-308 | each of those widths is measured over its own column |
| Render.WidthsAt | app.py:288-308 | every column's width is computed from the longest of its header and its stored values |
| Render.SheetCellAt | app.py:259-285 | the worksheet cell of annotated row r and column k stores that row's value and has the fill of the row's status and the cell's flag |
| Render.AddedRowRendered | app.py:276-277 | a 新增 row is green throughout and shows its own values |
| Render.ColumnMaxLength | app.py:289-303 | the running maximum over a column equals the specified longest length |
| Render.WriteDataRow | app.py:259-285 | the cell loop writes exactly the specified data row |
| Render.WriteCells | app.py:251-285 | the header and row loops write exactly the specified grid |
| Render.StoredColumn | app.py:295 | the values below the header in one column, top to bottom |
| Render.StoredColumnValues | app.py:288-303 | the values stored in a column are the values the width is specified over |
| Render.FitWidths | app.py:288-308 | the width loop sets exactly the specified width of every column |
| Render.FittedWidth | app.py:307-308 | the width set from the running maximum is the specified width |
| Render.RenderSheet | app.py:246-311 | the worksheet written for a result is exactly the specified one: truncated title, grid, widths, panes frozen at A2 |
| Render.RenderedWorkbook | app.py:241-311 | one worksheet per result, in the order of the results |
| Render.RenderWorkbook | app.py:232-318 | the workbook loop renders exactly the specified worksheets |
| ReportProperties.BaseRowOnSheet | app.py:143-200 | on the worksheet, a base row's cell is blue exactly when the row has no counterpart, and grey exactly when matched and unmodified. In a modified row it is yellow exactly when its column is a compared column whose value differs from the counterpart's, and has no fill otherwise |
| ReportProperties.AddedRowOnSheet | app.py:203-277 | on the worksheet, an added row is green throughout, with 新增 under `状态` and the compare row's stored values elsewhere |
| ReportProperties.AddedCellShown | app.py:259-277 | the worksheet cell of an appended compare row is green and shows its stored value |
| ReportProperties.ResultsInOrder | app.py:241-243 | the kept results, visited in a given order, become one named result each, with its table and change map |
| Session.KeptResultsHaveStatus | app.py:451-456 | every result kept by an all-sheets run has the status column |
| ReportProperties.AllResultsRenderable | app.py:241-260 | the results of an all-sheets run, in any order, all have the status column from which each row's fill is read |
| Session.ReadSheet | app.py:102-110 | reading a sheet gives its table exactly when it can be read |
| Session.CommonSheets | app.py:432 | the common sheets are exactly the names in both workbooks |
| Session.AllSheetResults | app.py:437-456 | the results hold exactly the common sheets whose comparison produced an annotated table, each with its table, change map and key columns |
| Session.DownloadNameCases | app.py:547-551 | a single result is downloaded as 对比结果_<sheet>.xlsx, and any other number of results as 对比结果_多Sheet.xlsx |
| Session.CompareSheet | app.py:442-449 | a sheet is compared under its chosen key columns, none when none were chosen |
| Session.SelectedResult | app.py:476-485 | a result is kept exactly when the comparison produced an annotated table |
| Session.Restrict | app.py:439-456 | the results of the given sheets, unchanged |
| Session.RestrictAdd | app.py:451-456 | one more sheet adds its result when it has one |
| Session.RestrictAll | app.py:439-456 | all sheets together keep every result |
| Session.CompareSheets | app.py:439-458 | the loop over the common sheets yields exactly the specified results |
| Session.CollectResults | app.py:439-458 | the loop keeps the result of every sheet that produced one, in any order |
| Session.RecordSheet | app.py:440-458 | one turn stores a sheet's result exactly when it produced one, and a sheet that yields nothing or raises is skipped |
| Session.SelectedResultRenderable | app.py:479-485 | the result of a single-sheet run has the status column from which each row's fill is read |
| Session.AllSheetResultsRenderable | app.py:441-463 | every result of an all-sheets run has the status column from which each row's fill is read |
| Session.AppSession.constructor | app.py:40-43 | the session starts without results and without chosen key columns, and its results can be rendered (`Valid`) |
| Session.AppSession.ChooseKeyColumns | app.py:367-379 | choosing key columns for a sheet records them for that sheet only and leaves the results alone, so they can still be rendered |
| Session.AppSession.CompareAllSheets | app.py:429-463 | without a common sheet nothing changes. Otherwise the kept results are replaced by exactly this run's results, and the chosen keys are left alone. The kept results can still be rendered |
| Session.AppSession.CompareSelectedSheet | app.py:464-492 | without a selection nothing changes. A produced result becomes the only kept result, and otherwise the kept results stay as they were. After any sequence of runs, every kept result can be rendered |

## Left out

- The Streamlit interface: page layout, uploaders, checkboxes, select boxes, multiselect widgets, messages and the result page. This is user-interface code; only the state it leaves behind is modelled.
- Reading workbooks with pandas and writing them with openpyxl, including saving to a byte stream. A workbook is modelled as its sheet names and the sheets that read successfully. A worksheet is modelled as the values and styles the code asks openpyxl to store.
- `read_excel` called with an empty sheet name reads the first sheet. The model treats a sheet name only as a key, and an empty selection as no selection.
- The file-extension check (`app.py:422-427`). It is a user-interface guard in front of the comparison.
- The status counts shown with `value_counts` (`app.py:522-525`). They are display only.
- Floating-point values, NaN, and pandas' integer-versus-float equality and dtype coercion. Cells are modelled as empty, text or integer, and equal exactly when they are the same value. An empty cell's string form in a join key is "nan".
- Render.WidthBounds: the width is stated in integer tenths, `(length + 2) × 12` capped at 500, rather than as the floating-point `(length + 2) × 1.2` capped at 50 that is set.
- Borders, fonts and alignment are recorded only as the bold and centred flags of header cells. The thin border that every cell gets is not modelled.
- openpyxl's own handling of worksheet titles (rejected characters, deduplication) and the removal of its default sheet.
- Exceptions other than the KeyError of a missing compare column.
  - One raised while comparing skips that sheet in an all-sheets run (`app.py:457`). In a single-sheet run it keeps the earlier results (`app.py:489`).
  - One raised while the workbook is written, such as openpyxl rejecting a cell value at `app.py:268`, is caught only once, around the whole `generate_marked_excel` call (`app.py:543-561`). So no file is offered at all.
  - The model's rendering (`Render.RenderWorkbook`) never fails.
- Duplicate column names within one sheet. A row is a map from column name to value.
- Iteration order over sets and dictionaries. The common keys and common sheets are sets, and the results are a map, so the workbook's sheet order is left as a parameter of `Render.RenderWorkbook`.
- The row labels of the annotated table: the appended rows are numbered on after the base rows, and the change map is keyed by base position, which is what `__original_index` holds after `reset_index`.
