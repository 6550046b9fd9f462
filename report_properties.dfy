/**
 * What the downloaded worksheet shows for a comparison: the fill of every
 * cell of a base row follows the row's status, a cell is yellow exactly where
 * a compared value changed, and an added row is green throughout and shows
 * the compare row's values.
 */
module ReportProperties {
  import opened Values
  import opened Wrappers
  import opened Tables
  import opened RowMatch
  import opened CellDiff
  import opened Assembly
  import opened DiffProperties
  import opened Render
  import opened Session

  /**
   * Base row `i` on the worksheet (row `i + 1`): every cell is blue when the
   * row was deleted and grey when it is unchanged; in a modified row a cell is
   * yellow exactly when its column is a compared column whose value differs
   * from the first compare row with the same key, and has no fill otherwise.
   */
  lemma {:induction false} BaseRowOnSheet(b: Table, c: Table, requested: seq<string>, name: string, i: nat, k: nat)
    requires !IsEmpty(b) && !IsEmpty(c) && Annotates(b, c, requested) && i < |b.rows|
    requires k < |CompareAndMark(Some(b), Some(c), requested).table.columns|
    ensures var r := CompareAndMark(Some(b), Some(c), requested);
      var keys := KeysFor(b, c, requested);
      var sheet := RenderedSheet(name, r.table, r.changes);
      && i + 1 < |sheet.cells| && k < |sheet.cells[i + 1]|
      && var col := r.table.columns[k];
         var fill := sheet.cells[i + 1][k].fill;
         && (fill == Solid(DeletedColor) <==> RowKey(b, i, keys) !in RowKeys(c, keys))
         && (fill == Solid(UnchangedColor) <==> RowKey(b, i, keys) in RowKeys(c, keys) && i !in r.changes)
         && (i in r.changes ==>
               && Matched(b, c, keys, i)
               && (fill == Solid(ModifiedColor) <==>
                     col in b.columns && !IsInternal(col) &&
                     Get(b, i, col) != Get(c, Counterpart(b, c, keys, i), col)))
         && (i in r.changes ==> fill == Solid(ModifiedColor) || fill == NoFill)
  {
    var r := CompareAndMark(Some(b), Some(c), requested);
    var keys := KeysFor(b, c, requested);
    var col := r.table.columns[k];
    AnnotatedShape(b, c, requested);
    BaseRowStatus(b, c, requested, i);
    forall s: Status, t: Status | StatusCell(s) == StatusCell(t) ensures s == t {
      StatusCellInjective(s, t);
    }
    var status := r.table.rows[i][StatusColumn];
    assert Cell(r.table.rows[i], StatusColumn) == status;
    SheetCellAt(name, r.table, r.changes, i, k);
    var cell := RenderedSheet(name, r.table, r.changes).cells[i + 1][k];
    assert cell.fill == CellFill(status, col, Flagged(r.changes, i, col));
    if i in r.changes {
      ChangeMapDomain(b, c, requested, i);
      if col in b.columns && !IsInternal(col) {
        BaseRowCells(b, c, requested, i, col);
      }
    }
  }

  /**
   * Added row `t` on the worksheet (row `|b.rows| + t + 1`): green
   * throughout, "新增" in the status column and the compare row's value (""
   * for an empty one) in every other column.
   */
  lemma AddedRowOnSheet(b: Table, c: Table, requested: seq<string>, name: string, t: nat, k: nat)
    requires !IsEmpty(b) && !IsEmpty(c) && Annotates(b, c, requested)
    requires t < |AddedRows(b, c, KeysFor(b, c, requested))|
    requires k < |CompareAndMark(Some(b), Some(c), requested).table.columns|
    ensures var r := CompareAndMark(Some(b), Some(c), requested);
      var j := AddedRows(b, c, KeysFor(b, c, requested))[t];
      var sheet := RenderedSheet(name, r.table, r.changes);
      var n := |b.rows| + t + 1;
      && n < |sheet.cells| && k < |sheet.cells[n]| && j < |c.rows|
      && sheet.cells[n][k].fill == Solid(AddedColor)
      && sheet.cells[n][k].value ==
           (if r.table.columns[k] == StatusColumn then StatusCell(Added) else Written(Get(c, j, r.table.columns[k])))
  {
    var r := CompareAndMark(Some(b), Some(c), requested);
    var j := AddedRows(b, c, KeysFor(b, c, requested))[t];
    var row := |b.rows| + t;
    MarkedOutcome(b, c, requested);
    AnnotatedShape(b, c, requested);
    AddedRowAt(b, c, KeysFor(b, c, requested), r.table.columns, r.table.rows, t);
    SheetCellAt(name, r.table, r.changes, row, k);
    AddedCellShown(name, r.table, r.changes, c, j, row, k);
    var cell := RenderedSheet(name, r.table, r.changes).cells[row + 1][k];
    assert cell.fill == Solid(AddedColor);
    assert cell.value == (if r.table.columns[k] == StatusColumn then StatusCell(Added) else Written(Get(c, j, r.table.columns[k])));
  }

  /** A worksheet cell of a row that holds an added compare row. */
  lemma AddedCellShown(name: string, table: Table, changes: ChangeMap, c: Table, j: nat, n: nat, k: nat)
    requires n < |table.rows| && k < |table.columns| && j < |c.rows|
    requires StatusColumn in table.columns
    requires table.rows[n] == Project(AddedRow(c, j), table.columns)
    ensures var col := table.columns[k];
      var cell := RenderedSheet(name, table, changes).cells[n + 1][k];
      && cell.fill == Solid(AddedColor)
      && cell.value == (if col == StatusColumn then StatusCell(Added) else Written(Get(c, j, col)))
  {
    AddedRowProjected(c, j, table.columns);
    AddedRowRendered(name, table, changes, n, k);
  }

  /** The kept results, in the order the workbook visits them, as the results to render. */
  function ResultsInOrder(results: map<string, SheetResult>, order: seq<string>): (named: seq<NamedResult>)
    requires forall k :: 0 <= k < |order| ==> order[k] in results
    ensures |named| == |order|
    ensures forall k :: 0 <= k < |order| ==>
      named[k] == NamedResult(order[k], results[order[k]].table, results[order[k]].changes)
  {
    seq(|order|, k requires 0 <= k < |order| =>
      NamedResult(order[k], results[order[k]].table, results[order[k]].changes))
  }

  /**
   * The results of comparing all common sheets, visited in any order, can be
   * rendered: every table has the status column each row's fill is read from.
   */
  lemma AllResultsRenderable(f1: Workbook, f2: Workbook, keyColumns: map<string, seq<string>>, order: seq<string>)
    requires forall k :: 0 <= k < |order| ==> order[k] in AllSheetResults(f1, f2, keyColumns)
    ensures var named := ResultsInOrder(AllSheetResults(f1, f2, keyColumns), order);
      forall k :: 0 <= k < |named| ==> StatusColumn in named[k].table.columns
  {
    forall k | 0 <= k < |order|
      ensures StatusColumn in AllSheetResults(f1, f2, keyColumns)[order[k]].table.columns
    {
      KeptResultsHaveStatus(f1, f2, keyColumns, order[k]);
    }
  }
}
