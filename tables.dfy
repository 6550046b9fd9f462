/**
 * Sheets as tables: an ordered list of column names and an ordered list of
 * rows, each row a map from column name to cell value. A column that a row
 * does not map reads as an empty cell, so sparse rows are allowed.
 */
module Tables {
  import opened Values

  type Row = map<string, Value>

  datatype Table = Table(columns: seq<string>, rows: seq<Row>)

  /** The status column that the annotated table carries first. */
  const StatusColumn: string := "状态"
  /** The column holding each row's join key while the tables are compared. */
  const MergeKeyColumn: string := "__merge_key"
  /** The column holding each row's position while the tables are compared. */
  const IndexColumn: string := "__original_index"
  /** Placeholder for an empty side of a changed cell. */
  const EmptyMark: string := "空"

  /** The status of a row of the annotated table. */
  datatype Status = Unchanged | Added | Deleted | Modified {
    function Text(): string {
      match this
      case Unchanged => "不变"
      case Added => "新增"
      case Deleted => "删除"
      case Modified => "修改"
    }
  }

  function StatusCell(s: Status): Value {
    Str(s.Text())
  }

  /** The four statuses are written as four different cells. */
  lemma StatusCellInjective(s: Status, t: Status)
    requires StatusCell(s) == StatusCell(t)
    ensures s == t
  {
    assert s.Text() == t.Text();
    assert s.Text()[0] == t.Text()[0];
  }

  /** A DataFrame is empty when it has no rows or no columns. */
  predicate IsEmpty(t: Table) {
    |t.rows| == 0 || |t.columns| == 0
  }

  /** A cell of a row; a column the row does not map is empty. */
  function Cell(row: Row, col: string): Value {
    if col in row then row[col] else Missing
  }

  /** The value in row `i` under column `col` (empty under a column the table lacks). */
  function Get(t: Table, i: nat, col: string): Value
    requires i < |t.rows|
  {
    if col in t.columns then Cell(t.rows[i], col) else Missing
  }

  /** Row `i` as a map over exactly the table's columns. */
  function Normalize(t: Table, i: nat): (row: Row)
    requires i < |t.rows|
    ensures forall col :: col in row <==> col in t.columns
    ensures forall col :: Cell(row, col) == Get(t, i, col)
  {
    map col | col in t.columns :: Cell(t.rows[i], col)
  }

  /** A row restricted to (and completed over) the given columns. */
  function Project(row: Row, cols: seq<string>): (r: Row)
    ensures forall col :: col in r <==> col in cols
    ensures forall col :: col in cols ==> r[col] == Cell(row, col)
  {
    map col | col in cols :: Cell(row, col)
  }
}
