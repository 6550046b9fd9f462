/**
 * The styling rules of `generate_marked_excel`: how an annotated table is laid
 * out on a worksheet (title, header row, data rows, frozen first row), which
 * fill every cell gets, and how wide every column is made. The workbook
 * library itself is not modelled; a worksheet is the grid of values and
 * styles that the function asks it to store.
 */
module Render {
  import opened Values
  import opened Tables
  import opened Assembly

  /** ARGB colours of the fills. */
  const UnchangedColor: string := "FFD3D3D3"
  const AddedColor: string := "FF90EE90"
  const DeletedColor: string := "FFADD8E6"
  const ModifiedColor: string := "FFFFFF00"
  const HeaderColor: string := "FFDAE8FC"

  /** The background of a cell: none, or a solid fill in one colour. */
  datatype Fill = NoFill | Solid(color: string)

  /** A worksheet cell: the stored value and its style (every cell also gets a thin border). */
  datatype GridCell = GridCell(value: Value, fill: Fill, bold: bool, centered: bool)

  /**
   * A worksheet: its title, its cells by row (the header row first) and by
   * column, the width of every column in tenths of a character, and the cell
   * at which the panes are frozen.
   */
  datatype Sheet = Sheet(title: string, cells: seq<seq<GridCell>>, widths: seq<nat>, frozenAt: string)

  /** The longest worksheet title the workbook accepts. */
  const MaxTitleLength: nat := 31

  /** The title of the worksheet for a sheet name: its first 31 characters. */
  function SheetTitle(name: string): (title: string)
    ensures |title| <= MaxTitleLength && title <= name
    ensures |name| <= MaxTitleLength ==> title == name
    ensures |name| > MaxTitleLength ==> |title| == MaxTitleLength
  {
    if |name| <= MaxTitleLength then name else name[..MaxTitleLength]
  }

  /** A header cell: the column name, bold and centred on the header fill. */
  function HeaderCell(col: string): GridCell {
    GridCell(Str(col), Solid(HeaderColor), true, true)
  }

  /** The value stored for a data cell: an empty cell is written as "". */
  function Written(v: Value): (w: Value)
    ensures !w.Missing?
    ensures !v.Missing? ==> w == v
  {
    if v.Missing? then Str("") else v
  }

  /** The change map flags column `col` of annotated row `idx`. */
  predicate Flagged(changes: ChangeMap, idx: nat, col: string) {
    idx in changes && col in changes[idx] && changes[idx][col]
  }

  /**
   * The fill of a data cell: grey, green or blue for the whole of an
   * unchanged, added or deleted row; in a modified row, yellow on the flagged
   * cells outside the status column and no fill elsewhere.
   */
  function CellFill(status: Value, col: string, flagged: bool): (fill: Fill)
    ensures status == StatusCell(Unchanged) ==> fill == Solid(UnchangedColor)
    ensures status == StatusCell(Added) ==> fill == Solid(AddedColor)
    ensures status == StatusCell(Deleted) ==> fill == Solid(DeletedColor)
    ensures fill == Solid(ModifiedColor) <==> status == StatusCell(Modified) && col != StatusColumn && flagged
    ensures fill == NoFill <==>
      status !in {StatusCell(Unchanged), StatusCell(Added), StatusCell(Deleted)} &&
      !(status == StatusCell(Modified) && col != StatusColumn && flagged)
  {
    if status == StatusCell(Unchanged) then Solid(UnchangedColor)
    else if status == StatusCell(Added) then Solid(AddedColor)
    else if status == StatusCell(Deleted) then Solid(DeletedColor)
    else if status == StatusCell(Modified) && col != StatusColumn && flagged then Solid(ModifiedColor)
    else NoFill
  }

  /** The cell written for column `col` of annotated row `r`. */
  function DataCell(t: Table, changes: ChangeMap, r: nat, col: string): GridCell
    requires r < |t.rows|
  {
    var row := t.rows[r];
    GridCell(Written(Cell(row, col)), CellFill(Cell(row, StatusColumn), col, Flagged(changes, r, col)), false, false)
  }

  function HeaderRow(cols: seq<string>): (cells: seq<GridCell>)
    ensures |cells| == |cols|
    ensures forall k :: 0 <= k < |cols| ==> cells[k] == HeaderCell(cols[k])
  {
    seq(|cols|, k requires 0 <= k < |cols| => HeaderCell(cols[k]))
  }

  function DataRow(t: Table, changes: ChangeMap, r: nat): (cells: seq<GridCell>)
    requires r < |t.rows|
    ensures |cells| == |t.columns|
    ensures forall k :: 0 <= k < |t.columns| ==> cells[k] == DataCell(t, changes, r, t.columns[k])
  {
    seq(|t.columns|, k requires 0 <= k < |t.columns| => DataCell(t, changes, r, t.columns[k]))
  }

  /** The worksheet's cells: the header in the first row, annotated row `r` in row `r + 1`. */
  function Grid(t: Table, changes: ChangeMap): (cells: seq<seq<GridCell>>)
    ensures |cells| == |t.rows| + 1
    ensures cells[0] == HeaderRow(t.columns)
    ensures forall r :: 0 <= r < |t.rows| ==> cells[r + 1] == DataRow(t, changes, r)
  {
    [HeaderRow(t.columns)] + seq(|t.rows|, r requires 0 <= r < |t.rows| => DataRow(t, changes, r))
  }

  // ---------------------------------------------------------------- column widths

  /** The length the width rule counts for a stored value (an integer by its decimal form). */
  function ShownLength(v: Value): nat {
    match v
    case Missing => 0
    case Str(s) => |s|
    case Int(n) => |IntToDecimal(n)|
  }

  /** The longest of the header and the stored values of a column. */
  function MaxLength(header: string, values: seq<Value>): (m: nat)
    ensures m >= |header|
  {
    if values == [] then |header|
    else
      var prev := MaxLength(header, values[..|values| - 1]);
      var last := ShownLength(values[|values| - 1]);
      if last > prev then last else prev
  }

  /** No value of the column is longer than the longest length. */
  lemma {:induction false} MaxLengthBounds(header: string, values: seq<Value>)
    ensures forall r :: 0 <= r < |values| ==> MaxLength(header, values) >= ShownLength(values[r])
  {
    if values != [] {
      var init := values[..|values| - 1];
      MaxLengthBounds(header, init);
      forall r | 0 <= r < |values|
        ensures MaxLength(header, values) >= ShownLength(values[r])
      {
        if r < |init| {
          assert init[r] == values[r];
        }
      }
    }
  }

  /** The longest length is attained: by the header or by one of the values. */
  lemma {:induction false} MaxLengthAttained(header: string, values: seq<Value>)
    ensures MaxLength(header, values) == |header| ||
            exists r :: 0 <= r < |values| && MaxLength(header, values) == ShownLength(values[r])
  {
    if values != [] {
      var init := values[..|values| - 1];
      MaxLengthAttained(header, init);
      if MaxLength(header, values) != |header| && MaxLength(header, values) == MaxLength(header, init) {
        var r :| 0 <= r < |init| && MaxLength(header, init) == ShownLength(init[r]);
        assert init[r] == values[r];
      }
    }
  }

  /** The widest a column is made, in tenths of a character. */
  const MaxWidthTenths: nat := 500

  /** Column width in tenths: 1.2 characters per character of the longest text plus two, at most 50. */
  function WidthTenths(maxLength: nat): nat {
    if (maxLength + 2) * 12 < MaxWidthTenths then (maxLength + 2) * 12 else MaxWidthTenths
  }

  /** The width never exceeds the cap, grows with the longest length, and is capped from 40 characters on. */
  lemma WidthBounds(m: nat, m': nat)
    ensures WidthTenths(m) <= MaxWidthTenths
    ensures m <= m' ==> WidthTenths(m) <= WidthTenths(m')
    ensures m < 40 ==> WidthTenths(m) == (m + 2) * 12
    ensures m >= 40 ==> WidthTenths(m) == MaxWidthTenths
  {
  }

  /** The stored values of column `k`, top to bottom, below the header. */
  function ColumnValues(t: Table, k: nat): (values: seq<Value>)
    requires k < |t.columns|
    ensures |values| == |t.rows|
    ensures forall r :: 0 <= r < |t.rows| ==> values[r] == Written(Cell(t.rows[r], t.columns[k]))
  {
    seq(|t.rows|, r requires 0 <= r < |t.rows| => Written(Cell(t.rows[r], t.columns[k])))
  }

  /** The width of column `k`, from the longest of its header and its stored values. */
  function ColumnWidthTenths(t: Table, k: nat): nat
    requires k < |t.columns|
  {
    WidthTenths(MaxLength(t.columns[k], ColumnValues(t, k)))
  }

  /** The widths of the first `n` columns, left to right. */
  function WidthsUpTo(t: Table, n: nat): (widths: seq<nat>)
    requires n <= |t.columns|
    ensures |widths| == n
  {
    if n == 0 then [] else WidthsUpTo(t, n - 1) + [ColumnWidthTenths(t, n - 1)]
  }

  /** The widths of all columns. */
  function Widths(t: Table): seq<nat> {
    WidthsUpTo(t, |t.columns|)
  }

  lemma {:induction false} WidthsUpToAt(t: Table, n: nat, k: nat)
    requires k < n <= |t.columns|
    ensures WidthsUpTo(t, n)[k] == ColumnWidthTenths(t, k)
  {
    if k < n - 1 {
      WidthsUpToAt(t, n - 1, k);
    }
  }

  /** Every column gets a width, computed from the longest text stored in that column. */
  lemma WidthsAt(t: Table, k: nat)
    requires k < |t.columns|
    ensures |Widths(t)| == |t.columns|
    ensures Widths(t)[k] == WidthTenths(MaxLength(t.columns[k], ColumnValues(t, k)))
  {
    WidthsUpToAt(t, |t.columns|, k);
  }

  /** The worksheet written for one annotated table. */
  function RenderedSheet(name: string, t: Table, changes: ChangeMap): Sheet {
    Sheet(SheetTitle(name), Grid(t, changes), Widths(t), "A2")
  }

  /** The worksheet cell of annotated row `r` under column `k`: one row below it, because of the header. */
  lemma SheetCellAt(name: string, t: Table, changes: ChangeMap, r: nat, k: nat)
    requires r < |t.rows| && k < |t.columns|
    ensures |RenderedSheet(name, t, changes).cells| == |t.rows| + 1
    ensures |RenderedSheet(name, t, changes).cells[r + 1]| == |t.columns|
    ensures RenderedSheet(name, t, changes).cells[r + 1][k] == DataCell(t, changes, r, t.columns[k])
    ensures RenderedSheet(name, t, changes).cells[r + 1][k].value == Written(Cell(t.rows[r], t.columns[k]))
    ensures RenderedSheet(name, t, changes).cells[r + 1][k].fill ==
      CellFill(Cell(t.rows[r], StatusColumn), t.columns[k], Flagged(changes, r, t.columns[k]))
  {
  }

  /** A row whose status is "新增" is green throughout and shows its own values. */
  lemma AddedRowRendered(name: string, t: Table, changes: ChangeMap, r: nat, k: nat)
    requires r < |t.rows| && k < |t.columns|
    requires Cell(t.rows[r], StatusColumn) == StatusCell(Added)
    ensures RenderedSheet(name, t, changes).cells[r + 1][k].fill == Solid(AddedColor)
    ensures RenderedSheet(name, t, changes).cells[r + 1][k].value == Written(Cell(t.rows[r], t.columns[k]))
  {
    SheetCellAt(name, t, changes, r, k);
  }

  // ---------------------------------------------------------------- the procedure

  /** The running maximum over one column of the worksheet (the `max_length` loop). */
  method ColumnMaxLength(header: string, values: seq<Value>) returns (m: nat)
    ensures m == MaxLength(header, values)
  {
    m := |header|;
    for r := 0 to |values|
      invariant m == MaxLength(header, values[..r])
    {
      assert values[..r + 1][..r] == values[..r];
      var v := values[r];
      if !v.Missing? {
        var text := if v.Int? then IntToDecimal(v.n) else v.text;
        if |text| > m {
          m := |text|;
        }
      }
    }
    assert values[..|values|] == values;
  }

  /** Writes the data row for annotated row `r`, cell by cell. */
  method WriteDataRow(t: Table, changes: ChangeMap, r: nat) returns (line: seq<GridCell>)
    requires r < |t.rows|
    ensures line == DataRow(t, changes, r)
  {
    var cols := t.columns;
    var row := t.rows[r];
    var status := Cell(row, StatusColumn);
    line := [];
    for k := 0 to |cols|
      invariant |line| == k
      invariant forall p :: 0 <= p < k ==> line[p] == DataCell(t, changes, r, cols[p])
    {
      var col := cols[k];
      var value := Cell(row, col);
      if value.Missing? {
        value := Str("");
      }
      var fill := NoFill;
      if status == StatusCell(Unchanged) {
        fill := Solid(UnchangedColor);
      } else if status == StatusCell(Added) {
        fill := Solid(AddedColor);
      } else if status == StatusCell(Deleted) {
        fill := Solid(DeletedColor);
      }
      if status == StatusCell(Modified) && col != StatusColumn {
        if r in changes && col in changes[r] && changes[r][col] {
          fill := Solid(ModifiedColor);
        }
      }
      line := line + [GridCell(value, fill, false, false)];
    }
  }

  /** Writes the header row and then one worksheet row per annotated row. */
  method WriteCells(t: Table, changes: ChangeMap) returns (cells: seq<seq<GridCell>>)
    ensures cells == Grid(t, changes)
  {
    var cols := t.columns;
    var header: seq<GridCell> := [];
    for k := 0 to |cols|
      invariant |header| == k
      invariant forall p :: 0 <= p < k ==> header[p] == HeaderCell(cols[p])
    {
      header := header + [HeaderCell(cols[k])];
    }
    cells := [header];
    for r := 0 to |t.rows|
      invariant |cells| == r + 1 && cells[0] == HeaderRow(cols)
      invariant forall q :: 0 <= q < r ==> cells[q + 1] == DataRow(t, changes, q)
    {
      var line := WriteDataRow(t, changes, r);
      cells := cells + [line];
    }
  }

  /** Below the header, worksheet row `r` stores, column by column, the written values of annotated row `r - 1`. */
  ghost predicate ShowsValues(t: Table, cells: seq<seq<GridCell>>) {
    && |cells| == |t.rows| + 1
    && (forall r :: 1 <= r < |cells| ==> |cells[r]| == |t.columns|)
    && (forall r, k :: 1 <= r < |cells| && 0 <= k < |t.columns| ==>
          cells[r][k].value == Written(Cell(t.rows[r - 1], t.columns[k])))
  }

  /** The values stored in column `k` of the worksheet rows below the header. */
  function StoredColumn(cells: seq<seq<GridCell>>, k: nat): (values: seq<Value>)
    requires forall r :: 1 <= r < |cells| ==> k < |cells[r]|
    ensures |cells| > 0 ==> |values| == |cells| - 1
    ensures forall r :: 1 <= r < |cells| ==> values[r - 1] == cells[r][k].value
  {
    if |cells| <= 1 then [] else seq(|cells| - 1, r requires 0 <= r < |cells| - 1 => cells[r + 1][k].value)
  }

  /** The cells written by `WriteCells` store, column by column, the values the widths are computed from. */
  lemma StoredColumnValues(t: Table, cells: seq<seq<GridCell>>, k: nat)
    requires ShowsValues(t, cells) && k < |t.columns|
    ensures StoredColumn(cells, k) == ColumnValues(t, k)
  {
    var column := StoredColumn(cells, k);
    forall r | 0 <= r < |t.rows|
      ensures column[r] == ColumnValues(t, k)[r]
    {
      assert column[r] == cells[r + 1][k].value;
    }
  }

  /** Sets the width of every column from the longest text stored in it. */
  method FitWidths(t: Table, cells: seq<seq<GridCell>>) returns (widths: seq<nat>)
    requires ShowsValues(t, cells)
    ensures widths == Widths(t)
  {
    var cols := t.columns;
    widths := [];
    for k := 0 to |cols|
      invariant widths == WidthsUpTo(t, k)
    {
      var m := ColumnMaxLength(cols[k], StoredColumn(cells, k));
      var width := (m + 2) * 12;
      if width > MaxWidthTenths {
        width := MaxWidthTenths;
      }
      assert width == WidthTenths(m);
      FittedWidth(t, cells, k, m);
      widths := widths + [width];
    }
  }

  /** The width set for column `k` from the longest length found in its stored values. */
  lemma FittedWidth(t: Table, cells: seq<seq<GridCell>>, k: nat, m: nat)
    requires ShowsValues(t, cells) && k < |t.columns|
    requires m == MaxLength(t.columns[k], StoredColumn(cells, k))
    ensures ColumnWidthTenths(t, k) == WidthTenths(m)
  {
    StoredColumnValues(t, cells, k);
  }

  /**
   * Writes one annotated table to a worksheet: the cells, then the column
   * widths, with the first row frozen. The status column must exist, since
   * every row's status is read from it.
   */
  method RenderSheet(name: string, t: Table, changes: ChangeMap) returns (s: Sheet)
    requires StatusColumn in t.columns
    ensures s == RenderedSheet(name, t, changes)
  {
    var cells := WriteCells(t, changes);
    assert forall r :: 1 <= r < |cells| ==> cells[r] == DataRow(t, changes, r - 1);
    var widths := FitWidths(t, cells);
    s := Sheet(SheetTitle(name), cells, widths, "A2");
  }

  /** One sheet's result, under the name it was compared as. */
  datatype NamedResult = NamedResult(name: string, table: Table, changes: ChangeMap)

  /** The workbook: one worksheet per result, in the order of the results. */
  function RenderedWorkbook(results: seq<NamedResult>): (sheets: seq<Sheet>)
    ensures |sheets| == |results|
    ensures forall k :: 0 <= k < |results| ==>
      sheets[k] == RenderedSheet(results[k].name, results[k].table, results[k].changes)
  {
    seq(|results|, k requires 0 <= k < |results| =>
      RenderedSheet(results[k].name, results[k].table, results[k].changes))
  }

  /** `generate_marked_excel`: renders every result into a fresh workbook. */
  method RenderWorkbook(results: seq<NamedResult>) returns (sheets: seq<Sheet>)
    requires forall k :: 0 <= k < |results| ==> StatusColumn in results[k].table.columns
    ensures sheets == RenderedWorkbook(results)
  {
    sheets := [];
    for k := 0 to |results|
      invariant |sheets| == k
      invariant forall p :: 0 <= p < k ==>
        sheets[p] == RenderedSheet(results[p].name, results[p].table, results[p].changes)
    {
      var sheet := RenderSheet(results[k].name, results[k].table, results[k].changes);
      sheets := sheets + [sheet];
    }
  }
}
