/**
 * The cell-by-cell comparison of a matched pair of rows in
 * `compare_and_mark_changes`: which columns are compared, when a cell counts
 * as changed, how a changed cell is written ("old->new" with "空" for an
 * empty side), and the loop that walks the columns of the base table.
 */
module CellDiff {
  import opened Values
  import opened Wrappers
  import opened Tables

  /** The internal columns that the comparison skips. */
  predicate IsInternal(col: string) {
    col == MergeKeyColumn || col == IndexColumn || col == StatusColumn
  }

  /** The columns of `cols` that are not in `excluded`, in order. */
  function Without(cols: seq<string>, excluded: set<string>): (r: seq<string>)
    ensures forall col :: col in r <==> col in cols && col !in excluded
    ensures |r| <= |cols|
  {
    if cols == [] then []
    else (if cols[0] in excluded then [] else [cols[0]]) + Without(cols[1..], excluded)
  }

  /** Filtering distributes over concatenation, so the kept columns stay in their original order. */
  lemma {:induction false} WithoutAppend(xs: seq<string>, ys: seq<string>, excluded: set<string>)
    ensures Without(xs + ys, excluded) == Without(xs, excluded) + Without(ys, excluded)
  {
    if xs != [] {
      assert (xs + ys)[1..] == xs[1..] + ys;
      WithoutAppend(xs[1..], ys, excluded);
    } else {
      assert xs + ys == ys;
    }
  }

  /** Columns none of which is excluded are all kept, in order. */
  lemma {:induction false} WithoutNone(cols: seq<string>, excluded: set<string>)
    requires forall k :: 0 <= k < |cols| ==> cols[k] !in excluded
    ensures Without(cols, excluded) == cols
  {
    if cols != [] {
      WithoutNone(cols[1..], excluded);
    }
  }

  const InternalColumns: set<string> := {MergeKeyColumn, IndexColumn, StatusColumn}

  /** The base columns that are compared, in base order. */
  function DiffColumns(baseCols: seq<string>): (cols: seq<string>)
    ensures forall col :: col in cols <==> col in baseCols && !IsInternal(col)
  {
    Without(baseCols, InternalColumns)
  }

  /**
   * A cell is changed when exactly one side is empty or both are present and
   * differ; two empty cells are equal.
   */
  function CellChanged(v1: Value, v2: Value): (changed: bool)
    ensures changed <==> v1 != v2
  {
    if v1.Missing? && v2.Missing? then false
    else v1.Missing? || v2.Missing? || v1 != v2
  }

  /** How one side of a changed cell is written. */
  function Shown(v: Value): string {
    if v.Missing? then EmptyMark else Stringify(v)
  }

  /** The text a changed cell is rewritten to: "{old}->{new}". */
  function ChangeText(v1: Value, v2: Value): Value {
    Str(Shown(v1) + "->" + Shown(v2))
  }

  /** The first of `cols`, in order, that `present` lacks. */
  function FirstAbsent(cols: seq<string>, present: seq<string>): (r: Option<string>)
    ensures r.None? <==> forall col :: col in cols ==> col in present
    ensures r.Some? ==> exists k :: 0 <= k < |cols| && cols[k] == r.value && r.value !in present &&
                                    forall p :: 0 <= p < k ==> cols[p] in present
    decreases |cols|
  {
    if cols == [] then None
    else
      var prev := FirstAbsent(cols[..|cols| - 1], present);
      if prev.Some? then prev
      else if cols[|cols| - 1] !in present then Some(cols[|cols| - 1])
      else None
  }

  /**
   * The outcome of comparing a base row with its counterpart: either a column
   * the compare row lacks (reading it raises a KeyError), or the per-column
   * changed flags, whether any is set, and the marked row.
   */
  datatype PairDiff =
    | AbsentInCompare(column: string)
    | Compared(hasChanges: bool, cellChanges: map<string, bool>, row: Row)

  /**
   * Compares `base` and `compare` on `cols`, one column after the other,
   * rewriting the changed cells of `marked`. `present` is the compare table's
   * column list.
   */
  function DiffCells(base: Row, compare: Row, present: seq<string>, cols: seq<string>, marked: Row): PairDiff
    decreases |cols|
  {
    if cols == [] then Compared(false, map[], marked)
    else
      match DiffCells(base, compare, present, cols[..|cols| - 1], marked)
      case AbsentInCompare(col) => AbsentInCompare(col)
      case Compared(has, changes, row) =>
        var col := cols[|cols| - 1];
        if col !in present then AbsentInCompare(col)
        else
          var v1, v2 := Cell(base, col), Cell(compare, col);
          if CellChanged(v1, v2) then Compared(true, changes[col := true], row[col := ChangeText(v1, v2)])
          else Compared(has, changes[col := false], row)
  }

  /** The comparison fails exactly at the first column the compare table lacks. */
  lemma {:induction false} DiffCellsFailsAtFirstAbsent(base: Row, compare: Row, present: seq<string>, cols: seq<string>, marked: Row)
    ensures DiffCells(base, compare, present, cols, marked).AbsentInCompare?
        <==> FirstAbsent(cols, present).Some?
    ensures DiffCells(base, compare, present, cols, marked).AbsentInCompare? ==>
      DiffCells(base, compare, present, cols, marked).column == FirstAbsent(cols, present).value
  {
    if cols != [] {
      DiffCellsFailsAtFirstAbsent(base, compare, present, cols[..|cols| - 1], marked);
    }
  }

  /** Once a prefix of the columns fails, the whole comparison fails at the same column. */
  lemma {:induction false} DiffCellsStops(base: Row, compare: Row, present: seq<string>, cols: seq<string>, k: nat, marked: Row)
    requires k <= |cols|
    requires DiffCells(base, compare, present, cols[..k], marked).AbsentInCompare?
    ensures DiffCells(base, compare, present, cols, marked) == DiffCells(base, compare, present, cols[..k], marked)
    decreases |cols| - k
  {
    if k < |cols| {
      var init := cols[..|cols| - 1];
      assert init[..k] == cols[..k];
      DiffCellsStops(base, compare, present, init, k, marked);
    } else {
      assert cols[..k] == cols;
    }
  }

  /** A non-empty column list is its prefix followed by its last column. */
  lemma SplitLast(cols: seq<string>)
    requires cols != []
    ensures forall col :: col in cols <==> col in cols[..|cols| - 1] || col == cols[|cols| - 1]
  {
    assert cols == cols[..|cols| - 1] + [cols[|cols| - 1]];
  }

  /** A completed comparison has a flag for exactly the compared columns. */
  lemma {:induction false} DiffCellsFlagsCols(base: Row, compare: Row, present: seq<string>, cols: seq<string>, marked: Row)
    requires DiffCells(base, compare, present, cols, marked).Compared?
    ensures forall col :: col in DiffCells(base, compare, present, cols, marked).cellChanges <==> col in cols
  {
    if cols != [] {
      SplitLast(cols);
      DiffCellsFlagsCols(base, compare, present, cols[..|cols| - 1], marked);
    }
  }

  /** A compared column is flagged exactly when its two cells differ. */
  lemma {:induction false} DiffCellsFlags(base: Row, compare: Row, present: seq<string>, cols: seq<string>, marked: Row)
    requires DiffCells(base, compare, present, cols, marked).Compared?
    ensures var d := DiffCells(base, compare, present, cols, marked);
      forall col :: col in cols ==>
        (col in d.cellChanges && d.cellChanges[col] == CellChanged(Cell(base, col), Cell(compare, col)))
  {
    if cols != [] {
      SplitLast(cols);
      DiffCellsFlags(base, compare, present, cols[..|cols| - 1], marked);
    }
  }

  /** A changed cell reads "old->new"; every other cell keeps its marked value. */
  lemma {:induction false} DiffCellsRow(base: Row, compare: Row, present: seq<string>, cols: seq<string>, marked: Row)
    requires DiffCells(base, compare, present, cols, marked).Compared?
    ensures forall col ::
      Cell(DiffCells(base, compare, present, cols, marked).row, col) ==
        if col in cols && CellChanged(Cell(base, col), Cell(compare, col))
        then ChangeText(Cell(base, col), Cell(compare, col))
        else Cell(marked, col)
  {
    if cols != [] {
      SplitLast(cols);
      DiffCellsRow(base, compare, present, cols[..|cols| - 1], marked);
    }
  }

  /** The row has changes exactly when some compared column differs. */
  lemma {:induction false} DiffCellsHasChanges(base: Row, compare: Row, present: seq<string>, cols: seq<string>, marked: Row)
    requires DiffCells(base, compare, present, cols, marked).Compared?
    ensures DiffCells(base, compare, present, cols, marked).hasChanges <==>
      exists col :: col in cols && CellChanged(Cell(base, col), Cell(compare, col))
  {
    if cols != [] {
      SplitLast(cols);
      DiffCellsHasChanges(base, compare, present, cols[..|cols| - 1], marked);
    }
  }

  /**
   * When every column is present: a column is flagged exactly when its cells
   * differ, a changed cell reads "old->new", every other cell of the marked
   * row is left as it was, and the row has changes exactly when some column
   * is flagged.
   */
  lemma DiffCellsCompares(base: Row, compare: Row, present: seq<string>, cols: seq<string>, marked: Row)
    requires DiffCells(base, compare, present, cols, marked).Compared?
    ensures var d := DiffCells(base, compare, present, cols, marked);
      && (forall col :: col in d.cellChanges <==> col in cols)
      && (forall col :: col in cols ==> d.cellChanges[col] == CellChanged(Cell(base, col), Cell(compare, col)))
      && (forall col :: Cell(d.row, col) ==
            if col in cols && CellChanged(Cell(base, col), Cell(compare, col))
            then ChangeText(Cell(base, col), Cell(compare, col))
            else Cell(marked, col))
      && (d.hasChanges <==> exists col :: col in cols && CellChanged(Cell(base, col), Cell(compare, col)))
  {
    DiffCellsFlagsCols(base, compare, present, cols, marked);
    DiffCellsFlags(base, compare, present, cols, marked);
    DiffCellsRow(base, compare, present, cols, marked);
    DiffCellsHasChanges(base, compare, present, cols, marked);
  }

  /**
   * The column loop of the comparison: walks `cols` in order, stops with the
   * first column the compare row lacks, flags each compared column and writes
   * "old->new" into the marked row for each changed one.
   */
  method DiffRow(base: Row, compare: Row, present: seq<string>, cols: seq<string>, marked: Row)
    returns (d: PairDiff)
    ensures d == DiffCells(base, compare, present, cols, marked)
  {
    var hasChanges := false;
    var cellChanges: map<string, bool> := map[];
    var row := marked;
    for k := 0 to |cols|
      invariant DiffCells(base, compare, present, cols[..k], marked) == Compared(hasChanges, cellChanges, row)
    {
      assert cols[..k + 1][..k] == cols[..k];
      var col := cols[k];
      if col !in present {
        assert cols[..k + 1] == cols[..k] + [col];
        d := AbsentInCompare(col);
        assert d == DiffCells(base, compare, present, cols[..k + 1], marked);
        DiffCellsStops(base, compare, present, cols, k + 1, marked);
        return;
      }
      var v1, v2 := Cell(base, col), Cell(compare, col);
      if v1.Missing? && v2.Missing? {
        cellChanges := cellChanges[col := false];
      } else if v1.Missing? || v2.Missing? || v1 != v2 {
        hasChanges := true;
        cellChanges := cellChanges[col := true];
        row := row[col := Str(Shown(v1) + "->" + Shown(v2))];
      } else {
        cellChanges := cellChanges[col := false];
      }
    }
    assert cols[..|cols|] == cols;
    d := Compared(hasChanges, cellChanges, row);
  }
}
