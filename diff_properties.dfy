/**
 * What the annotated table of `compare_and_mark_changes` promises: when
 * there is a result at all, its shape, the status of every row, the content
 * of every cell, the change map, and the behaviour on identical tables and
 * under the positional fallback.
 */
module DiffProperties {
  import opened Values
  import opened Wrappers
  import opened Tables
  import opened RowMatch
  import opened CellDiff
  import opened Assembly

  /** The effective key columns for a pair of tables. */
  function KeysFor(b: Table, c: Table, requested: seq<string>): seq<string> {
    ResolveKeys(requested, b.columns, c.columns)
  }

  /** The comparison of two present tables reaches the annotated table. */
  predicate Annotates(b: Table, c: Table, requested: seq<string>) {
    CompareAndMark(Some(b), Some(c), requested).Marked?
  }

  /** An absent or empty input gives no result; present non-empty inputs always give one or a KeyError. */
  lemma NoResultExactlyOnEmpty(base: Option<Table>, compare: Option<Table>, requested: seq<string>)
    ensures CompareAndMark(base, compare, requested) == NoResult <==>
      base.None? || compare.None? || IsEmpty(base.value) || IsEmpty(compare.value)
  {
  }

  /**
   * A KeyError arises exactly when some key is common to both tables and a
   * compared base column is missing from the compare table; it names the
   * first such column in base order.
   */
  lemma KeyErrorExactly(b: Table, c: Table, requested: seq<string>)
    requires !IsEmpty(b) && !IsEmpty(c)
    ensures CompareAndMark(Some(b), Some(c), requested).KeyError? <==>
      CommonKeys(b, c, KeysFor(b, c, requested)) != {} &&
      exists col :: col in b.columns && !IsInternal(col) && col !in c.columns
    ensures CompareAndMark(Some(b), Some(c), requested).KeyError? ==>
      var col := CompareAndMark(Some(b), Some(c), requested).column;
      col in b.columns && !IsInternal(col) && col !in c.columns
    ensures CompareAndMark(Some(b), Some(c), requested).KeyError? ==>
      CompareAndMark(Some(b), Some(c), requested).column == FirstAbsent(DiffColumns(b.columns), c.columns).value
  {
    var absent := FirstAbsent(DiffColumns(b.columns), c.columns);
    if absent.Some? {
      var col := absent.value;
      assert col in DiffColumns(b.columns);
    }
  }

  /** The annotated rows start with the base rows. */
  lemma MarkedRowsFront(b: Table, c: Table, keys: seq<string>, i: nat)
    requires i < |b.rows|
    ensures |MarkedRows(b, c, keys)| == |b.rows| + |AddedRows(b, c, keys)|
    ensures MarkedRows(b, c, keys)[i] == MarkedBaseRow(b, c, keys, i)
  {
    var front := seq(|b.rows|, i requires 0 <= i < |b.rows| => MarkedBaseRow(b, c, keys, i));
    var back := AddedRowsOf(c, AddedRows(b, c, keys));
    assert MarkedRows(b, c, keys) == front + back;
    assert (front + back)[i] == front[i];
  }

  /** The annotated rows end with the added rows. */
  lemma MarkedRowsBack(b: Table, c: Table, keys: seq<string>, t: nat)
    requires t < |AddedRows(b, c, keys)|
    ensures |MarkedRows(b, c, keys)| == |b.rows| + |AddedRows(b, c, keys)|
    ensures MarkedRows(b, c, keys)[|b.rows| + t] == AddedRow(c, AddedRows(b, c, keys)[t])
  {
    var front := seq(|b.rows|, i requires 0 <= i < |b.rows| => MarkedBaseRow(b, c, keys, i));
    var back := AddedRowsOf(c, AddedRows(b, c, keys));
    assert MarkedRows(b, c, keys) == front + back;
    assert (front + back)[|b.rows| + t] == back[t];
  }

  /** The annotated table and change map of a comparison that produced them. */
  lemma MarkedOutcome(b: Table, c: Table, requested: seq<string>)
    requires !IsEmpty(b) && !IsEmpty(c) && Annotates(b, c, requested)
    ensures var r := CompareAndMark(Some(b), Some(c), requested);
      var keys := KeysFor(b, c, requested);
      && r.table.columns == OutputColumns(b.columns, c.columns, |AddedRows(b, c, keys)| > 0)
      && r.table.rows == ProjectAll(MarkedRows(b, c, keys), r.table.columns)
      && r.changes == Changes(b, c, keys)
  {
  }

  /** Whenever there is an annotated table, its first column is the status column. */
  lemma MarkedStatusFirst(base: Option<Table>, compare: Option<Table>, requested: seq<string>)
    requires CompareAndMark(base, compare, requested).Marked?
    ensures var cols := CompareAndMark(base, compare, requested).table.columns;
      |cols| > 0 && cols[0] == StatusColumn
  {
    MarkedOutcome(base.value, compare.value, requested);
  }

  /** Added row `t` sits after the base rows, restricted to the output columns. */
  lemma AddedRowAt(b: Table, c: Table, keys: seq<string>, cols: seq<string>, rows: seq<Row>, t: nat)
    requires rows == ProjectAll(MarkedRows(b, c, keys), cols)
    requires t < |AddedRows(b, c, keys)|
    ensures AddedRows(b, c, keys)[t] < |c.rows|
    ensures |b.rows| + t < |rows|
    ensures rows[|b.rows| + t] == Project(AddedRow(c, AddedRows(b, c, keys)[t]), cols)
  {
    var k := |b.rows| + t;
    var marked := MarkedRows(b, c, keys);
    MarkedRowsBack(b, c, keys, t);
    assert marked[k] == AddedRow(c, AddedRows(b, c, keys)[t]);
    assert rows[k] == Project(marked[k], cols);
  }

  /** An entry of the change map: a modified row and the flags its comparison set. */
  lemma ChangesAt(b: Table, c: Table, keys: seq<string>, changes: ChangeMap, i: nat)
    requires changes == Changes(b, c, keys)
    ensures i in changes <==> i < |b.rows| && IsModified(b, c, keys, i)
    ensures i in changes ==> changes[i] == PairOutcome(b, c, keys, i).cellChanges
  {
  }

  /** Base row `i` keeps its position, restricted to the output columns. */
  lemma BaseRowAt(b: Table, c: Table, keys: seq<string>, cols: seq<string>, rows: seq<Row>, i: nat)
    requires rows == ProjectAll(MarkedRows(b, c, keys), cols)
    requires i < |b.rows|
    ensures i < |rows|
    ensures rows[i] == Project(MarkedBaseRow(b, c, keys, i), cols)
  {
    var marked := MarkedRows(b, c, keys);
    MarkedRowsFront(b, c, keys, i);
    assert marked[i] == MarkedBaseRow(b, c, keys, i);
    assert rows[i] == Project(marked[i], cols);
  }

  /** Annotated row `|b.rows| + t` is added row `t`, restricted to the output columns. */
  lemma AnnotatedAddedRowAt(b: Table, c: Table, requested: seq<string>, t: nat)
    requires !IsEmpty(b) && !IsEmpty(c) && Annotates(b, c, requested)
    requires t < |AddedRows(b, c, KeysFor(b, c, requested))|
    ensures var r := CompareAndMark(Some(b), Some(c), requested);
      var j := AddedRows(b, c, KeysFor(b, c, requested))[t];
      && StatusColumn in r.table.columns
      && j < |c.rows|
      && |b.rows| + t < |r.table.rows|
      && r.table.rows[|b.rows| + t] == Project(AddedRow(c, j), r.table.columns)
  {
    var r := CompareAndMark(Some(b), Some(c), requested);
    MarkedOutcome(b, c, requested);
    AddedRowAt(b, c, KeysFor(b, c, requested), r.table.columns, r.table.rows, t);
  }

  /**
   * Shape of the annotated table: the base rows followed by the added rows;
   * the status column first and only there; the internal columns gone; every
   * row defined on exactly the table's columns.
   */
  lemma {:induction false} AnnotatedShape(b: Table, c: Table, requested: seq<string>)
    requires !IsEmpty(b) && !IsEmpty(c) && Annotates(b, c, requested)
    ensures var t := CompareAndMark(Some(b), Some(c), requested).table;
      && |t.rows| == |b.rows| + |AddedRows(b, c, KeysFor(b, c, requested))|
      && t.columns[0] == StatusColumn && StatusColumn !in t.columns[1..]
      && MergeKeyColumn !in t.columns && IndexColumn !in t.columns
      && (forall k :: 0 <= k < |t.rows| ==> forall col :: col in t.rows[k] <==> col in t.columns)
  {
    var keys := KeysFor(b, c, requested);
    assert |MarkedRows(b, c, keys)| == |b.rows| + |AddedRows(b, c, keys)|;
  }

  /** The status cell of every row of `MarkedBaseRow`. */
  lemma MarkedBaseStatus(b: Table, c: Table, keys: seq<string>, i: nat)
    requires i < |b.rows|
    ensures Cell(MarkedBaseRow(b, c, keys, i), StatusColumn) ==
      if !Matched(b, c, keys, i) then StatusCell(Deleted)
      else if IsModified(b, c, keys, i) then StatusCell(Modified)
      else StatusCell(Unchanged)
  {
  }

  /**
   * Status of base row `i` in the annotated table: "删除" exactly when no
   * compare row has its key, "修改" exactly when it has a change-map entry,
   * "不变" otherwise; only the first base row of a key can be modified.
   */
  lemma {:induction false} BaseRowStatus(b: Table, c: Table, requested: seq<string>, i: nat)
    requires !IsEmpty(b) && !IsEmpty(c) && Annotates(b, c, requested) && i < |b.rows|
    ensures var r := CompareAndMark(Some(b), Some(c), requested);
      var keys := KeysFor(b, c, requested);
      var status := r.table.rows[i][StatusColumn];
      && (status == StatusCell(Deleted) <==> RowKey(b, i, keys) !in RowKeys(c, keys))
      && (status == StatusCell(Modified) <==> i in r.changes)
      && (status == StatusCell(Unchanged) <==> RowKey(b, i, keys) in RowKeys(c, keys) && i !in r.changes)
      && (i in r.changes ==> IsFirstOfKey(b, keys, i))
  {
    var keys := KeysFor(b, c, requested);
    var r := CompareAndMark(Some(b), Some(c), requested);
    var cols := r.table.columns;
    MarkedOutcome(b, c, requested);
    BaseRowAt(b, c, keys, cols, r.table.rows, i);
    MarkedBaseStatus(b, c, keys, i);
    assert r.table.rows[i][StatusColumn] == Cell(MarkedBaseRow(b, c, keys, i), StatusColumn);
    assert i in r.changes <==> IsModified(b, c, keys, i);
    forall s: Status, t: Status | StatusCell(s) == StatusCell(t) ensures s == t {
      StatusCellInjective(s, t);
    }
  }

  /**
   * Cells of a base row: a compared column holds "old->new" exactly where the
   * change map flags it, and the base value everywhere else; the flag is set
   * exactly when the base cell and the cell of the first compare row with
   * the same key differ; a modified row has at least one flagged column.
   */
  lemma {:induction false} BaseRowCells(b: Table, c: Table, requested: seq<string>, i: nat, col: string)
    requires !IsEmpty(b) && !IsEmpty(c) && Annotates(b, c, requested) && i < |b.rows|
    requires col in b.columns && !IsInternal(col)
    ensures var r := CompareAndMark(Some(b), Some(c), requested);
      var keys := KeysFor(b, c, requested);
      && col in r.table.columns
      && (i in r.changes ==>
            var j := Counterpart(b, c, keys, i);
            && col in r.changes[i]
            && (r.changes[i][col] <==> Get(b, i, col) != Get(c, j, col))
            && r.table.rows[i][col] ==
                 (if r.changes[i][col] then ChangeText(Get(b, i, col), Get(c, j, col)) else Get(b, i, col))
            && exists x :: x in r.changes[i] && r.changes[i][x])
      && (i !in r.changes ==> r.table.rows[i][col] == Get(b, i, col))
  {
    var keys := KeysFor(b, c, requested);
    var r := CompareAndMark(Some(b), Some(c), requested);
    var cols := r.table.columns;
    var dcols := DiffColumns(b.columns);
    assert col in dcols;
    MarkedOutcome(b, c, requested);
    BaseRowAt(b, c, keys, cols, r.table.rows, i);
    assert r.table.rows[i][col] == Cell(MarkedBaseRow(b, c, keys, i), col);
    if Matched(b, c, keys, i) {
      var j := Counterpart(b, c, keys, i);
      var d := PairOutcome(b, c, keys, i);
      if d.Compared? {
        DiffCellsCompares(Normalize(b, i), Normalize(c, j), c.columns, dcols, InitialRow(b, i));
        ChangesAt(b, c, keys, r.changes, i);
        if i in r.changes {
          var x :| x in dcols && CellChanged(Cell(Normalize(b, i), x), Cell(Normalize(c, j), x));
          assert x in r.changes[i] && r.changes[i][x];
        }
      }
    }
  }

  /**
   * When there is an annotated table, no comparison of a matched base row
   * raised: every compared column exists in the compare table.
   */
  lemma MatchedPairCompared(b: Table, c: Table, requested: seq<string>, i: nat)
    requires !IsEmpty(b) && !IsEmpty(c) && Annotates(b, c, requested) && i < |b.rows|
    requires Matched(b, c, KeysFor(b, c, requested), i)
    ensures PairOutcome(b, c, KeysFor(b, c, requested), i).Compared?
  {
    var keys := KeysFor(b, c, requested);
    assert RowKeys(b, keys)[i] in CommonKeys(b, c, keys);
    KeyErrorExactly(b, c, requested);
    var j := Counterpart(b, c, keys, i);
    DiffCellsFailsAtFirstAbsent(Normalize(b, i), Normalize(c, j), c.columns, DiffColumns(b.columns), InitialRow(b, i));
  }

  /**
   * The converse of the change map's flags: the first base row of a common
   * key whose compared cell differs from its counterpart's is "修改", with an
   * entry that flags that column.
   */
  lemma {:induction false} ChangedCellMarksModified(b: Table, c: Table, requested: seq<string>, i: nat, col: string)
    requires !IsEmpty(b) && !IsEmpty(c) && Annotates(b, c, requested) && i < |b.rows|
    requires col in b.columns && !IsInternal(col)
    requires var keys := KeysFor(b, c, requested);
      Matched(b, c, keys, i) && IsFirstOfKey(b, keys, i) &&
      Get(b, i, col) != Get(c, Counterpart(b, c, keys, i), col)
    ensures var r := CompareAndMark(Some(b), Some(c), requested);
      && i in r.changes && col in r.changes[i] && r.changes[i][col]
      && r.table.rows[i][StatusColumn] == StatusCell(Modified)
  {
    var keys := KeysFor(b, c, requested);
    var r := CompareAndMark(Some(b), Some(c), requested);
    var j := Counterpart(b, c, keys, i);
    MatchedPairCompared(b, c, requested, i);
    DiffCellsCompares(Normalize(b, i), Normalize(c, j), c.columns, DiffColumns(b.columns), InitialRow(b, i));
    assert CellChanged(Cell(Normalize(b, i), col), Cell(Normalize(c, j), col));
    assert IsModified(b, c, keys, i);
    MarkedOutcome(b, c, requested);
    ChangesAt(b, c, keys, r.changes, i);
    BaseRowStatus(b, c, requested, i);
  }

  /** A change-map entry flags exactly the compared columns of the base table. */
  lemma ChangeMapDomain(b: Table, c: Table, requested: seq<string>, i: nat)
    requires !IsEmpty(b) && !IsEmpty(c) && Annotates(b, c, requested)
    requires i in CompareAndMark(Some(b), Some(c), requested).changes
    ensures forall col :: col in CompareAndMark(Some(b), Some(c), requested).changes[i] <==>
      col in b.columns && !IsInternal(col)
  {
    var keys := KeysFor(b, c, requested);
    var j := Counterpart(b, c, keys, i);
    DiffCellsCompares(Normalize(b, i), Normalize(c, j), c.columns, DiffColumns(b.columns), InitialRow(b, i));
  }

  /**
   * An added row: status "新增", and under every other column the compare
   * row's own cell (empty under a base column the compare table lacks). Its
   * compare row has a key that no base row has, and the added rows keep
   * compare order.
   */
  lemma {:induction false} AddedRowCells(b: Table, c: Table, requested: seq<string>, t: nat)
    requires !IsEmpty(b) && !IsEmpty(c) && Annotates(b, c, requested)
    requires t < |AddedRows(b, c, KeysFor(b, c, requested))|
    ensures var r := CompareAndMark(Some(b), Some(c), requested);
      var keys := KeysFor(b, c, requested);
      var j := AddedRows(b, c, keys)[t];
      && j < |c.rows| && RowKey(c, j, keys) !in RowKeys(b, keys)
      && StatusColumn in r.table.columns
      && |b.rows| + t < |r.table.rows|
      && var row := r.table.rows[|b.rows| + t];
         && (forall col :: col in row <==> col in r.table.columns)
         && row[StatusColumn] == StatusCell(Added)
         && (forall col :: col in r.table.columns && col != StatusColumn ==> row[col] == Get(c, j, col))
  {
    var keys := KeysFor(b, c, requested);
    var j := AddedRows(b, c, keys)[t];
    assert j < |c.rows| && RowKeys(c, keys)[j] !in KeySet(RowKeys(b, keys));
    AnnotatedAddedRowAt(b, c, requested, t);
    AddedRowProjected(c, j, CompareAndMark(Some(b), Some(c), requested).table.columns);
  }

  /** An added row restricted to the output columns: status "新增" and the compare row's own cells. */
  lemma AddedRowProjected(c: Table, j: nat, cols: seq<string>)
    requires j < |c.rows|
    ensures var row := Project(AddedRow(c, j), cols);
      && (forall col :: col in row <==> col in cols)
      && (StatusColumn in cols ==> row[StatusColumn] == StatusCell(Added))
      && (forall col :: col in cols && col != StatusColumn ==> row[col] == Get(c, j, col))
  {
  }

  /** Every compare row whose key no base row has is appended, and no other. */
  lemma AddedRowsExactly(b: Table, c: Table, requested: seq<string>, j: nat)
    requires j < |c.rows|
    ensures var keys := KeysFor(b, c, requested);
      j in AddedRows(b, c, keys) <==> RowKey(c, j, keys) !in RowKeys(b, keys)
  {
    ComparePartition(b, c, KeysFor(b, c, requested), j);
  }

  /** Comparing a table with itself modifies no row: no KeyError is possible and no cell differs. */
  lemma SelfComparisonUnmodified(t: Table, keys: seq<string>, i: nat)
    requires i < |t.rows|
    ensures FirstAbsent(DiffColumns(t.columns), t.columns).None?
    ensures Matched(t, t, keys, i)
    ensures !IsModified(t, t, keys, i)
  {
    assert RowKeys(t, keys)[i] in RowKeys(t, keys);
    if IsFirstOfKey(t, keys, i) {
      assert Counterpart(t, t, keys, i) == i;
      var row := Normalize(t, i);
      DiffCellsFailsAtFirstAbsent(row, row, t.columns, DiffColumns(t.columns), InitialRow(t, i));
      DiffCellsCompares(row, row, t.columns, DiffColumns(t.columns), InitialRow(t, i));
    }
  }

  /** Comparing a non-empty table with itself annotates it and adds no row. */
  lemma IdenticalMarked(t: Table, requested: seq<string>)
    requires !IsEmpty(t)
    ensures AddedRows(t, t, KeysFor(t, t, requested)) == []
    ensures CompareAndMark(Some(t), Some(t), requested).Marked?
  {
    var keys := KeysFor(t, t, requested);
    var ks := RowKeys(t, keys);
    AllMatched(ks, KeySet(ks));
    SelfComparisonUnmodified(t, keys, 0);
  }

  /** Comparing a non-empty table with itself records no change. */
  lemma IdenticalNoChanges(t: Table, requested: seq<string>)
    requires !IsEmpty(t)
    ensures CompareAndMark(Some(t), Some(t), requested).Marked?
    ensures CompareAndMark(Some(t), Some(t), requested).changes == map[]
  {
    var keys := KeysFor(t, t, requested);
    IdenticalMarked(t, requested);
    MarkedOutcome(t, t, requested);
    var changes := CompareAndMark(Some(t), Some(t), requested).changes;
    forall i: nat
      ensures i !in changes
    {
      ChangesAt(t, t, keys, changes, i);
      if i < |t.rows| {
        SelfComparisonUnmodified(t, keys, i);
      }
    }
  }

  /** Comparing a non-empty table with itself annotates it, adds no row and records no change. */
  lemma IdenticalOutcome(t: Table, requested: seq<string>)
    requires !IsEmpty(t)
    ensures var r := CompareAndMark(Some(t), Some(t), requested);
      && AddedRows(t, t, KeysFor(t, t, requested)) == []
      && r.Marked?
      && r.changes == map[]
      && r.table.columns == [StatusColumn] + DiffColumns(t.columns)
      && |r.table.rows| == |t.rows|
  {
    var keys := KeysFor(t, t, requested);
    IdenticalMarked(t, requested);
    IdenticalNoChanges(t, requested);
    MarkedOutcome(t, t, requested);
    assert |MarkedRows(t, t, keys)| == |t.rows| + 0;
  }

  /** Row `i` of a table compared with itself is the row as first copied, status "不变". */
  lemma IdenticalRow(t: Table, requested: seq<string>, i: nat)
    requires !IsEmpty(t) && i < |t.rows|
    ensures var r := CompareAndMark(Some(t), Some(t), requested);
      && r.Marked?
      && i < |r.table.rows|
      && StatusColumn in r.table.rows[i] && r.table.rows[i][StatusColumn] == StatusCell(Unchanged)
      && (forall col :: col in DiffColumns(t.columns) ==>
            col in r.table.rows[i] && r.table.rows[i][col] == Get(t, i, col))
  {
    var keys := KeysFor(t, t, requested);
    var r := CompareAndMark(Some(t), Some(t), requested);
    IdenticalOutcome(t, requested);
    MarkedOutcome(t, t, requested);
    SelfComparisonUnmodified(t, keys, i);
    BaseRowAt(t, t, keys, r.table.columns, r.table.rows, i);
    InitialRowProjected(t, i, r.table.columns);
  }

  /** A row as first copied, restricted to columns holding the status column and compared columns. */
  lemma InitialRowProjected(t: Table, i: nat, cols: seq<string>)
    requires i < |t.rows| && cols == [StatusColumn] + DiffColumns(t.columns)
    ensures var row := Project(InitialRow(t, i), cols);
      && StatusColumn in row && row[StatusColumn] == StatusCell(Unchanged)
      && (forall col :: col in DiffColumns(t.columns) ==> col in row && row[col] == Get(t, i, col))
  {
    var row := Project(InitialRow(t, i), cols);
    forall col | col in DiffColumns(t.columns)
      ensures col in row && row[col] == Get(t, i, col)
    {
      assert col in cols && col != StatusColumn;
      assert row[col] == Cell(InitialRow(t, i), col) == Cell(Normalize(t, i), col);
    }
  }

  /**
   * Comparing a non-empty table with itself, whatever the key: every row is
   * kept in order with status "不变" and its own cells, no row is added, no
   * compare-only column appears, and the change map is empty.
   */
  lemma IdenticalTablesUnchanged(t: Table, requested: seq<string>)
    requires !IsEmpty(t)
    ensures var r := CompareAndMark(Some(t), Some(t), requested);
      && r.Marked?
      && r.changes == map[]
      && r.table.columns == [StatusColumn] + DiffColumns(t.columns)
      && |r.table.rows| == |t.rows|
      && (forall i :: 0 <= i < |t.rows| ==> r.table.rows[i][StatusColumn] == StatusCell(Unchanged))
      && (forall i, col :: 0 <= i < |t.rows| && col in DiffColumns(t.columns) ==>
            r.table.rows[i][col] == Get(t, i, col))
  {
    IdenticalOutcome(t, requested);
    forall i | 0 <= i < |t.rows| {
      IdenticalRow(t, requested, i);
    }
  }

  /**
   * The positional fallback (no requested key column exists in both tables):
   * base row `i` is "删除" exactly when the compare table has fewer than
   * `i + 1` rows, and the compare rows past the end of the base table are
   * appended (see `RowMatch.PositionalMatching` for the counterparts).
   */
  lemma {:induction false} PositionalFallback(b: Table, c: Table, requested: seq<string>)
    requires !IsEmpty(b) && !IsEmpty(c) && Annotates(b, c, requested)
    requires requested != [] && forall col :: col in requested ==> !Shared(col, b.columns, c.columns)
    ensures KeysFor(b, c, requested) == [IndexColumn]
    ensures var r := CompareAndMark(Some(b), Some(c), requested);
      && |r.table.rows| == (if |c.rows| > |b.rows| then |c.rows| else |b.rows|)
      && (forall i :: 0 <= i < |b.rows| ==>
            && i < |r.table.rows| && StatusColumn in r.table.rows[i]
            && (r.table.rows[i][StatusColumn] == StatusCell(Deleted) <==> i >= |c.rows|))
  {
    var keys := KeysFor(b, c, requested);
    assert keys == [IndexColumn];
    PositionalMatching(b, c);
    AnnotatedShape(b, c, requested);
    var rows := CompareAndMark(Some(b), Some(c), requested).table.rows;
    forall i | 0 <= i < |b.rows|
      ensures i < |rows| && StatusColumn in rows[i]
      ensures rows[i][StatusColumn] == StatusCell(Deleted) <==> i >= |c.rows|
    {
      PositionalDeleted(b, c, requested, i);
    }
  }

  /** Under positional keys, base row `i` is deleted exactly when the compare table has no row `i`. */
  lemma PositionalDeleted(b: Table, c: Table, requested: seq<string>, i: nat)
    requires !IsEmpty(b) && !IsEmpty(c) && Annotates(b, c, requested) && i < |b.rows|
    requires KeysFor(b, c, requested) == [IndexColumn]
    ensures var rows := CompareAndMark(Some(b), Some(c), requested).table.rows;
      && i < |rows| && StatusColumn in rows[i]
      && (rows[i][StatusColumn] == StatusCell(Deleted) <==> i >= |c.rows|)
  {
    var keys := KeysFor(b, c, requested);
    BaseRowStatus(b, c, requested, i);
    PositionalMatching(b, c);
    assert Matched(b, c, keys, i) <==> RowKey(b, i, keys) in RowKeys(c, keys);
  }
}
