/**
 * `compare_and_mark_changes` as a whole: the annotated table and the map of
 * changed cells, first as a specification (`CompareAndMark`) and then as the
 * step-by-step procedure of the source (`CompareAndMarkChanges`), proved to
 * agree with it.
 */
module Assembly {
  import opened Values
  import opened Wrappers
  import opened Tables
  import opened RowMatch
  import opened CellDiff

  /** For each modified base row (by position), the changed flag of every compared column. */
  type ChangeMap = map<nat, map<string, bool>>

  /**
   * What a comparison yields: nothing (an input is absent or empty), a
   * KeyError on a base column the compare table lacks, or the annotated table
   * with its change map.
   */
  datatype Outcome =
    | NoResult
    | KeyError(column: string)
    | Marked(table: Table, changes: ChangeMap)

  /** Columns of the compare table that the annotated table appends after the base columns. */
  function CompareOnlyColumns(baseCols: seq<string>, compareCols: seq<string>): (cols: seq<string>)
    ensures forall col :: col in cols <==> col in compareCols && col !in baseCols && !IsInternal(col)
  {
    Without(compareCols, InternalColumns + set col | col in baseCols)
  }

  /**
   * Columns of the annotated table: the status column, the base columns, and,
   * when rows were appended, the columns only the compare table has.
   */
  function OutputColumns(baseCols: seq<string>, compareCols: seq<string>, anyAdded: bool): (cols: seq<string>)
    ensures |cols| > 0 && cols[0] == StatusColumn
    ensures StatusColumn !in cols[1..]
    ensures MergeKeyColumn !in cols && IndexColumn !in cols
    ensures forall col :: col in baseCols && !IsInternal(col) ==> col in cols
    ensures forall col :: col in cols && col !in baseCols && col != StatusColumn ==> anyAdded && col in compareCols
    ensures anyAdded ==> forall col :: col in compareCols && col !in baseCols && !IsInternal(col) ==> col in cols
    ensures |cols| >= 1 + |DiffColumns(baseCols)|
    ensures cols[1..1 + |DiffColumns(baseCols)|] == DiffColumns(baseCols)
    ensures !anyAdded ==> |cols| == 1 + |DiffColumns(baseCols)|
    ensures anyAdded ==> cols[1 + |DiffColumns(baseCols)|..] == CompareOnlyColumns(baseCols, compareCols)
  {
    [StatusColumn] + DiffColumns(baseCols) + (if anyAdded then CompareOnlyColumns(baseCols, compareCols) else [])
  }

  /** A base row as first copied into the annotated table: status "不变". */
  function InitialRow(b: Table, i: nat): Row
    requires i < |b.rows|
  {
    Normalize(b, i)[StatusColumn := StatusCell(Unchanged)]
  }

  /** The comparison of base row `i` with its counterpart. */
  function PairOutcome(b: Table, c: Table, keys: seq<string>, i: nat): PairDiff
    requires i < |b.rows| && Matched(b, c, keys, i)
  {
    DiffCells(Normalize(b, i), Normalize(c, Counterpart(b, c, keys, i)), c.columns,
              DiffColumns(b.columns), InitialRow(b, i))
  }

  /** Base row `i` is modified: it is the first row of a common key and some cell changed. */
  predicate IsModified(b: Table, c: Table, keys: seq<string>, i: nat)
    requires i < |b.rows|
  {
    && Matched(b, c, keys, i)
    && IsFirstOfKey(b, keys, i)
    && PairOutcome(b, c, keys, i).Compared?
    && PairOutcome(b, c, keys, i).hasChanges
  }

  /** Row `i` of the annotated table, before the internal columns are dropped. */
  function MarkedBaseRow(b: Table, c: Table, keys: seq<string>, i: nat): Row
    requires i < |b.rows|
  {
    if !Matched(b, c, keys, i) then Normalize(b, i)[StatusColumn := StatusCell(Deleted)]
    else if IsModified(b, c, keys, i) then PairOutcome(b, c, keys, i).row[StatusColumn := StatusCell(Modified)]
    else InitialRow(b, i)
  }

  /** An appended compare row: its own cells and status "新增". */
  function AddedRow(c: Table, j: nat): Row
    requires j < |c.rows|
  {
    Normalize(c, j)[StatusColumn := StatusCell(Added)]
  }

  function AddedRowsOf(c: Table, idx: seq<nat>): (rows: seq<Row>)
    requires forall t :: 0 <= t < |idx| ==> idx[t] < |c.rows|
    ensures |rows| == |idx|
    ensures forall t :: 0 <= t < |idx| ==> rows[t] == AddedRow(c, idx[t])
  {
    seq(|idx|, t requires 0 <= t < |idx| => AddedRow(c, idx[t]))
  }

  /** All rows of the annotated table: the base rows in order, then the added rows in compare order. */
  function MarkedRows(b: Table, c: Table, keys: seq<string>): seq<Row> {
    seq(|b.rows|, i requires 0 <= i < |b.rows| => MarkedBaseRow(b, c, keys, i))
    + AddedRowsOf(c, AddedRows(b, c, keys))
  }

  /** The change map: one entry per modified base row. */
  function Changes(b: Table, c: Table, keys: seq<string>): ChangeMap {
    map i: nat | i < |b.rows| && IsModified(b, c, keys, i) :: PairOutcome(b, c, keys, i).cellChanges
  }

  function ProjectAll(rows: seq<Row>, cols: seq<string>): (r: seq<Row>)
    ensures |r| == |rows|
    ensures forall k :: 0 <= k < |rows| ==> r[k] == Project(rows[k], cols)
  {
    seq(|rows|, k requires 0 <= k < |rows| => Project(rows[k], cols))
  }

  /** The result of `compare_and_mark_changes(base, compare, requested)`. */
  function CompareAndMark(base: Option<Table>, compare: Option<Table>, requested: seq<string>): Outcome {
    if base.None? || compare.None? || IsEmpty(base.value) || IsEmpty(compare.value) then NoResult
    else
      var b, c := base.value, compare.value;
      var keys := ResolveKeys(requested, b.columns, c.columns);
      var absent := FirstAbsent(DiffColumns(b.columns), c.columns);
      if CommonKeys(b, c, keys) != {} && absent.Some? then KeyError(absent.value)
      else
        var cols := OutputColumns(b.columns, c.columns, |AddedRows(b, c, keys)| > 0);
        Marked(Table(cols, ProjectAll(MarkedRows(b, c, keys), cols)), Changes(b, c, keys))
  }

  // ---------------------------------------------------------------- the procedure

  /** The rows of the annotated table while the common keys are being diffed. */
  function RowDuringDiff(b: Table, c: Table, keys: seq<string>, remaining: set<string>, i: nat): Row
    requires i < |b.rows|
  {
    if RowKey(b, i, keys) in remaining then InitialRow(b, i) else MarkedBaseRow(b, c, keys, i)
  }

  /** Base row `p` at the next step of the diff loop, once `key` has been handled. */
  lemma {:induction false} DiffStep(b: Table, c: Table, keys: seq<string>, remaining: set<string>, key: string, p: nat)
    requires p < |b.rows| && key in remaining
    requires key in RowKeys(b, keys) && key in RowKeys(c, keys)
    ensures var i := FirstIndex(RowKeys(b, keys), key);
      RowDuringDiff(b, c, keys, remaining - {key}, p) ==
        if p == i then MarkedBaseRow(b, c, keys, i) else RowDuringDiff(b, c, keys, remaining, p)
  {
    var i := FirstIndex(RowKeys(b, keys), key);
    if p != i && RowKey(b, p, keys) == key {
      assert !IsFirstOfKey(b, keys, p);
    }
  }

  /** Only the first base row with `key` can be modified, so no other row with that key enters the change map. */
  lemma ModifiedIsFirst(b: Table, c: Table, keys: seq<string>, key: string, p: nat)
    requires p < |b.rows| && key in RowKeys(b, keys)
    requires p != FirstIndex(RowKeys(b, keys), key) && IsModified(b, c, keys, p)
    ensures RowKey(b, p, keys) != key
  {
    var ks := RowKeys(b, keys);
    assert FirstIndex(ks, ks[p]) == p;
  }

  /** Marks the deleted base rows (the loop over `deleted.index`). */
  method MarkDeleted(marked: array<Row>, b: Table, c: Table, keys: seq<string>)
    requires marked.Length == |b.rows|
    requires forall i :: 0 <= i < marked.Length ==> marked[i] == InitialRow(b, i)
    modifies marked
    ensures DiffInvariant(b, c, keys, marked[..], map[], CommonKeys(b, c, keys))
  {
    var deleted := DeletedRows(b, c, keys);
    for t := 0 to |deleted|
      invariant forall i :: 0 <= i < marked.Length ==> marked[i] == DeletedSoFar(b, c, keys, deleted[..t], i)
    {
      var i := deleted[t];
      DeletedSoFarStep(b, c, keys, deleted, t);
      marked[i] := marked[i][StatusColumn := StatusCell(Deleted)];
    }
    assert deleted[..|deleted|] == deleted;
    AllDeletedMarked(b, c, keys, marked[..]);
  }

  /** Base row `i` once the rows in `done` have been marked deleted. */
  function DeletedSoFar(b: Table, c: Table, keys: seq<string>, done: seq<nat>, i: nat): Row
    requires i < |b.rows|
  {
    if i in done then MarkedBaseRow(b, c, keys, i) else InitialRow(b, i)
  }

  /** The next row to mark is a base row without counterpart, not marked yet. */
  lemma NextDeleted(b: Table, c: Table, keys: seq<string>, deleted: seq<nat>, t: nat)
    requires deleted == DeletedRows(b, c, keys) && t < |deleted|
    ensures deleted[t] < |b.rows| && !Matched(b, c, keys, deleted[t])
    ensures deleted[t] !in deleted[..t]
  {
    BasePartition(b, c, keys, deleted[t]);
  }

  /** Marking the next deleted row changes that row only, to its deleted form. */
  lemma DeletedSoFarStep(b: Table, c: Table, keys: seq<string>, deleted: seq<nat>, t: nat)
    requires deleted == DeletedRows(b, c, keys) && t < |deleted|
    ensures deleted[t] < |b.rows|
    ensures DeletedSoFar(b, c, keys, deleted[..t], deleted[t]) == InitialRow(b, deleted[t])
    ensures DeletedSoFar(b, c, keys, deleted[..t + 1], deleted[t]) ==
      InitialRow(b, deleted[t])[StatusColumn := StatusCell(Deleted)]
    ensures forall i :: 0 <= i < |b.rows| && i != deleted[t] ==>
      DeletedSoFar(b, c, keys, deleted[..t + 1], i) == DeletedSoFar(b, c, keys, deleted[..t], i)
  {
    NextDeleted(b, c, keys, deleted, t);
    assert deleted[..t + 1] == deleted[..t] + [deleted[t]];
    MarkOneMore(b, c, keys, deleted[..t], deleted[t]);
  }

  /** Marking one more unmatched row `x` changes that row only, from its initial to its deleted form. */
  lemma MarkOneMore(b: Table, c: Table, keys: seq<string>, done: seq<nat>, x: nat)
    requires x < |b.rows| && !Matched(b, c, keys, x) && x !in done
    ensures DeletedSoFar(b, c, keys, done, x) == InitialRow(b, x)
    ensures DeletedSoFar(b, c, keys, done + [x], x) == InitialRow(b, x)[StatusColumn := StatusCell(Deleted)]
    ensures forall i :: 0 <= i < |b.rows| && i != x ==>
      DeletedSoFar(b, c, keys, done + [x], i) == DeletedSoFar(b, c, keys, done, i)
  {
    assert Normalize(b, x)[StatusColumn := StatusCell(Unchanged)][StatusColumn := StatusCell(Deleted)]
        == Normalize(b, x)[StatusColumn := StatusCell(Deleted)];
  }

  /** With every deleted row marked, the rows are those the diff loop starts from. */
  lemma AllDeletedMarked(b: Table, c: Table, keys: seq<string>, rows: seq<Row>)
    requires |rows| == |b.rows|
    requires forall i :: 0 <= i < |rows| ==> rows[i] == DeletedSoFar(b, c, keys, DeletedRows(b, c, keys), i)
    ensures DiffInvariant(b, c, keys, rows, map[], CommonKeys(b, c, keys))
  {
    forall i | 0 <= i < |rows|
      ensures rows[i] == RowDuringDiff(b, c, keys, CommonKeys(b, c, keys), i)
    {
      BasePartition(b, c, keys, i);
    }
  }

  /** What the diff loop keeps true of the annotated rows and the change map. */
  ghost predicate DiffInvariant(b: Table, c: Table, keys: seq<string>, rows: seq<Row>, changes: ChangeMap, remaining: set<string>) {
    && |rows| == |b.rows|
    && (forall i :: 0 <= i < |rows| ==> rows[i] == RowDuringDiff(b, c, keys, remaining, i))
    && (forall i: nat :: i in changes <==> i < |rows| && RowKey(b, i, keys) !in remaining && IsModified(b, c, keys, i))
    && (forall i :: i in changes ==> changes[i] == PairOutcome(b, c, keys, i).cellChanges)
  }

  /** The rows part of the diff loop's invariant survives the turn for `key`. */
  lemma DiffKeyRows(b: Table, c: Table, keys: seq<string>, rows: seq<Row>, rows': seq<Row>,
                    remaining: set<string>, key: string)
    requires key in remaining && key in CommonKeys(b, c, keys)
    requires |rows| == |b.rows|
    requires forall p :: 0 <= p < |rows| ==> rows[p] == RowDuringDiff(b, c, keys, remaining, p)
    requires var i := FirstIndex(RowKeys(b, keys), key);
      rows' == rows[i := MarkedBaseRow(b, c, keys, i)]
    ensures forall p :: 0 <= p < |rows'| ==> rows'[p] == RowDuringDiff(b, c, keys, remaining - {key}, p)
  {
    forall p | 0 <= p < |rows'|
      ensures rows'[p] == RowDuringDiff(b, c, keys, remaining - {key}, p)
    {
      DiffStep(b, c, keys, remaining, key, p);
    }
  }

  /** The change-map part of the diff loop's invariant survives the turn for `key`. */
  lemma DiffKeyChanges(b: Table, c: Table, keys: seq<string>, n: nat, changes: ChangeMap, changes': ChangeMap,
                       remaining: set<string>, key: string)
    requires key in remaining && key in CommonKeys(b, c, keys) && n == |b.rows|
    requires forall p: nat :: p in changes <==> p < n && RowKey(b, p, keys) !in remaining && IsModified(b, c, keys, p)
    requires var i := FirstIndex(RowKeys(b, keys), key);
      changes' == if IsModified(b, c, keys, i) then changes[i := PairOutcome(b, c, keys, i).cellChanges] else changes
    ensures forall p: nat :: p in changes' <==> p < n && RowKey(b, p, keys) !in remaining - {key} && IsModified(b, c, keys, p)
  {
    var i := FirstIndex(RowKeys(b, keys), key);
    forall p: nat
      ensures p in changes' <==> p < n && RowKey(b, p, keys) !in remaining - {key} && IsModified(b, c, keys, p)
    {
      if p == i {
        assert RowKey(b, p, keys) == key;
        assert p !in changes;
      } else if p < n && IsModified(b, c, keys, p) {
        ModifiedIsFirst(b, c, keys, key, p);
      }
    }
  }

  /** The diff loop's invariant survives the turn for `key`. */
  lemma DiffKeyKeepsInvariant(b: Table, c: Table, keys: seq<string>, rows: seq<Row>, changes: ChangeMap,
                              remaining: set<string>, key: string, rows': seq<Row>, changes': ChangeMap)
    requires key in remaining && key in CommonKeys(b, c, keys)
    requires DiffInvariant(b, c, keys, rows, changes, remaining)
    requires var i := FirstIndex(RowKeys(b, keys), key);
      && PairOutcome(b, c, keys, i).Compared?
      && rows' == rows[i := MarkedBaseRow(b, c, keys, i)]
      && changes' == if IsModified(b, c, keys, i) then changes[i := PairOutcome(b, c, keys, i).cellChanges] else changes
    ensures DiffInvariant(b, c, keys, rows', changes', remaining - {key})
  {
    var i := FirstIndex(RowKeys(b, keys), key);
    DiffKeyRows(b, c, keys, rows, rows', remaining, key);
    DiffKeyChanges(b, c, keys, |rows|, changes, changes', remaining, key);
    assert forall p :: p in changes' ==> changes'[p] == PairOutcome(b, c, keys, p).cellChanges by {
      forall p | p in changes' ensures changes'[p] == PairOutcome(b, c, keys, p).cellChanges {
        if p != i {
          assert p in changes;
        }
      }
    }
  }

  /**
   * One turn of the loop over the common keys: diffs the first base row with
   * key `key` against the first compare row with that key, and when some cell
   * differs marks the base row "修改" and records its changed columns.
   */
  method DiffKey(marked: array<Row>, b: Table, c: Table, keys: seq<string>,
                 remaining: set<string>, key: string, changes: ChangeMap)
    returns (absent: Option<string>, changes': ChangeMap)
    requires key in remaining && key in CommonKeys(b, c, keys)
    requires DiffInvariant(b, c, keys, marked[..], changes, remaining)
    modifies marked
    ensures absent == FirstAbsent(DiffColumns(b.columns), c.columns)
    ensures absent.None? ==> DiffInvariant(b, c, keys, marked[..], changes', remaining - {key})
  {
    var i := FirstIndex(RowKeys(b, keys), key);
    var j := FirstIndex(RowKeys(c, keys), key);
    assert Matched(b, c, keys, i) && Counterpart(b, c, keys, i) == j;
    assert marked[..][i] == InitialRow(b, i);
    var d := DiffRow(Normalize(b, i), Normalize(c, j), c.columns, DiffColumns(b.columns), marked[i]);
    assert d == PairOutcome(b, c, keys, i);
    DiffCellsFailsAtFirstAbsent(Normalize(b, i), Normalize(c, j), c.columns, DiffColumns(b.columns), InitialRow(b, i));
    changes' := changes;
    if d.AbsentInCompare? {
      return Some(d.column), changes';
    }
    absent := None;
    ghost var rows := marked[..];
    assert IsFirstOfKey(b, keys, i);
    assert IsModified(b, c, keys, i) == d.hasChanges;
    if d.hasChanges {
      marked[i] := d.row[StatusColumn := StatusCell(Modified)];
      changes' := changes[i := d.cellChanges];
    }
    assert marked[..] == rows[i := MarkedBaseRow(b, c, keys, i)];
    DiffKeyKeepsInvariant(b, c, keys, rows, changes, remaining, key, marked[..], changes');
  }

  /**
   * The loop over the common keys (in no particular order). Stops with the
   * column of the KeyError when the compare table lacks a compared column.
   */
  method DiffCommon(marked: array<Row>, b: Table, c: Table, keys: seq<string>)
    returns (absent: Option<string>, changes: ChangeMap)
    requires DiffInvariant(b, c, keys, marked[..], map[], CommonKeys(b, c, keys))
    modifies marked
    ensures absent.Some? ==>
      CommonKeys(b, c, keys) != {} && absent == FirstAbsent(DiffColumns(b.columns), c.columns)
    ensures absent.None? ==>
      (CommonKeys(b, c, keys) == {} || FirstAbsent(DiffColumns(b.columns), c.columns).None?)
    ensures absent.None? ==> DiffInvariant(b, c, keys, marked[..], changes, {})
  {
    var common := CommonKeys(b, c, keys);
    changes := map[];
    var remaining := common;
    while remaining != {}
      invariant remaining <= common
      invariant DiffInvariant(b, c, keys, marked[..], changes, remaining)
      invariant remaining != common ==> FirstAbsent(DiffColumns(b.columns), c.columns).None?
      decreases remaining
    {
      var key :| key in remaining;
      absent, changes := DiffKey(marked, b, c, keys, remaining, key, changes);
      if absent.Some? {
        return;
      }
      remaining := remaining - {key};
    }
    absent := None;
  }

  /** The finished diff loop leaves exactly the specified base rows and change map. */
  lemma DiffDone(b: Table, c: Table, keys: seq<string>, rows: seq<Row>, changes: ChangeMap)
    requires DiffInvariant(b, c, keys, rows, changes, {})
    ensures rows == seq(|b.rows|, i requires 0 <= i < |b.rows| => MarkedBaseRow(b, c, keys, i))
    ensures changes == Changes(b, c, keys)
  {
    DiffDoneRows(b, c, keys, rows);
    assert forall i: nat :: i in changes <==> i < |rows| && IsModified(b, c, keys, i);
    DiffDoneChanges(b, c, keys, |rows|, changes);
  }

  /** With no key left, every base row is in its final form. */
  lemma DiffDoneRows(b: Table, c: Table, keys: seq<string>, rows: seq<Row>)
    requires |rows| == |b.rows|
    requires forall i :: 0 <= i < |rows| ==> rows[i] == RowDuringDiff(b, c, keys, {}, i)
    ensures rows == seq(|b.rows|, i requires 0 <= i < |b.rows| => MarkedBaseRow(b, c, keys, i))
  {
  }

  /** A map holding exactly the modified rows' flags is the specified change map. */
  lemma DiffDoneChanges(b: Table, c: Table, keys: seq<string>, n: nat, changes: ChangeMap)
    requires n == |b.rows|
    requires forall i: nat :: i in changes <==> i < n && IsModified(b, c, keys, i)
    requires forall i: nat :: i in changes ==>
      (i < n && IsModified(b, c, keys, i) && changes[i] == PairOutcome(b, c, keys, i).cellChanges)
    ensures changes == Changes(b, c, keys)
  {
    var spec := Changes(b, c, keys);
    assert changes.Keys == spec.Keys;
    forall i | i in changes
      ensures changes[i] == spec[i]
    {
    }
  }

  /** Appends the added compare rows, in compare order (the `pd.concat` loop). */
  method AppendAdded(rows: seq<Row>, b: Table, c: Table, keys: seq<string>) returns (all: seq<Row>)
    ensures all == rows + AddedRowsOf(c, AddedRows(b, c, keys))
  {
    all := AppendRowsOf(rows, c, AddedRows(b, c, keys));
  }

  /** Appends compare rows `idx`, in that order, each marked "新增". */
  method AppendRowsOf(rows: seq<Row>, c: Table, idx: seq<nat>) returns (all: seq<Row>)
    requires forall t :: 0 <= t < |idx| ==> idx[t] < |c.rows|
    ensures all == rows + AddedRowsOf(c, idx)
  {
    all := rows;
    for t := 0 to |idx|
      invariant all == rows + AddedRowsOf(c, idx[..t])
    {
      assert idx[..t + 1] == idx[..t] + [idx[t]];
      AddedRowsOfSnoc(c, idx[..t], idx[t]);
      all := all + [AddedRow(c, idx[t])];
    }
    assert idx[..|idx|] == idx;
  }

  /** One more added index appends its row. */
  lemma AddedRowsOfSnoc(c: Table, idx: seq<nat>, j: nat)
    requires forall t :: 0 <= t < |idx| ==> idx[t] < |c.rows|
    requires j < |c.rows|
    ensures AddedRowsOf(c, idx + [j]) == AddedRowsOf(c, idx) + [AddedRow(c, j)]
  {
    var longer := idx + [j];
    assert forall t :: 0 <= t < |idx| ==> longer[t] == idx[t];
    assert AddedRowsOf(c, longer)[|idx|] == AddedRow(c, j);
  }

  /**
   * `compare_and_mark_changes`: copy the base rows with status "不变", mark
   * the deleted ones, diff the first row of each common key against the first
   * compare row with that key, append the added compare rows, then drop the
   * internal columns and move the status column first.
   */
  method CompareAndMarkChanges(base: Option<Table>, compare: Option<Table>, requested: seq<string>)
    returns (r: Outcome)
    ensures r == CompareAndMark(base, compare, requested)
  {
    if base.None? || compare.None? || IsEmpty(base.value) || IsEmpty(compare.value) {
      return NoResult;
    }
    var b, c := base.value, compare.value;
    var keys := ResolveKeys(requested, b.columns, c.columns);
    var n := |b.rows|;
    var marked := new Row[n](i requires 0 <= i < n => InitialRow(b, i));
    MarkDeleted(marked, b, c, keys);
    var absent, changes := DiffCommon(marked, b, c, keys);
    if absent.Some? {
      return KeyError(absent.value);
    }
    DiffDone(b, c, keys, marked[..], changes);
    var rows := AppendAdded(marked[..], b, c, keys);
    var cols := OutputColumns(b.columns, c.columns, |AddedRows(b, c, keys)| > 0);
    r := Marked(Table(cols, ProjectAll(rows, cols)), changes);
  }
}
