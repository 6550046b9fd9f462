/**
 * Row matching of `compare_and_mark_changes`: which columns form the key,
 * the join key of every row, and the split of the rows into those whose key
 * the other table lacks and those whose key both tables share.
 */
module RowMatch {
  import opened Values
  import opened JoinKey
  import opened Tables

  // ---------------------------------------------------------------- key columns

  /** The columns of a table once the positional index column has been added. */
  function WithIndex(cols: seq<string>): (r: seq<string>)
    ensures IndexColumn in r
    ensures forall col :: col in r <==> col in cols || col == IndexColumn
  {
    if IndexColumn in cols then cols else cols + [IndexColumn]
  }

  /** A column usable as a key: present in both tables (the index column always is). */
  predicate Shared(col: string, baseCols: seq<string>, compareCols: seq<string>) {
    col in WithIndex(baseCols) && col in WithIndex(compareCols)
  }

  /** The wanted columns that both tables have, in the wanted order, repeats kept. */
  function KeepShared(wanted: seq<string>, baseCols: seq<string>, compareCols: seq<string>): (r: seq<string>)
    ensures forall col :: col in r <==> col in wanted && Shared(col, baseCols, compareCols)
    ensures |r| <= |wanted|
    ensures (forall col :: col in wanted ==> !Shared(col, baseCols, compareCols)) ==> r == []
  {
    if wanted == [] then []
    else
      (if Shared(wanted[0], baseCols, compareCols) then [wanted[0]] else [])
      + KeepShared(wanted[1..], baseCols, compareCols)
  }

  /** Filtering distributes over concatenation: the wanted order is kept. */
  lemma {:induction false} KeepSharedAppend(xs: seq<string>, ys: seq<string>, baseCols: seq<string>, compareCols: seq<string>)
    ensures KeepShared(xs + ys, baseCols, compareCols)
         == KeepShared(xs, baseCols, compareCols) + KeepShared(ys, baseCols, compareCols)
  {
    if xs == [] {
      assert xs + ys == ys;
    } else {
      assert (xs + ys)[0] == xs[0];
      assert (xs + ys)[1..] == xs[1..] + ys;
      KeepSharedAppend(xs[1..], ys, baseCols, compareCols);
      var head := if Shared(xs[0], baseCols, compareCols) then [xs[0]] else [];
      assert KeepShared(xs + ys, baseCols, compareCols)
          == head + (KeepShared(xs[1..], baseCols, compareCols) + KeepShared(ys, baseCols, compareCols));
    }
  }

  /** Wanted columns that all survive are kept exactly, in order. */
  lemma {:induction false} KeepSharedAll(wanted: seq<string>, baseCols: seq<string>, compareCols: seq<string>)
    requires forall k :: 0 <= k < |wanted| ==> Shared(wanted[k], baseCols, compareCols)
    ensures KeepShared(wanted, baseCols, compareCols) == wanted
  {
    if wanted != [] {
      KeepSharedAll(wanted[1..], baseCols, compareCols);
    }
  }

  /**
   * The effective key columns: the requested ones (all base columns and the
   * index column when none are requested) that both tables have; the index
   * column alone when none of them survives.
   */
  function ResolveKeys(requested: seq<string>, baseCols: seq<string>, compareCols: seq<string>): (keys: seq<string>)
    ensures |keys| > 0
    ensures forall k :: 0 <= k < |keys| ==> Shared(keys[k], baseCols, compareCols)
    ensures requested == [] ==> IndexColumn in keys
    ensures requested == [] ==>
      forall col :: col in keys <==> (col in baseCols || col == IndexColumn) && Shared(col, baseCols, compareCols)
    ensures requested != [] && (exists col :: col in requested && Shared(col, baseCols, compareCols)) ==>
      forall col :: col in keys <==> col in requested && Shared(col, baseCols, compareCols)
    ensures (requested != [] && forall col :: col in requested ==> !Shared(col, baseCols, compareCols)) ==>
      keys == [IndexColumn]
    ensures requested != [] && KeepShared(requested, baseCols, compareCols) != [] ==>
      keys == KeepShared(requested, baseCols, compareCols)
    ensures requested == [] ==> keys == KeepShared(WithIndex(baseCols), baseCols, compareCols)
  {
    var wanted := if requested == [] then WithIndex(baseCols) else requested;
    var valid := KeepShared(wanted, baseCols, compareCols);
    if valid == [] then [IndexColumn] else valid
  }

  /** Requested columns that both tables have are used as they are, in request order. */
  lemma ResolveKeysKeepsRequest(requested: seq<string>, baseCols: seq<string>, compareCols: seq<string>)
    requires requested != []
    requires forall k :: 0 <= k < |requested| ==> Shared(requested[k], baseCols, compareCols)
    ensures ResolveKeys(requested, baseCols, compareCols) == requested
  {
    KeepSharedAll(requested, baseCols, compareCols);
  }

  /** A single wanted column is kept exactly when both tables have it. */
  lemma KeepSharedOne(col: string, baseCols: seq<string>, compareCols: seq<string>)
    ensures KeepShared([col], baseCols, compareCols) == if Shared(col, baseCols, compareCols) then [col] else []
  {
    assert [col][1..] == [];
  }

  /** A wanted column that is not in both tables is dropped without disturbing the order of the others. */
  lemma KeepSharedDrop(xs: seq<string>, x: string, ys: seq<string>, baseCols: seq<string>, compareCols: seq<string>)
    requires !Shared(x, baseCols, compareCols)
    ensures KeepShared(xs + [x] + ys, baseCols, compareCols) == KeepShared(xs + ys, baseCols, compareCols)
  {
    KeepSharedAppend(xs + [x], ys, baseCols, compareCols);
    KeepSharedAppend(xs, [x], baseCols, compareCols);
    KeepSharedAppend(xs, ys, baseCols, compareCols);
    KeepSharedOne(x, baseCols, compareCols);
  }

  /**
   * A requested column that is not in both tables has no effect on the key:
   * the remaining request gives the same key, in the same order.
   */
  lemma ResolveKeysIgnoresUnusable(xs: seq<string>, x: string, ys: seq<string>,
                                   baseCols: seq<string>, compareCols: seq<string>)
    requires xs + ys != [] && !Shared(x, baseCols, compareCols)
    ensures ResolveKeys(xs + [x] + ys, baseCols, compareCols) == ResolveKeys(xs + ys, baseCols, compareCols)
  {
    KeepSharedDrop(xs, x, ys, baseCols, compareCols);
  }

  /**
   * With no request and every base column also in the compare table, the key
   * is the base columns in base order followed by the index column.
   */
  lemma DefaultKeysInBaseOrder(baseCols: seq<string>, compareCols: seq<string>)
    requires IndexColumn !in baseCols
    requires forall k :: 0 <= k < |baseCols| ==> baseCols[k] in compareCols
    ensures ResolveKeys([], baseCols, compareCols) == baseCols + [IndexColumn]
  {
    var wanted := baseCols + [IndexColumn];
    assert WithIndex(baseCols) == wanted;
    forall k | 0 <= k < |wanted|
      ensures Shared(wanted[k], baseCols, compareCols)
    {
      if k < |baseCols| {
        assert wanted[k] == baseCols[k];
      }
    }
    KeepSharedAll(wanted, baseCols, compareCols);
  }

  // ---------------------------------------------------------------- join keys

  /** The value a key column has in row `i`; the index column holds the row's position. */
  function KeyCell(t: Table, i: nat, col: string): Value
    requires i < |t.rows|
  {
    if col == IndexColumn then Int(i) else Get(t, i, col)
  }

  /** The string forms of row `i`'s key cells, in key order. */
  function KeyParts(t: Table, i: nat, keys: seq<string>): (parts: seq<string>)
    requires i < |t.rows|
    ensures |parts| == |keys|
    ensures forall k :: 0 <= k < |keys| ==> parts[k] == Stringify(KeyCell(t, i, keys[k]))
  {
    seq(|keys|, k requires 0 <= k < |keys| => Stringify(KeyCell(t, i, keys[k])))
  }

  /** The join key of row `i`. */
  function RowKey(t: Table, i: nat, keys: seq<string>): string
    requires i < |t.rows|
  {
    Join(KeyParts(t, i, keys), Separator)
  }

  /** The join keys of all rows, in row order. */
  function RowKeys(t: Table, keys: seq<string>): (ks: seq<string>)
    ensures |ks| == |t.rows|
    ensures forall i :: 0 <= i < |t.rows| ==> ks[i] == RowKey(t, i, keys)
  {
    seq(|t.rows|, i requires 0 <= i < |t.rows| => RowKey(t, i, keys))
  }

  function KeySet(ks: seq<string>): (s: set<string>)
    ensures forall k :: k in s <==> k in ks
  {
    set k | k in ks
  }

  /**
   * When no key cell's string form holds the separator, two rows have equal
   * join keys exactly when their key cells have equal string forms.
   */
  lemma RowKeysAgree(b: Table, i: nat, c: Table, j: nat, keys: seq<string>)
    requires i < |b.rows| && j < |c.rows| && |keys| > 0
    requires FreeOf(KeyParts(b, i, keys), Separator) && FreeOf(KeyParts(c, j, keys), Separator)
    ensures RowKey(b, i, keys) == RowKey(c, j, keys) <==> KeyParts(b, i, keys) == KeyParts(c, j, keys)
  {
    if RowKey(b, i, keys) == RowKey(c, j, keys) {
      JoinInjective(KeyParts(b, i, keys), KeyParts(c, j, keys), Separator);
    }
  }

  /** Under the positional fallback, row `i` of one table matches exactly row `i` of the other. */
  lemma PositionalKeys(b: Table, i: nat, c: Table, j: nat)
    requires i < |b.rows| && j < |c.rows|
    ensures RowKey(b, i, [IndexColumn]) == RowKey(c, j, [IndexColumn]) <==> i == j
  {
    assert KeyParts(b, i, [IndexColumn]) == [IntToDecimal(i)];
    assert KeyParts(c, j, [IndexColumn]) == [IntToDecimal(j)];
    if RowKey(b, i, [IndexColumn]) == RowKey(c, j, [IndexColumn]) {
      IntToDecimalInjective(i, j);
    }
  }

  /**
   * With no key columns requested and no index column of the base's own, the
   * default key is the shared base columns in base order with the index
   * column last.
   */
  lemma DefaultKeysEndWithIndex(baseCols: seq<string>, compareCols: seq<string>)
    requires IndexColumn !in baseCols
    ensures ResolveKeys([], baseCols, compareCols)
         == KeepShared(baseCols, baseCols, compareCols) + [IndexColumn]
  {
    assert WithIndex(baseCols) == baseCols + [IndexColumn];
    KeepSharedAppend(baseCols, [IndexColumn], baseCols, compareCols);
    KeepSharedOne(IndexColumn, baseCols, compareCols);
  }

  /**
   * With no key columns requested the index column is the last part of the
   * key, so a base row can only ever match the compare row at the same
   * position, whatever its other key cells hold: a position's decimal form
   * never contains '|', and the text after the last '|' of the key is the
   * position.
   */
  lemma DefaultKeysPositional(b: Table, i: nat, c: Table, j: nat)
    requires i < |b.rows| && j < |c.rows|
    requires IndexColumn !in b.columns
    requires var keys := ResolveKeys([], b.columns, c.columns);
      RowKey(b, i, keys) == RowKey(c, j, keys)
    ensures i == j
  {
    DefaultKeysEndWithIndex(b.columns, c.columns);
    IndexLastPositional(b, i, c, j, KeepShared(b.columns, b.columns, c.columns));
  }

  /** The parts of a key whose last column is the index column end with the position. */
  lemma KeyPartsIndexLast(t: Table, i: nat, front: seq<string>)
    requires i < |t.rows|
    ensures KeyParts(t, i, front + [IndexColumn]) == KeyParts(t, i, front) + [IntToDecimal(i)]
  {
  }

  /** Rows whose keys end with the index column match only at the same position. */
  lemma IndexLastPositional(b: Table, i: nat, c: Table, j: nat, front: seq<string>)
    requires i < |b.rows| && j < |c.rows|
    requires RowKey(b, i, front + [IndexColumn]) == RowKey(c, j, front + [IndexColumn])
    ensures i == j
  {
    KeyPartsIndexLast(b, i, front);
    KeyPartsIndexLast(c, j, front);
    DecimalHasNo(i, Separator);
    DecimalHasNo(j, Separator);
    JoinLastPart(KeyParts(b, i, front), IntToDecimal(i), KeyParts(c, j, front), IntToDecimal(j), Separator);
    IntToDecimalInjective(i, j);
  }

  /**
   * A base column named like the index column is overwritten with the
   * positions where it stands, so the position part can sit between other
   * key parts. There the rows still match only at the same position when no
   * key cell holds '|'.
   */
  lemma DefaultKeysPositionalSeparatorFree(b: Table, i: nat, c: Table, j: nat)
    requires i < |b.rows| && j < |c.rows|
    requires var keys := ResolveKeys([], b.columns, c.columns);
      FreeOf(KeyParts(b, i, keys), Separator) && FreeOf(KeyParts(c, j, keys), Separator)
    requires var keys := ResolveKeys([], b.columns, c.columns);
      RowKey(b, i, keys) == RowKey(c, j, keys)
    ensures i == j
  {
    var keys := ResolveKeys([], b.columns, c.columns);
    RowKeysAgree(b, i, c, j, keys);
    var p :| 0 <= p < |keys| && keys[p] == IndexColumn;
    assert KeyParts(b, i, keys)[p] == KeyParts(c, j, keys)[p];
    IntToDecimalInjective(i, j);
  }

  /**
   * Without that condition a position part in the middle can shift: with key
   * columns x, the index column and y, base row 0 holding "a|1" and "z" and
   * compare row 1 holding "a" and "0|z" both have the key "a|1|0|z".
   */
  lemma MiddleIndexCollides()
    ensures Join(["a|1", IntToDecimal(0), "z"], Separator) == Join(["a", IntToDecimal(1), "0|z"], Separator)
    ensures IntToDecimal(0) != IntToDecimal(1)
  {
    assert IntToDecimal(0) == "0" && IntToDecimal(1) == "1";
    assert ["a|1", "0", "z"][1..] == ["0", "z"];
    assert ["a", "1", "0|z"][1..] == ["1", "0|z"];
  }

  // ---------------------------------------------------------------- partition

  /**
   * The positions, in increasing order, of the keys that `other` lacks: the
   * deleted base rows (against the compare keys) or the added compare rows
   * (against the base keys).
   */
  function UnmatchedRows(ks: seq<string>, other: set<string>): (r: seq<nat>)
    ensures forall t :: 0 <= t < |r| ==> r[t] < |ks| && ks[r[t]] !in other
    ensures forall i :: 0 <= i < |ks| && ks[i] !in other ==> i in r
    ensures forall t, u :: 0 <= t < u < |r| ==> r[t] < r[u]
  {
    if ks == [] then []
    else
      var prev := UnmatchedRows(ks[..|ks| - 1], other);
      if ks[|ks| - 1] in other then prev else prev + [|ks| - 1]
  }

  /** The position of the first row with key `k`: the row `.iloc[0]` picks. */
  function FirstIndex(ks: seq<string>, k: string): (i: nat)
    requires k in ks
    ensures i < |ks| && ks[i] == k
    ensures forall p :: 0 <= p < i ==> ks[p] != k
  {
    if ks[0] == k then 0 else 1 + FirstIndex(ks[1..], k)
  }

  /** Deleted base rows: those whose key no compare row has. */
  function DeletedRows(b: Table, c: Table, keys: seq<string>): seq<nat> {
    UnmatchedRows(RowKeys(b, keys), KeySet(RowKeys(c, keys)))
  }

  /** Added compare rows: those whose key no base row has. */
  function AddedRows(b: Table, c: Table, keys: seq<string>): seq<nat> {
    UnmatchedRows(RowKeys(c, keys), KeySet(RowKeys(b, keys)))
  }

  /** The keys both tables have. */
  function CommonKeys(b: Table, c: Table, keys: seq<string>): (common: set<string>)
    ensures forall k :: k in common <==> k in RowKeys(b, keys) && k in RowKeys(c, keys)
  {
    KeySet(RowKeys(b, keys)) * KeySet(RowKeys(c, keys))
  }

  /** Base row `i` has a counterpart in the compare table. */
  predicate Matched(b: Table, c: Table, keys: seq<string>, i: nat)
    requires i < |b.rows|
  {
    RowKeys(b, keys)[i] in RowKeys(c, keys)
  }

  /** The compare row that base row `i` is diffed against: the first with the same key. */
  function Counterpart(b: Table, c: Table, keys: seq<string>, i: nat): (j: nat)
    requires i < |b.rows| && Matched(b, c, keys, i)
    ensures j < |c.rows| && RowKey(c, j, keys) == RowKey(b, i, keys)
    ensures forall p :: 0 <= p < j ==> RowKey(c, p, keys) != RowKey(b, i, keys)
  {
    FirstIndex(RowKeys(c, keys), RowKeys(b, keys)[i])
  }

  /** Base row `i` is the first base row with its key, the one `.iloc[0]` compares. */
  predicate IsFirstOfKey(b: Table, keys: seq<string>, i: nat)
    requires i < |b.rows|
  {
    FirstIndex(RowKeys(b, keys), RowKeys(b, keys)[i]) == i
  }

  /**
   * Partition of the base rows: each is either deleted (its key is not among
   * the compare keys) or carries a common key, never both.
   */
  lemma {:induction false} BasePartition(b: Table, c: Table, keys: seq<string>, i: nat)
    requires i < |b.rows|
    ensures i in DeletedRows(b, c, keys) <==> !Matched(b, c, keys, i)
    ensures Matched(b, c, keys, i) <==> RowKey(b, i, keys) in CommonKeys(b, c, keys)
  {
    var del := DeletedRows(b, c, keys);
    if i in del {
      var t :| 0 <= t < |del| && del[t] == i;
    }
  }

  /** With every key present in `other`, no position is unmatched. */
  lemma {:induction false} AllMatched(ks: seq<string>, other: set<string>)
    requires forall i :: 0 <= i < |ks| ==> ks[i] in other
    ensures UnmatchedRows(ks, other) == []
  {
    if ks != [] {
      AllMatched(ks[..|ks| - 1], other);
    }
  }

  /**
   * When exactly the first `m` keys are present in `other`, the unmatched
   * positions are `m`, `m + 1`, ... up to the last one, in that order.
   */
  lemma {:induction false} UnmatchedSuffix(ks: seq<string>, other: set<string>, m: nat)
    requires forall i :: 0 <= i < |ks| ==> (ks[i] in other <==> i < m)
    ensures |UnmatchedRows(ks, other)| == if |ks| > m then |ks| - m else 0
    ensures forall t :: 0 <= t < |UnmatchedRows(ks, other)| ==> UnmatchedRows(ks, other)[t] == m + t
  {
    if ks != [] {
      UnmatchedSuffix(ks[..|ks| - 1], other, m);
    }
  }

  /**
   * Under the positional fallback (key `[IndexColumn]`), base row `i` is
   * matched exactly when the compare table has a row `i`, and that row is its
   * counterpart; the added rows are exactly the compare rows past the end of
   * the base table.
   */
  lemma PositionalMatching(b: Table, c: Table)
    ensures forall i :: 0 <= i < |b.rows| ==> (Matched(b, c, [IndexColumn], i) <==> i < |c.rows|)
    ensures forall i :: 0 <= i < |b.rows| && i < |c.rows| ==> Counterpart(b, c, [IndexColumn], i) == i
    ensures forall j :: 0 <= j < |c.rows| ==> (j in AddedRows(b, c, [IndexColumn]) <==> j >= |b.rows|)
    ensures |AddedRows(b, c, [IndexColumn])| == if |c.rows| > |b.rows| then |c.rows| - |b.rows| else 0
    ensures forall t :: 0 <= t < |AddedRows(b, c, [IndexColumn])| ==> AddedRows(b, c, [IndexColumn])[t] == |b.rows| + t
  {
    var keys := [IndexColumn];
    forall i | 0 <= i < |b.rows|
      ensures Matched(b, c, keys, i) <==> i < |c.rows|
    {
      if Matched(b, c, keys, i) {
        var j :| 0 <= j < |c.rows| && RowKeys(c, keys)[j] == RowKeys(b, keys)[i];
        PositionalKeys(b, i, c, j);
      }
      if i < |c.rows| {
        PositionalKeys(b, i, c, i);
        assert RowKeys(c, keys)[i] == RowKeys(b, keys)[i];
      }
    }
    forall i | 0 <= i < |b.rows| && i < |c.rows|
      ensures Counterpart(b, c, keys, i) == i
    {
      PositionalKeys(b, i, c, i);
      assert RowKeys(c, keys)[i] == RowKeys(b, keys)[i];
      PositionalKeys(b, i, c, Counterpart(b, c, keys, i));
    }
    forall j | 0 <= j < |c.rows|
      ensures RowKeys(c, keys)[j] in KeySet(RowKeys(b, keys)) <==> j < |b.rows|
      ensures j in AddedRows(b, c, keys) <==> j >= |b.rows|
    {
      ComparePartition(b, c, keys, j);
      if RowKeys(c, keys)[j] in RowKeys(b, keys) {
        var i :| 0 <= i < |b.rows| && RowKeys(b, keys)[i] == RowKeys(c, keys)[j];
        PositionalKeys(b, i, c, j);
      }
      if j < |b.rows| {
        PositionalKeys(b, j, c, j);
        assert RowKeys(b, keys)[j] == RowKeys(c, keys)[j];
      }
    }
    UnmatchedSuffix(RowKeys(c, keys), KeySet(RowKeys(b, keys)), |b.rows|);
  }

  /**
   * Partition of the compare rows: each is either added (its key is not among
   * the base keys) or carries a common key, never both.
   */
  lemma {:induction false} ComparePartition(b: Table, c: Table, keys: seq<string>, j: nat)
    requires j < |c.rows|
    ensures j in AddedRows(b, c, keys) <==> RowKeys(c, keys)[j] !in RowKeys(b, keys)
    ensures j !in AddedRows(b, c, keys) <==> RowKey(c, j, keys) in CommonKeys(b, c, keys)
  {
    var add := AddedRows(b, c, keys);
    if j in add {
      var t :| 0 <= t < |add| && add[t] == j;
    }
  }
}
