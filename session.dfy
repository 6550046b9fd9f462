/**
 * The comparison runs of the app: which sheets are compared, which results
 * are kept in the session, and the name the result workbook is offered under.
 * Uploading, widgets and messages are not modelled; an uploaded workbook is
 * its list of sheet names and the sheets that can be read from it.
 */
module Session {
  import opened Wrappers
  import opened Tables
  import opened Assembly
  import opened DiffProperties

  /** An uploaded workbook: its sheet names in file order and the sheets that read successfully. */
  datatype Workbook = Workbook(sheetNames: seq<string>, sheets: map<string, Table>)

  /** Reading one sheet: its table, or nothing when the read fails (the error is only reported). */
  function ReadSheet(wb: Workbook, name: string): (t: Option<Table>)
    ensures t.Some? <==> name in wb.sheets
    ensures t.Some? ==> t.value == wb.sheets[name]
  {
    if name in wb.sheets then Some(wb.sheets[name]) else None
  }

  /** The sheet names both workbooks have. */
  function CommonSheets(names1: seq<string>, names2: seq<string>): (common: set<string>)
    ensures forall name {:trigger name in common} :: name in common <==> name in names1 && name in names2
  {
    (set name | name in names1) * (set name | name in names2)
  }

  /** What the session keeps for a compared sheet. */
  datatype SheetResult = SheetResult(table: Table, changes: ChangeMap, keyColumns: seq<string>)

  /** The key columns chosen for a sheet; none when none were chosen. */
  function KeysOf(keyColumns: map<string, seq<string>>, sheet: string): seq<string> {
    if sheet in keyColumns then keyColumns[sheet] else []
  }

  /** The comparison of one sheet of the two workbooks under its chosen key columns. */
  function SheetOutcome(f1: Workbook, f2: Workbook, keyColumns: map<string, seq<string>>, sheet: string): Outcome {
    CompareAndMark(ReadSheet(f1, sheet), ReadSheet(f2, sheet), KeysOf(keyColumns, sheet))
  }

  /** The result kept for a sheet whose comparison produced an annotated table. */
  function ResultOf(f1: Workbook, f2: Workbook, keyColumns: map<string, seq<string>>, sheet: string): SheetResult
    requires SheetOutcome(f1, f2, keyColumns, sheet).Marked?
  {
    var r := SheetOutcome(f1, f2, keyColumns, sheet);
    SheetResult(r.table, r.changes, KeysOf(keyColumns, sheet))
  }

  /**
   * The results of comparing all common sheets: exactly the common sheets
   * whose comparison produced an annotated table; a sheet that cannot be read
   * in either workbook, is empty, or fails with a KeyError is skipped.
   */
  function AllSheetResults(f1: Workbook, f2: Workbook, keyColumns: map<string, seq<string>>)
    : (results: map<string, SheetResult>)
    ensures forall sheet {:trigger sheet in results} :: sheet in results <==>
      sheet in f1.sheetNames && sheet in f2.sheetNames && SheetOutcome(f1, f2, keyColumns, sheet).Marked?
    ensures forall sheet {:trigger sheet in results} :: sheet in results ==> results[sheet] == ResultOf(f1, f2, keyColumns, sheet)
  {
    map sheet | sheet in CommonSheets(f1.sheetNames, f2.sheetNames) && SheetOutcome(f1, f2, keyColumns, sheet).Marked?
      :: ResultOf(f1, f2, keyColumns, sheet)
  }

  const DownloadPrefix: string := "对比结果_"
  const MultiSheetName: string := "对比结果_多Sheet.xlsx"

  /** Any two members of a one-element set are equal. */
  lemma SingletonMembers(names: set<string>, a: string, b: string)
    requires |names| == 1 && a in names && b in names
    ensures a == b
  {
    var rest := names - {a};
    assert |rest| == |names| - 1 == 0;
    assert b !in rest;
  }

  /** The file name the result workbook is downloaded under. */
  function DownloadName(results: map<string, SheetResult>): string {
    if |results.Keys| == 1 then
      assert forall a, b :: a in results.Keys && b in results.Keys ==> a == b by {
        forall a, b | a in results.Keys && b in results.Keys ensures a == b {
          SingletonMembers(results.Keys, a, b);
        }
      }
      var sheet :| sheet in results.Keys;
      DownloadPrefix + sheet + ".xlsx"
    else MultiSheetName
  }

  /** One result is downloaded under its sheet's name; several (or none) under the multi-sheet name. */
  lemma DownloadNameCases(results: map<string, SheetResult>, sheet: string)
    ensures results.Keys == {sheet} ==> DownloadName(results) == DownloadPrefix + sheet + ".xlsx"
    ensures |results.Keys| != 1 ==> DownloadName(results) == MultiSheetName
  {
    if results.Keys == {sheet} {
      assert sheet in results.Keys;
    }
  }

  /** Runs the comparison of one sheet under its chosen key columns. */
  method CompareSheet(f1: Workbook, f2: Workbook, keyColumns: map<string, seq<string>>, sheet: string)
    returns (r: Outcome)
    ensures r == SheetOutcome(f1, f2, keyColumns, sheet)
  {
    r := CompareAndMarkChanges(ReadSheet(f1, sheet), ReadSheet(f2, sheet), KeysOf(keyColumns, sheet));
  }

  /** The result of comparing one sheet, when the comparison produced an annotated table. */
  method SelectedResult(f1: Workbook, f2: Workbook, keyColumns: map<string, seq<string>>, sheet: string)
    returns (kept: Option<SheetResult>)
    ensures kept.Some? <==> SheetOutcome(f1, f2, keyColumns, sheet).Marked?
    ensures kept.Some? ==> kept.value == ResultOf(f1, f2, keyColumns, sheet)
  {
    var r := CompareSheet(f1, f2, keyColumns, sheet);
    kept := None;
    if r.Marked? {
      kept := Some(SheetResult(r.table, r.changes, KeysOf(keyColumns, sheet)));
    }
  }

  /** The results in `m` of the sheets in `s`. */
  function Restrict(m: map<string, SheetResult>, s: set<string>): (r: map<string, SheetResult>)
    ensures forall k {:trigger k in r} :: k in r <==> k in m && k in s
    ensures forall k {:trigger k in r} :: k in r ==> r[k] == m[k]
  {
    map k | k in m && k in s :: m[k]
  }

  /** Taking one more sheet adds its result, if it has one. */
  lemma RestrictAdd(m: map<string, SheetResult>, s: set<string>, x: string)
    ensures Restrict(m, s + {x}) == if x in m then Restrict(m, s)[x := m[x]] else Restrict(m, s)
  {
    var r := if x in m then Restrict(m, s)[x := m[x]] else Restrict(m, s);
    assert Restrict(m, s + {x}).Keys == r.Keys;
  }

  /** Taking every sheet that has a result keeps all results. */
  lemma RestrictAll(m: map<string, SheetResult>, s: set<string>)
    requires forall k :: k in m ==> k in s
    ensures Restrict(m, s) == m
  {
    assert Restrict(m, s).Keys == m.Keys;
  }

  /** Compares every common sheet and keeps the results that were produced. */
  method CompareSheets(f1: Workbook, f2: Workbook, keyColumns: map<string, seq<string>>, common: set<string>)
    returns (results: map<string, SheetResult>)
    requires common == CommonSheets(f1.sheetNames, f2.sheetNames)
    ensures results == AllSheetResults(f1, f2, keyColumns)
  {
    ghost var all := AllSheetResults(f1, f2, keyColumns);
    forall sheet | sheet in common
      ensures ResultFor(f1, f2, keyColumns, sheet, all)
    {
    }
    results := CollectResults(f1, f2, keyColumns, common, all);
    RestrictAll(all, common);
  }

  /** `all` holds the result of `sheet` exactly when its comparison produced one. */
  ghost predicate ResultFor(f1: Workbook, f2: Workbook, keyColumns: map<string, seq<string>>, sheet: string,
                            all: map<string, SheetResult>) {
    && (sheet in all <==> SheetOutcome(f1, f2, keyColumns, sheet).Marked?)
    && (sheet in all ==> all[sheet] == ResultOf(f1, f2, keyColumns, sheet))
  }

  /**
   * The loop over the common sheets (in no particular order): keeps the
   * result of every sheet whose comparison produced an annotated table.
   */
  method CollectResults(f1: Workbook, f2: Workbook, keyColumns: map<string, seq<string>>, common: set<string>,
                        ghost all: map<string, SheetResult>)
    returns (results: map<string, SheetResult>)
    requires forall sheet {:trigger ResultFor(f1, f2, keyColumns, sheet, all)} ::
      sheet in common ==> ResultFor(f1, f2, keyColumns, sheet, all)
    ensures results == Restrict(all, common)
  {
    results := map[];
    var remaining := common;
    assert Restrict(all, common - remaining) == map[];
    while remaining != {}
      invariant remaining <= common
      invariant results == Restrict(all, common - remaining)
      decreases remaining
    {
      var sheet :| sheet in remaining;
      RestrictAdd(all, common - remaining, sheet);
      assert common - (remaining - {sheet}) == (common - remaining) + {sheet};
      results := RecordSheet(f1, f2, keyColumns, sheet, all, results);
      remaining := remaining - {sheet};
    }
  }

  /** One turn of the loop: compares a sheet and keeps its result when there is one. */
  method RecordSheet(f1: Workbook, f2: Workbook, keyColumns: map<string, seq<string>>, sheet: string,
                     ghost all: map<string, SheetResult>, results: map<string, SheetResult>)
    returns (results': map<string, SheetResult>)
    requires ResultFor(f1, f2, keyColumns, sheet, all)
    ensures results' == if sheet in all then results[sheet := all[sheet]] else results
  {
    var kept := SelectedResult(f1, f2, keyColumns, sheet);
    results' := results;
    if kept.Some? {
      results' := results[sheet := kept.value];
    }
  }

  /** Every kept result of a comparison run has the status column first. */
  lemma KeptResultsHaveStatus(f1: Workbook, f2: Workbook, keyColumns: map<string, seq<string>>, sheet: string)
    requires sheet in AllSheetResults(f1, f2, keyColumns)
    ensures StatusColumn in AllSheetResults(f1, f2, keyColumns)[sheet].table.columns
  {
    MarkedStatusFirst(ReadSheet(f1, sheet), ReadSheet(f2, sheet), KeysOf(keyColumns, sheet));
  }

  /** The result of comparing the selected sheet, when there is one, can be rendered. */
  lemma SelectedResultRenderable(f1: Workbook, f2: Workbook, keyColumns: map<string, seq<string>>, sheet: string)
    requires SheetOutcome(f1, f2, keyColumns, sheet).Marked?
    ensures StatusColumn in ResultOf(f1, f2, keyColumns, sheet).table.columns
  {
    MarkedStatusFirst(ReadSheet(f1, sheet), ReadSheet(f2, sheet), KeysOf(keyColumns, sheet));
  }

  /** Every kept result has the status column each row's fill is read from. */
  predicate Renderable(results: map<string, SheetResult>) {
    forall sheet :: sheet in results ==> StatusColumn in results[sheet].table.columns
  }

  /** The results of comparing all common sheets can all be rendered. */
  lemma AllSheetResultsRenderable(f1: Workbook, f2: Workbook, keyColumns: map<string, seq<string>>)
    ensures Renderable(AllSheetResults(f1, f2, keyColumns))
  {
    forall sheet | sheet in AllSheetResults(f1, f2, keyColumns)
      ensures StatusColumn in AllSheetResults(f1, f2, keyColumns)[sheet].table.columns
    {
      KeptResultsHaveStatus(f1, f2, keyColumns, sheet);
    }
  }

  /** The session state that outlives a run: the kept results and the key columns chosen per sheet. */
  class AppSession {
    var markedResults: map<string, SheetResult>
    var sheetKeyColumns: map<string, seq<string>>

    /** The kept results can always be rendered into the result workbook. */
    ghost predicate Valid()
      reads this
    {
      Renderable(markedResults)
    }

    constructor ()
      ensures Valid()
      ensures markedResults == map[] && sheetKeyColumns == map[]
    {
      markedResults := map[];
      sheetKeyColumns := map[];
    }

    /** Records the key columns chosen for a sheet. */
    method ChooseKeyColumns(sheet: string, keys: seq<string>)
      requires Valid()
      modifies this
      ensures Valid()
      ensures sheetKeyColumns == old(sheetKeyColumns)[sheet := keys]
      ensures markedResults == old(markedResults)
    {
      sheetKeyColumns := sheetKeyColumns[sheet := keys];
    }

    /**
     * Compares every sheet name the two workbooks share. With no shared
     * name nothing changes; otherwise the kept results are replaced by those
     * of this run.
     */
    method CompareAllSheets(f1: Workbook, f2: Workbook)
      requires Valid()
      modifies this
      ensures Valid()
      ensures sheetKeyColumns == old(sheetKeyColumns)
      ensures CommonSheets(f1.sheetNames, f2.sheetNames) == {} ==> markedResults == old(markedResults)
      ensures CommonSheets(f1.sheetNames, f2.sheetNames) != {} ==>
        markedResults == AllSheetResults(f1, f2, sheetKeyColumns)
    {
      var common := CommonSheets(f1.sheetNames, f2.sheetNames);
      if common == {} {
        return;
      }
      markedResults := CompareSheets(f1, f2, sheetKeyColumns, common);
      AllSheetResultsRenderable(f1, f2, sheetKeyColumns);
    }

    /**
     * Compares the selected sheet. Nothing happens without a selection; when
     * the comparison produces an annotated table it becomes the only kept
     * result, and otherwise the kept results stay as they were.
     */
    method CompareSelectedSheet(f1: Workbook, f2: Workbook, selected: Option<string>)
      requires Valid()
      modifies this
      ensures Valid()
      ensures sheetKeyColumns == old(sheetKeyColumns)
      ensures (selected.None? || selected.value == []) ==> markedResults == old(markedResults)
      ensures selected.Some? && selected.value != [] ==>
        var sheet := selected.value;
        markedResults ==
          if SheetOutcome(f1, f2, sheetKeyColumns, sheet).Marked?
          then map[sheet := ResultOf(f1, f2, sheetKeyColumns, sheet)]
          else old(markedResults)
    {
      if selected.None? || selected.value == [] {
        return;
      }
      var sheet := selected.value;
      var kept := SelectedResult(f1, f2, sheetKeyColumns, sheet);
      if kept.Some? {
        markedResults := map[sheet := kept.value];
        SelectedResultRenderable(f1, f2, sheetKeyColumns, sheet);
      }
    }
  }
}
