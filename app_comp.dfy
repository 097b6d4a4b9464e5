/** app_comp.py: the single-file variant of the application. Its store
    creates both tables, moves records to the history with their own ids
    and writes the export file itself; its main screen filters in memory
    and has only the "Generar Archivo" button. */
module AppComp {

  import opened Options
  import opened Rolls
  import opened Screen
  import Text

  // ---------------------------------------------------------------------
  // The store
  // ---------------------------------------------------------------------

  /** What `move_to_history_and_export` reports, beside its success flag. */
  datatype Outcome =
    | NothingSelected            // "No hay registros seleccionados."
    | NotFound                   // "No se encontraron los registros seleccionados."
    | Completed(count: nat, file: string)
    | Failed                     // "Error: ..." after a rollback

  /** The header line of the export, in column order. */
  const ExportHeader: seq<string> :=
    ["ID", "Turno", "Ancho", "Diametro", "Gramaje", "Peso", "Bobina_Num", "Sec", "OF",
     "Fecha", "CodCal", "DescCal", "Created_At"]

  /** The export file's name for a `%Y%m%d_%H%M%S` timestamp. */
  function ExportFileName(stamp: string): string {
    "ManProductos_" + stamp + ".csv"
  }

  /** The ids present in `bobina_h`. */
  function HistIds(h: seq<HistRoll>): set<int> {
    set i | 0 <= i < |h| :: h[i].row.id
  }

  /** The history rows that copy `rows` with their own ids, stamped
      `fecha_insercion = now`. */
  function Copies(rows: seq<Roll>, now: string): (c: seq<HistRoll>)
    ensures |c| == |rows|
    ensures forall i :: 0 <= i < |rows| ==> c[i] == HistRoll(rows[i], now)
  {
    if rows == [] then [] else [HistRoll(rows[0], now)] + Copies(rows[1..], now)
  }

  /** No row's id is already a key of the history. */
  predicate NoConflict(h: seq<HistRoll>, rows: seq<Roll>) {
    forall r :: r in rows ==> r.id !in HistIds(h)
  }

  /** `bobina_num` is UNIQUE in the live table. */
  predicate UniqueNums(t: seq<Roll>) {
    forall a, b :: a in t && b in t && a.bobinaNum == b.bobinaNum ==> a == b
  }

  /** Appending copies of rows with distinct ids that the history does not
      have keeps history ids distinct. */
  lemma CopiesKeepDistinct(h: seq<HistRoll>, rows: seq<Roll>, now: string)
    requires HistIdsDistinct(h)
    requires IdsAscending(rows)
    requires NoConflict(h, rows)
    ensures HistIdsDistinct(h + Copies(rows, now))
  {
    var a := h + Copies(rows, now);
    forall i, j | 0 <= i < j < |a| ensures a[i].row.id != a[j].row.id {
      if j < |h| {
        assert a[i] == h[i] && a[j] == h[j];
      } else if i < |h| {
        assert a[i].row.id in HistIds(h);
        assert a[j].row == rows[j - |h|];
        assert rows[j - |h|] in rows;
      } else {
        assert a[i].row == rows[i - |h|] && a[j].row == rows[j - |h|];
      }
    }
  }

  class DatabaseManager {
    /** The live table `bobina`, in storage (ascending id) order. */
    var bobina: seq<Roll>
    /** The history table `bobina_h`, in insertion order. */
    var bobinaH: seq<HistRoll>
    /** The files in the working directory, by name. */
    var files: map<string, CsvFile>

    ghost predicate Valid()
      reads this
    {
      IdsAscending(bobina) && UniqueNums(bobina) && HistIdsDistinct(bobinaH)
    }

    /** `__init__` and `_init_db` on a database file whose tables already
        hold `live` and `history`: CREATE TABLE IF NOT EXISTS keeps them. */
    constructor (live: seq<Roll>, history: seq<HistRoll>, dir: map<string, CsvFile>)
      requires IdsAscending(live) && UniqueNums(live) && HistIdsDistinct(history)
      ensures Valid()
      ensures bobina == live && bobinaH == history && files == dir
    {
      bobina, bobinaH, files := live, history, dir;
    }

    /** `get_all_bobinas`: `SELECT * FROM bobina` without ORDER BY, so in
        storage order, oldest first. */
    method GetAllBobinas() returns (rows: seq<Roll>)
      requires Valid()
      ensures IdsAscending(rows)
      ensures rows == bobina
    {
      rows := bobina;
    }

    /** `move_to_history_and_export`. With a selection that matches rows,
        the CSV file is written first; then, in one transaction, each row is
        copied into `bobina_h` with its own id and the rows are deleted.
        An id already in the history (a PRIMARY KEY conflict) or a fault
        rolls the transaction back, but the file stays written. */
    method MoveToHistoryAndExport(selectedIds: seq<int>, stamp: string, now: string, writeOk: bool, fault: bool)
      returns (ok: bool, outcome: Outcome)
      requires Valid()
      modifies this
      ensures Valid()
      ensures selectedIds == [] ==>
                !ok && outcome == NothingSelected && bobina == old(bobina) && bobinaH == old(bobinaH)
                && files == old(files)
      ensures selectedIds != [] && WithIds(old(bobina), selectedIds) == [] ==>
                !ok && outcome == NotFound && bobina == old(bobina) && bobinaH == old(bobinaH)
                && files == old(files)
      ensures var sel := WithIds(old(bobina), selectedIds);
              selectedIds != [] && sel != [] ==>
                && files == (if writeOk then old(files)[ExportFileName(stamp) := CsvFile(ExportHeader, ExportRows(sel))]
                             else old(files))
                && ok == (writeOk && !fault && NoConflict(old(bobinaH), sel))
                && (ok ==> outcome == Completed(|sel|, ExportFileName(stamp))
                           && bobina == WithoutIds(old(bobina), selectedIds)
                           && bobinaH == old(bobinaH) + Copies(sel, now))
                && (!ok ==> outcome == Failed && bobina == old(bobina) && bobinaH == old(bobinaH))
    {
      if selectedIds == [] {
        return false, NothingSelected;
      }
      var selected := WithIds(bobina, selectedIds);
      if selected == [] {
        return false, NotFound;
      }
      WhereAscending(bobina, (r: Roll) => r.id in selectedIds);
      var name := ExportFileName(stamp);
      if !writeOk {
        return false, Failed;
      }
      var lines := WriteLines(selected);
      files := files[name := CsvFile(ExportHeader, lines)];
      var inserted, h := InsertRows(bobinaH, selected, now);
      if !inserted || fault {
        return false, Failed;
      }
      CopiesKeepDistinct(bobinaH, selected, now);
      WhereAscending(bobina, (r: Roll) => r.id !in selectedIds);
      bobina, bobinaH := WithoutIds(bobina, selectedIds), h;
      return true, Completed(|selected|, name);
    }
  }

  /** The CSV writer loop: one line per selected row, in order. */
  method WriteLines(rows: seq<Roll>) returns (lines: seq<seq<Value>>)
    ensures lines == ExportRows(rows)
  {
    lines := [];
    for i := 0 to |rows|
      invariant lines == ExportRows(rows[..i])
    {
      lines := lines + [ExportRow(rows[i])];
      assert lines == ExportRows(rows[..i + 1]);
    }
    assert rows[..|rows|] == rows;
  }

  /** The INSERT loop: each row is copied into the history with its own
      id; the first id the history already has raises the integrity
      error that aborts the transaction. */
  method InsertRows(h: seq<HistRoll>, rows: seq<Roll>, now: string) returns (ok: bool, grown: seq<HistRoll>)
    requires IdsAscending(rows)
    ensures ok == NoConflict(h, rows)
    ensures ok ==> grown == h + Copies(rows, now)
  {
    grown := h;
    for i := 0 to |rows|
      invariant grown == h + Copies(rows[..i], now)
      invariant NoConflict(h, rows[..i])
    {
      if rows[i].id in HistIds(grown) {
        ConflictWithOldRow(h, rows, i, now);
        return false, grown;
      }
      ConflictFreeStep(h, rows, i, now);
      grown := grown + [HistRoll(rows[i], now)];
    }
    assert rows[..|rows|] == rows;
    ok := true;
  }

  /** The INSERT of row `i` conflicts only with a row the history had
      before: the rows copied so far carry other ids. */
  lemma ConflictWithOldRow(h: seq<HistRoll>, rows: seq<Roll>, i: int, now: string)
    requires IdsAscending(rows)
    requires 0 <= i < |rows|
    requires rows[i].id in HistIds(h + Copies(rows[..i], now))
    ensures !NoConflict(h, rows)
  {
    HistIdsAppend(h, rows[..i], now);
    forall r | r in rows[..i] ensures r.id != rows[i].id {
      var k :| 0 <= k < i && rows[k] == r;
    }
    assert rows[i] in rows;
  }

  /** The keys of the history after the copies are appended. */
  lemma HistIdsAppend(h: seq<HistRoll>, rows: seq<Roll>, now: string)
    ensures HistIds(h + Copies(rows, now)) == HistIds(h) + set r | r in rows :: r.id
  {
    var a := h + Copies(rows, now);
    forall x | x in HistIds(a) ensures x in HistIds(h) + set r | r in rows :: r.id {
      var j :| 0 <= j < |a| && a[j].row.id == x;
      if j < |h| {
        assert a[j] == h[j];
      } else {
        assert rows[j - |h|] in rows;
      }
    }
    forall x | x in HistIds(h) + set r | r in rows :: r.id ensures x in HistIds(a) {
      if x in HistIds(h) {
        var j :| 0 <= j < |h| && h[j].row.id == x;
        assert a[j] == h[j];
      } else {
        var r :| r in rows && r.id == x;
        var k :| 0 <= k < |rows| && rows[k] == r;
        assert a[|h| + k].row == r;
      }
    }
  }

  /** One more conflict-free INSERT, as the loop adds it. */
  lemma ConflictFreeStep(h: seq<HistRoll>, rows: seq<Roll>, i: int, now: string)
    requires 0 <= i < |rows|
    requires NoConflict(h, rows[..i])
    requires rows[i].id !in HistIds(h + Copies(rows[..i], now))
    ensures NoConflict(h, rows[..i + 1])
    ensures h + Copies(rows[..i], now) + [HistRoll(rows[i], now)] == h + Copies(rows[..i + 1], now)
  {
    var a := h + Copies(rows[..i], now);
    forall k | 0 <= k < |h| ensures h[k].row.id in HistIds(a) {
      assert a[k] == h[k];
    }
    assert HistIds(h) <= HistIds(a);
    assert rows[..i + 1] == rows[..i] + [rows[i]];
  }

  /** The export file and the history hold the same records: each line of
      the file reads back as the row copied into `bobina_h` beside it. */
  lemma ExportMatchesHistory(sel: seq<Roll>, now: string)
    ensures forall i :: 0 <= i < |sel| ==> ReadRow(ExportRows(sel)[i]) == Some(Copies(sel, now)[i].row)
  {
    forall i | 0 <= i < |sel| ensures ReadRow(ExportRows(sel)[i]) == Some(sel[i]) {
      ExportRowRoundTrip(sel[i]);
    }
  }

  /** When the history holds none of the live ids (as when every history
      row came from this operation, since AUTOINCREMENT never reuses an
      id), the INSERTs never conflict. */
  lemma DisjointIdsNoConflict(t: seq<Roll>, h: seq<HistRoll>, ids: seq<int>)
    requires forall r :: r in t ==> r.id !in HistIds(h)
    ensures NoConflict(h, WithIds(t, ids))
  {
  }

  /** A completed move keeps live and history ids apart. */
  lemma MoveKeepsIdsApart(t: seq<Roll>, h: seq<HistRoll>, ids: seq<int>, now: string)
    requires IdsAscending(t)
    requires forall r :: r in t ==> r.id !in HistIds(h)
    ensures forall r :: r in WithoutIds(t, ids) ==> r.id !in HistIds(h + Copies(WithIds(t, ids), now))
  {
    HistIdsAppend(h, WithIds(t, ids), now);
    WithIdsMembers(t, ids);
  }

  // ---------------------------------------------------------------------
  // The main screen
  // ---------------------------------------------------------------------

  /** Python's `str()` of a cell value as `apply_filters` sees it: None
      prints as "None". */
  function PyStr(v: Value, showReal: real -> string): string {
    match v
    case NullV => "None"
    case IntV(i) => Text.ShowInt(i)
    case RealV(x) => showReal(x)
    case TextV(s) => s
  }

  /** `filter_value in str(row[column]).lower()`. */
  predicate CellMatches(f: Filter, r: Roll, showReal: real -> string) {
    Text.Contains(Text.Lower(PyStr(Cell(r, f.column), showReal)), f.value)
  }

  predicate MatchesAll(filters: seq<Filter>, r: Roll, showReal: real -> string) {
    forall f :: f in filters ==> CellMatches(f, r, showReal)
  }

  /** The rows `apply_filters` keeps, in the order it received them. */
  function Kept(data: seq<Roll>, filters: seq<Filter>, showReal: real -> string): seq<Roll> {
    Where(data, (r: Roll) => MatchesAll(filters, r, showReal))
  }

  /** Filtering one more row of `data`. */
  lemma KeptSnoc(data: seq<Roll>, i: int, filters: seq<Filter>, showReal: real -> string)
    requires 0 <= i < |data|
    ensures Kept(data[..i + 1], filters, showReal)
         == Kept(data[..i], filters, showReal) + (if MatchesAll(filters, data[i], showReal) then [data[i]] else [])
  {
    var keep := (r: Roll) => MatchesAll(filters, r, showReal);
    assert data[..i + 1] == data[..i] + [data[i]];
    WhereConcat(data[..i], [data[i]], keep);
    assert [data[i]][1..] == [];
    assert Where([data[i]], keep) == if keep(data[i]) then [data[i]] else [];
  }

  /** The inner loop of `apply_filters` for one row: it stops at the
      first filter whose value is missing from the row's cell text. */
  method RowMatches(row: Roll, filters: seq<Filter>, showReal: real -> string) returns (matched: bool)
    ensures matched == MatchesAll(filters, row, showReal)
  {
    matched := true;
    for j := 0 to |filters|
      invariant forall k :: 0 <= k < j ==> CellMatches(filters[k], row, showReal)
    {
      var cell := Text.Lower(PyStr(Cell(row, filters[j].column), showReal));
      if !Text.Contains(cell, filters[j].value) {
        assert filters[j] in filters;
        return false;
      }
    }
    forall f | f in filters ensures CellMatches(f, row, showReal) {
      var k :| 0 <= k < |filters| && filters[k] == f;
    }
  }

  /** The outer loop of `apply_filters`: the rows that pass every filter,
      in the order they came. */
  method FilterInMemory(data: seq<Roll>, filters: seq<Filter>, showReal: real -> string) returns (filtered: seq<Roll>)
    ensures filtered == Kept(data, filters, showReal)
  {
    filtered := [];
    for i := 0 to |data|
      invariant filtered == Kept(data[..i], filters, showReal)
    {
      var matched := RowMatches(data[i], filters, showReal);
      KeptSnoc(data, i, filters, showReal);
      if matched {
        filtered := filtered + [data[i]];
      }
    }
    assert data[..|data|] == data;
  }

  /** On a text column, for a typed value without LIKE wildcards, the
      in-memory filter and the SQL filter of models/database_manager.py
      keep the same rows. */
  lemma InMemoryAgreesWithSql(f: Filter, r: Roll, showReal: real -> string)
    requires Text.NoWildcards(f.value) && f.value == Text.Lower(f.value)
    requires !IsMeasure(f.column) && !f.column.Id? && Cell(r, f.column).TextV?
    ensures CellMatches(f, r, showReal)
        <==> Text.Like(Text.Surround(f.value), Text.Lower(Cell(r, f.column).s))
  {
    var s := Cell(r, f.column).s;
    Text.LikeIsContains(f.value, Text.Lower(s));
    Text.LowerIdempotent(s);
  }

  /** Unlike SQL, where NULL matches nothing, an empty nullable column
      reads as "None", so the filter "none" keeps it. */
  lemma NullReadsAsNone(r: Roll, showReal: real -> string)
    requires r.sec.None?
    ensures CellMatches(Filter(Sec, "none"), r, showReal)
  {
    assert Text.Lower("None") == "none";
    assert Text.OccursAt("none", "none", 0);
    Text.ContainsAt("none", "none");
  }

  /** The confirmation `confirm_export` asks for. */
  datatype Prompt = NothingToExport | ConfirmMove(count: nat)

  class MainScreen {
    const db: DatabaseManager
    /** The rows of the data table. */
    var rows: seq<TableRow>
    /** `selected_ids`, in the order the ids were checked. */
    var selectedIds: seq<int>
    /** Whether "Generar Archivo" is disabled. */
    var generateDisabled: bool

    ghost predicate Valid()
      reads this, db
    {
      db.Valid() && Distinct(selectedIds) && Distinct(RowIds(rows))
    }

    /** The screen as built: an empty table, nothing selected, and the
        button enabled (it is created without `disabled`). */
    constructor (db: DatabaseManager)
      requires db.Valid()
      ensures Valid()
      ensures this.db == db && rows == [] && selectedIds == [] && !generateDisabled
    {
      this.db := db;
      rows, selectedIds, generateDisabled := [], [], false;
    }

    /** `load_data` followed by `update_table`: every record, unchecked; the
        selection is left as it was. */
    method LoadData()
      requires Valid()
      modifies this
      ensures Valid()
      ensures rows == FreshRows(db.bobina)
      ensures selectedIds == old(selectedIds) && generateDisabled == old(generateDisabled)
    {
      var data := db.GetAllBobinas();
      SelectAllDistinct(data);
      rows := FreshRows(data);
    }

    /** `checkbox_changed` for the checkbox of row `i`. */
    method CheckboxChanged(i: int, checked: bool)
      requires Valid()
      requires 0 <= i < |rows|
      modifies this
      ensures Valid()
      ensures rows == old(rows)[i := old(rows)[i].(checked := checked)]
      ensures selectedIds == Toggle(old(selectedIds), old(rows)[i].record.id, checked)
      ensures generateDisabled <==> selectedIds == []
    {
      var id := rows[i].record.id;
      rows := rows[i := rows[i].(checked := checked)];
      assert RowIds(rows) == RowIds(old(rows));
      ToggleSpec(selectedIds, id, checked);
      if checked {
        if id !in selectedIds {
          selectedIds := selectedIds + [id];
        }
      } else {
        if id in selectedIds {
          selectedIds := RemoveFirst(selectedIds, id);
        }
      }
      generateDisabled := |selectedIds| == 0;
    }

    /** `select_all_changed`. */
    method SelectAllChanged(checked: bool)
      requires Valid()
      modifies this
      ensures Valid()
      ensures |rows| == |old(rows)|
      ensures forall k :: 0 <= k < |rows| ==> rows[k] == old(rows)[k].(checked := checked)
      ensures selectedIds == if checked then RowIds(old(rows)) else []
      ensures generateDisabled <==> selectedIds == []
    {
      var newRows, selected := SelectAll(rows, checked);
      assert RowIds(newRows) == RowIds(rows);
      rows, selectedIds := newRows, selected;
      generateDisabled := |selectedIds| == 0;
    }

    /** `apply_filters`: with no filled field, `load_data`; otherwise every
        record that passes the in-memory filter, in storage order. */
    method ApplyFilters(fields: seq<Option<string>>, showReal: real -> string)
      requires Valid()
      requires |fields| == |Columns|
      modifies this
      ensures Valid()
      ensures var filters := ActiveFilters(fields);
              rows == FreshRows(if filters == [] then db.bobina else Kept(db.bobina, filters, showReal))
      ensures selectedIds == old(selectedIds) && generateDisabled == old(generateDisabled)
    {
      var filters := BuildFilters(fields);
      if filters == [] {
        LoadData();
        return;
      }
      var data := db.GetAllBobinas();
      var filtered := FilterInMemory(data, filters, showReal);
      WhereAscending(data, (r: Roll) => MatchesAll(filters, r, showReal));
      SelectAllDistinct(filtered);
      rows := FreshRows(filtered);
    }

    /** `confirm_export`: a warning when nothing is selected, otherwise a
        confirmation that names how many records will move. */
    method ConfirmExport() returns (prompt: Prompt)
      ensures selectedIds == [] ==> prompt == NothingToExport
      ensures selectedIds != [] ==> prompt == ConfirmMove(|selectedIds|)
    {
      if selectedIds == [] {
        return NothingToExport;
      }
      return ConfirmMove(|selectedIds|);
    }

    /** `export_data` after "Continuar": the store's move and export of the
        selection; the screen itself is unchanged until `process_result`. */
    method ExportData(stamp: string, now: string, writeOk: bool, fault: bool) returns (ok: bool, outcome: Outcome)
      requires Valid()
      modifies db
      ensures Valid()
      ensures selectedIds == [] ==>
                !ok && outcome == NothingSelected && db.bobina == old(db.bobina)
                && db.bobinaH == old(db.bobinaH) && db.files == old(db.files)
      ensures selectedIds != [] && WithIds(old(db.bobina), selectedIds) == [] ==>
                !ok && outcome == NotFound && db.bobina == old(db.bobina)
                && db.bobinaH == old(db.bobinaH) && db.files == old(db.files)
      ensures var sel := WithIds(old(db.bobina), selectedIds);
              selectedIds != [] && sel != [] ==>
                && db.files == (if writeOk
                                then old(db.files)[ExportFileName(stamp) := CsvFile(ExportHeader, ExportRows(sel))]
                                else old(db.files))
                && ok == (writeOk && !fault && NoConflict(old(db.bobinaH), sel))
                && (ok ==> outcome == Completed(|sel|, ExportFileName(stamp))
                           && db.bobina == WithoutIds(old(db.bobina), selectedIds)
                           && db.bobinaH == old(db.bobinaH) + Copies(sel, now))
                && (!ok ==> outcome == Failed && db.bobina == old(db.bobina) && db.bobinaH == old(db.bobinaH))
    {
      ok, outcome := db.MoveToHistoryAndExport(selectedIds, stamp, now, writeOk, fault);
    }

    /** `process_result` after "Aceptar": on success the selection is
        cleared and the table reloaded. */
    method ProcessResult(success: bool)
      requires Valid()
      modifies this
      ensures Valid()
      ensures success ==> selectedIds == [] && rows == FreshRows(db.bobina)
      ensures !success ==> rows == old(rows) && selectedIds == old(selectedIds)
      ensures generateDisabled == old(generateDisabled)
    {
      if success {
        selectedIds := [];
        LoadData();
      }
    }
  }

  /** After a completed export and reload, no table row shows a moved id. */
  lemma ReloadShowsNoMovedId(t: seq<Roll>, ids: seq<int>)
    ensures forall row :: row in FreshRows(WithoutIds(t, ids)) ==> row.record.id !in ids
  {
    var rest := WithoutIds(t, ids);
    forall row | row in FreshRows(rest) ensures row.record.id !in ids {
      var k :| 0 <= k < |FreshRows(rest)| && FreshRows(rest)[k] == row;
      assert rest[k] in rest;
    }
  }
}
