/** views/main_screen.py: the main screen over the store of
    models/database_manager.py. It shows the live records newest first,
    lets the user filter them (in the store), check rows, export the
    checked rows to a CSV file and move them to the history, delete them,
    or add a new record through a form. */
module Views {

  import opened Options
  import opened Rolls
  import opened Screen
  import Text
  import ModelsDb

  // ---------------------------------------------------------------------
  // The new-record form
  // ---------------------------------------------------------------------

  /** The eleven text fields of the form, as `save_new_record` receives
      them; a field never typed in is None. */
  datatype Form = Form(
    turno: Option<string>,
    ancho: Option<string>,
    diametro: Option<string>,
    gramaje: Option<string>,
    peso: Option<string>,
    bobinaNum: Option<string>,
    sec: Option<string>,
    of: Option<string>,
    fecha: Option<string>,
    codcal: Option<string>,
    desccal: Option<string>)

  /** Why the form was refused: the label of a required field left empty
      ("El campo <label> es obligatorio."), or a measure that is not a
      number ("Los campos numéricos deben contener valores válidos."). */
  datatype FormError = Missing(field: string) | NotNumeric

  datatype Checked = Accepted(data: NewRoll) | Rejected(error: FormError)

  /** The required fields with their labels, in the order they are
      checked. */
  function Required(f: Form): (fields: seq<(Option<string>, string)>)
    ensures |fields| == 8
  {
    [(f.turno, "Turno"), (f.ancho, "Ancho"), (f.diametro, "Diámetro"), (f.gramaje, "Gramaje"),
     (f.peso, "Peso"), (f.bobinaNum, "Bobina Num"), (f.of, "OF"), (f.fecha, "Fecha")]
  }

  /** The label of the first field left empty, if any. */
  function FirstMissing(fields: seq<(Option<string>, string)>): (missing: Option<string>)
    ensures missing.None? <==> forall i :: 0 <= i < |fields| ==> Filled(fields[i].0)
    ensures missing.Some? ==>
              exists i :: 0 <= i < |fields| && !Filled(fields[i].0) && fields[i].1 == missing.value
                          && forall j :: 0 <= j < i ==> Filled(fields[j].0)
  {
    if fields == [] then None
    else if !Filled(fields[0].0) then Some(fields[0].1)
    else
      var rest := FirstMissing(fields[1..]);
      if rest.Some? then
        var i :| 0 <= i < |fields[1..]| && !Filled(fields[1..][i].0) && fields[1..][i].1 == rest.value
                 && forall j :: 0 <= j < i ==> Filled(fields[1..][j].0);
        assert fields[i + 1] == fields[1..][i];
        rest
      else
        assert forall i :: 1 <= i < |fields| ==> fields[i] == fields[1..][i - 1];
        rest
  }

  /** What `save_new_record` makes of the form: the record to add, or the
      first reason to refuse it. */
  function Validate(f: Form): Checked {
    var fields := Required(f);
    var missing := FirstMissing(fields);
    if missing.Some? then Rejected(Missing(missing.value))
    else
      assert Filled(fields[1].0) && Filled(fields[2].0) && Filled(fields[3].0) && Filled(fields[4].0);
      assert Filled(fields[0].0) && Filled(fields[5].0) && Filled(fields[6].0) && Filled(fields[7].0);
      var ancho := Text.ParseFloat(f.ancho.value);
      var diametro := Text.ParseFloat(f.diametro.value);
      var gramaje := Text.ParseFloat(f.gramaje.value);
      var peso := Text.ParseFloat(f.peso.value);
      if ancho.Some? && diametro.Some? && gramaje.Some? && peso.Some? then
        Accepted(NewRoll(f.turno.value, ancho.value, diametro.value, gramaje.value, peso.value,
                         f.bobinaNum.value, f.sec, f.of.value, f.fecha.value, f.codcal, f.desccal))
      else Rejected(NotNumeric)
  }

  /** The first empty field is the one reported. */
  lemma {:induction false} FirstMissingAt(fields: seq<(Option<string>, string)>, i: int)
    requires 0 <= i < |fields| && !Filled(fields[i].0)
    requires forall j :: 0 <= j < i ==> Filled(fields[j].0)
    ensures FirstMissing(fields) == Some(fields[i].1)
  {
    if i > 0 {
      FirstMissingAt(fields[1..], i - 1);
    }
  }

  /** The checks of `save_new_record` before anything is saved: the loop
      over the required fields stops at the first empty one, then the four
      measures are converted. */
  method ValidateForm(f: Form) returns (checked: Checked)
    ensures checked == Validate(f)
  {
    var fields := Required(f);
    for i := 0 to |fields|
      invariant forall j :: 0 <= j < i ==> Filled(fields[j].0)
    {
      var (value, name) := fields[i];
      if value.None? || value.value == "" {
        FirstMissingAt(fields, i);
        return Rejected(Missing(name));
      }
    }
    assert Filled(fields[0].0) && Filled(fields[1].0) && Filled(fields[2].0) && Filled(fields[3].0);
    assert Filled(fields[4].0) && Filled(fields[5].0) && Filled(fields[6].0) && Filled(fields[7].0);
    var ancho := Text.ParseFloat(f.ancho.value);
    var diametro := Text.ParseFloat(f.diametro.value);
    var gramaje := Text.ParseFloat(f.gramaje.value);
    var peso := Text.ParseFloat(f.peso.value);
    if ancho.None? || diametro.None? || gramaje.None? || peso.None? {
      return Rejected(NotNumeric);
    }
    checked := Accepted(NewRoll(f.turno.value, ancho.value, diametro.value, gramaje.value, peso.value,
                                f.bobinaNum.value, f.sec, f.of.value, f.fecha.value, f.codcal, f.desccal));
  }

  /** Every required field of the form holds text. */
  predicate AllFilled(f: Form) {
    && Filled(f.turno) && Filled(f.ancho) && Filled(f.diametro) && Filled(f.gramaje)
    && Filled(f.peso) && Filled(f.bobinaNum) && Filled(f.of) && Filled(f.fecha)
  }

  /** No required field is reported missing exactly when all are filled. */
  lemma RequiredFilled(f: Form)
    ensures FirstMissing(Required(f)).None? <==> AllFilled(f)
  {
    var fields := Required(f);
    if FirstMissing(fields).None? {
      assert Filled(fields[0].0) && Filled(fields[1].0) && Filled(fields[2].0) && Filled(fields[3].0);
      assert Filled(fields[4].0) && Filled(fields[5].0) && Filled(fields[6].0) && Filled(fields[7].0);
    } else {
      var i :| 0 <= i < |fields| && !Filled(fields[i].0);
    }
  }

  /** The form is accepted exactly when every required field is filled and
      every measure is a number. */
  lemma ValidateAccepts(f: Form)
    ensures Validate(f).Accepted? <==>
              && AllFilled(f)
              && Text.ParseFloat(f.ancho.value).Some? && Text.ParseFloat(f.diametro.value).Some?
              && Text.ParseFloat(f.gramaje.value).Some? && Text.ParseFloat(f.peso.value).Some?
  {
    RequiredFilled(f);
  }

  /** A record whose text fields are filled and whose measures are whole
      numbers, typed into the form as digits, is accepted unchanged. */
  lemma FormRoundTrip(d: NewRoll, ancho: nat, diametro: nat, gramaje: nat, peso: nat)
    requires d.turno != "" && d.bobinaNum != "" && d.of != "" && d.fecha != ""
    requires d.ancho == ancho as real && d.diametro == diametro as real
    requires d.gramaje == gramaje as real && d.peso == peso as real
    ensures Validate(Form(Some(d.turno), Some(Text.ShowNat(ancho)), Some(Text.ShowNat(diametro)),
                          Some(Text.ShowNat(gramaje)), Some(Text.ShowNat(peso)), Some(d.bobinaNum),
                          d.sec, Some(d.of), Some(d.fecha), d.codcal, d.desccal)) == Accepted(d)
  {
    var f := Form(Some(d.turno), Some(Text.ShowNat(ancho)), Some(Text.ShowNat(diametro)),
                  Some(Text.ShowNat(gramaje)), Some(Text.ShowNat(peso)), Some(d.bobinaNum),
                  d.sec, Some(d.of), Some(d.fecha), d.codcal, d.desccal);
    Text.ParseShowNat(ancho);
    Text.ParseShowNat(diametro);
    Text.ParseShowNat(gramaje);
    Text.ParseShowNat(peso);
    RequiredFilled(f);
  }

  // ---------------------------------------------------------------------
  // What the table shows
  // ---------------------------------------------------------------------

  /** The records `apply_filters` puts in the table: with no usable
      condition the store returns every record, otherwise the matching
      ones, newest first. A failing query leaves the table empty, since
      `update_table` clears it before it reads the (missing) result. */
  function Shown(t: seq<Roll>, filters: seq<Filter>, fault: bool): seq<Roll> {
    if fault then []
    else if ModelsDb.Conditions(filters) == [] then NewestFirst(t)
    else NewestFirst(ModelsDb.Matching(t, ModelsDb.Conditions(filters)))
  }

  /** After a successful query the table holds, newest first, exactly the
      records every filter keeps. */
  lemma ShownMeaning(t: seq<Roll>, filters: seq<Filter>)
    requires IdsAscending(t)
    requires forall f :: f in filters ==> Text.NoWildcards(f.value)
    ensures IdsDescending(Shown(t, filters, false))
    ensures forall x :: x in Shown(t, filters, false) <==> x in t && ModelsDb.KeepsAll(filters, x)
  {
    ModelsDb.FilterResult(t, filters);
  }

  /** The rows `Shown` lists have distinct ids. */
  lemma ShownDistinct(t: seq<Roll>, filters: seq<Filter>, fault: bool)
    requires IdsAscending(t)
    ensures IdsDescending(Shown(t, filters, fault))
  {
    if !fault {
      ModelsDb.MatchingAscending(t, ModelsDb.Conditions(filters));
      NewestFirstSpec(ModelsDb.Matching(t, ModelsDb.Conditions(filters)));
      NewestFirstSpec(t);
    }
  }

  /** The header `export_process` writes. */
  const ExportFields: seq<string> :=
    ["id", "turno", "ancho", "diametro", "gramaje", "peso", "bobina_num", "sec", "of",
     "fecha", "codcal", "desccal", "created_at"]

  /** The export file's name for a `%Y%m%d_%H%M%S` timestamp. */
  function ExportFileName(stamp: string): string {
    "export_" + stamp + ".csv"
  }

  /** Each record in the export file reads back as the live record, and
      the history row archived for it holds the same data under a new id. */
  lemma ExportMatchesHistory(t: seq<Roll>, h: seq<HistRoll>, ids: seq<int>, now: string)
    ensures var sel := WithIds(t, ids);
            var a := ModelsDb.Archive(h, sel, now);
            forall i :: 0 <= i < |sel| ==>
              ReadRow(ExportRows(sel)[i]) == Some(sel[i]) && SameContent(a[|h| + i].row, sel[i])
  {
    var sel := WithIds(t, ids);
    ModelsDb.ArchiveSpec(h, sel, now);
    forall i | 0 <= i < |sel| ensures ReadRow(ExportRows(sel)[i]) == Some(sel[i]) {
      ExportRowRoundTrip(sel[i]);
    }
  }

  /** A confirmation dialog: a warning when nothing is selected, otherwise
      the number of records the action will take. */
  datatype Prompt = NothingSelected | Confirm(count: nat)

  class MainScreen {
    const db: ModelsDb.DatabaseManager
    /** The rows of the data table. */
    var rows: seq<TableRow>
    /** `selected_ids`, in the order the ids were checked. */
    var selectedIds: seq<int>
    /** Whether "Generar Archivo" is disabled. */
    var generateDisabled: bool
    /** Whether "Eliminar" is disabled. */
    var deleteDisabled: bool
    /** The files of the `exports` directory, by name. */
    var files: map<string, CsvFile>

    ghost predicate Valid()
      reads this, db
    {
      db.Valid() && Distinct(selectedIds) && Distinct(RowIds(rows))
    }

    /** The screen as built, before it is mounted: an empty table, nothing
        selected, both buttons disabled. */
    constructor (db: ModelsDb.DatabaseManager, dir: map<string, CsvFile>)
      requires db.Valid()
      ensures Valid()
      ensures this.db == db && rows == [] && selectedIds == [] && files == dir
      ensures generateDisabled && deleteDisabled
    {
      this.db := db;
      rows, selectedIds, files := [], [], dir;
      generateDisabled, deleteDisabled := true, true;
    }

    /** `load_data` (also run by `did_mount`) followed by `update_table`:
        every record newest first, unchecked; a failing query shows none.
        The selection is left as it was. */
    method LoadData(fault: bool)
      requires Valid()
      modifies this
      ensures Valid()
      ensures rows == FreshRows(if fault then [] else NewestFirst(db.bobina))
      ensures selectedIds == old(selectedIds) && files == old(files)
      ensures generateDisabled == old(generateDisabled) && deleteDisabled == old(deleteDisabled)
    {
      var data := db.GetAllBobinas(fault);
      NewestFirstSpec(db.bobina);
      SelectAllDistinct(data);
      rows := FreshRows(data);
    }

    /** `checkbox_changed` for the checkbox of row `i`: the selection gains
        or loses that row's id, and both buttons are enabled exactly when
        something is selected. */
    method CheckboxChanged(i: int, checked: bool)
      requires Valid()
      requires 0 <= i < |rows|
      modifies this
      ensures Valid()
      ensures rows == old(rows)[i := old(rows)[i].(checked := checked)]
      ensures selectedIds == Toggle(old(selectedIds), old(rows)[i].record.id, checked)
      ensures generateDisabled == deleteDisabled == (selectedIds == [])
      ensures files == old(files)
    {
      var id := rows[i].record.id;
      rows := rows[i := rows[i].(checked := checked)];
      assert RowIds(rows) == RowIds(old(rows));
      ToggleSpec(selectedIds, id, checked);
      if checked {
        if id !in selectedIds {
          selectedIds := selectedIds + [id];
        }
      } else {
        if id in selectedIds {
          selectedIds := RemoveFirst(selectedIds, id);
        }
      }
      var hasSelections := |selectedIds| > 0;
      generateDisabled := !hasSelections;
      deleteDisabled := !hasSelections;
    }

    /** `select_all_changed`: every row takes the header checkbox's value
        and the selection becomes every shown id, or nothing. */
    method SelectAllChanged(checked: bool)
      requires Valid()
      modifies this
      ensures Valid()
      ensures |rows| == |old(rows)|
      ensures forall k :: 0 <= k < |rows| ==> rows[k] == old(rows)[k].(checked := checked)
      ensures selectedIds == if checked then RowIds(old(rows)) else []
      ensures generateDisabled == deleteDisabled == (selectedIds == [])
      ensures files == old(files)
    {
      var newRows, selected := SelectAll(rows, checked);
      assert RowIds(newRows) == RowIds(rows);
      rows, selectedIds := newRows, selected;
      var hasSelections := |selectedIds| > 0;
      generateDisabled := !hasSelections;
      deleteDisabled := !hasSelections;
    }

    /** `apply_filters`: the filled search fields, lowercased, go to the
        store's `filter_bobinas` (or, when none is filled, `load_data`
        runs), and the table shows the result. When the store returns None,
        `update_table` clears the table before it fails on the missing
        list, so the table is left empty. */
    method ApplyFilters(fields: seq<Option<string>>, connectFault: bool, queryFault: bool)
      requires Valid()
      requires |fields| == |Columns|
      modifies this
      ensures Valid()
      ensures rows == FreshRows(Shown(db.bobina, ActiveFilters(fields), connectFault || queryFault))
      ensures selectedIds == old(selectedIds) && files == old(files)
      ensures generateDisabled == old(generateDisabled) && deleteDisabled == old(deleteDisabled)
    {
      var fault := connectFault || queryFault;
      var filters := BuildFilters(fields);
      if filters == [] {
        assert ModelsDb.Conditions(filters) == [];
        LoadData(fault);
        return;
      }
      var result := db.FilterBobinas(filters, connectFault, queryFault);
      var data := if result.Some? then result.value else [];
      assert data == Shown(db.bobina, filters, fault);
      ShownDistinct(db.bobina, filters, fault);
      SelectAllDistinct(data);
      rows := FreshRows(data);
    }

    /** `confirm_export` and `confirm_delete` ask the same question. */
    function ConfirmSelection(): (p: Prompt)
      reads this
      ensures p == NothingSelected <==> selectedIds == []
      ensures p.Confirm? ==> p.count == |selectedIds| > 0
    {
      if selectedIds == [] then NothingSelected else Confirm(|selectedIds|)
    }

    /** `export_data` after "Continuar": `export_process` reads the checked
        records, writes them to the export file, then asks the store to move
        them to the history; on success the selection is cleared. A failure
        to write the file stops it before the move. */
    method ExportProcess(stamp: string, now: string, readFault: bool, writeOk: bool, moveFault: bool)
      returns (ok: bool)
      requires Valid()
      modifies this, db
      ensures Valid()
      ensures var sel := WithIds(old(db.bobina), old(selectedIds));
              && files == (if writeOk
                           then old(files)[ExportFileName(stamp) :=
                                  CsvFile(ExportFields, ExportRows(if readFault then [] else sel))]
                           else old(files))
              && ok == (writeOk && !moveFault && (db.hasHistory || sel == []))
              && (ok ==> selectedIds == []
                         && db.bobina == WithoutIds(old(db.bobina), old(selectedIds))
                         && db.bobinaH == ModelsDb.Archive(old(db.bobinaH), sel, now))
              && (!ok ==> selectedIds == old(selectedIds)
                          && db.bobina == old(db.bobina) && db.bobinaH == old(db.bobinaH))
      ensures rows == old(rows)
      ensures generateDisabled == old(generateDisabled) && deleteDisabled == old(deleteDisabled)
      ensures db.seqBobina == old(db.seqBobina) && db.hasHistory == old(db.hasHistory)
    {
      var selected := db.GetBobinasByIds(selectedIds, readFault);
      if !writeOk {
        return false;
      }
      var name := ExportFileName(stamp);
      var lines := ExportRows(selected);
      files := files[name := CsvFile(ExportFields, lines)];
      ok := db.MoveToHistoric(selectedIds, now, moveFault);
      if ok {
        selectedIds := [];
      }
    }

    /** `reload_after_export`: the table is reloaded and both buttons are
        disabled. */
    method ReloadAfterExport(fault: bool)
      requires Valid()
      modifies this
      ensures Valid()
      ensures rows == FreshRows(if fault then [] else NewestFirst(db.bobina))
      ensures generateDisabled && deleteDisabled
      ensures selectedIds == old(selectedIds) && files == old(files)
    {
      LoadData(fault);
      generateDisabled, deleteDisabled := true, true;
    }

    /** `delete_records` after "Eliminar": `delete_process` asks the store
        to delete the checked records; on success the selection is
        cleared. */
    method DeleteProcess(fault: bool) returns (ok: bool)
      requires Valid()
      modifies this, db
      ensures Valid()
      ensures ok == !fault
      ensures ok ==> selectedIds == [] && db.bobina == WithoutIds(old(db.bobina), old(selectedIds))
      ensures !ok ==> selectedIds == old(selectedIds) && db.bobina == old(db.bobina)
      ensures db.bobinaH == old(db.bobinaH) && db.seqBobina == old(db.seqBobina)
      ensures db.hasHistory == old(db.hasHistory)
      ensures rows == old(rows) && files == old(files)
      ensures generateDisabled == old(generateDisabled) && deleteDisabled == old(deleteDisabled)
    {
      ok := db.DeleteBobinas(selectedIds, fault);
      if ok {
        selectedIds := [];
      }
    }

    /** `reload_after_delete`: the table is reloaded; the buttons keep the
        state they had. */
    method ReloadAfterDelete(fault: bool)
      requires Valid()
      modifies this
      ensures Valid()
      ensures rows == FreshRows(if fault then [] else NewestFirst(db.bobina))
      ensures generateDisabled == old(generateDisabled) && deleteDisabled == old(deleteDisabled)
      ensures selectedIds == old(selectedIds) && files == old(files)
    {
      LoadData(fault);
    }

    /** `save_new_record`: a refused form changes nothing; an accepted one
        is added by the store's `add_bobina`. */
    method SaveNewRecord(f: Form, now: string, fault: bool) returns (checked: Checked, ok: bool)
      requires Valid()
      modifies db
      ensures Valid()
      ensures checked == Validate(f)
      ensures ok == (checked.Accepted? && !fault)
      ensures ok ==> db.bobina == old(db.bobina) + [Stored(old(db.seqBobina) + 1, checked.data, now)]
                     && db.seqBobina == old(db.seqBobina) + 1
      ensures !ok ==> db.bobina == old(db.bobina) && db.seqBobina == old(db.seqBobina)
      ensures db.bobinaH == old(db.bobinaH) && db.hasHistory == old(db.hasHistory)
    {
      checked := ValidateForm(f);
      if checked.Rejected? {
        return checked, false;
      }
      var data := checked.data;
      ok := db.AddBobina(data, now, fault);
    }

    /** `reload_after_save`: the table is reloaded. */
    method ReloadAfterSave(fault: bool)
      requires Valid()
      modifies this
      ensures Valid()
      ensures rows == FreshRows(if fault then [] else NewestFirst(db.bobina))
      ensures generateDisabled == old(generateDisabled) && deleteDisabled == old(deleteDisabled)
      ensures selectedIds == old(selectedIds) && files == old(files)
    {
      LoadData(fault);
    }
  }

  /** After an export the reloaded table shows none of the moved ids. */
  lemma ReloadShowsNoMovedId(t: seq<Roll>, ids: seq<int>)
    ensures forall row :: row in FreshRows(NewestFirst(WithoutIds(t, ids))) ==> row.record.id !in ids
  {
    var rest := WithoutIds(t, ids);
    var shown := FreshRows(NewestFirst(rest));
    forall row | row in shown ensures row.record.id !in ids {
      var k :| 0 <= k < |shown| && shown[k] == row;
      assert rest[|rest| - 1 - k] in rest;
    }
  }
}
