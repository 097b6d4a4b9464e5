/** Value-level logic that both main screens (views/main_screen.py and the
    MainScreen of app_comp.py) run in the same way: turning the search
    fields into a filter map, the rows the table shows, and the updates of
    `selected_ids` behind the row checkboxes and the select-all checkbox. */
module Screen {

  import opened Options
  import opened Rolls
  import Text

  // ---------------------------------------------------------------------
  // Search fields -> filter map
  // ---------------------------------------------------------------------

  /** One entry of the filter map: a column and its lowercased text. */
  datatype Filter = Filter(column: Column, value: string)

  /** Python's `if field.value:` on a text field, which holds None or a
      string. */
  predicate Filled(v: Option<string>) {
    v.Some? && v.value != ""
  }

  /** The filter map built from the search fields, one field per column
      in `Columns` order: the filled fields, in that order, lowercased. */
  function ActiveFilters(fields: seq<Option<string>>): seq<Filter>
    requires |fields| <= |Columns|
  {
    if fields == [] then []
    else
      var k := |fields| - 1;
      ActiveFilters(fields[..k])
        + (if Filled(fields[k]) then [Filter(Columns[k], Text.Lower(fields[k].value))] else [])
  }

  /** The filter map holds exactly the filled search fields, lowercased;
      it is empty iff no field is filled. */
  lemma ActiveFiltersSpec(fields: seq<Option<string>>)
    requires |fields| <= |Columns|
    ensures forall i :: 0 <= i < |fields| && Filled(fields[i]) ==>
              Filter(Columns[i], Text.Lower(fields[i].value)) in ActiveFilters(fields)
    ensures forall f :: f in ActiveFilters(fields) ==>
              exists i :: 0 <= i < |fields| && Filled(fields[i]) && f == Filter(Columns[i], Text.Lower(fields[i].value))
    ensures ActiveFilters(fields) == [] <==> forall i :: 0 <= i < |fields| ==> !Filled(fields[i])
  {
    ActiveFiltersComplete(fields);
    ActiveFiltersSound(fields);
    if ActiveFilters(fields) != [] {
      var f := ActiveFilters(fields)[0];
      assert f in ActiveFilters(fields);
    }
  }

  lemma {:induction false} ActiveFiltersComplete(fields: seq<Option<string>>)
    requires |fields| <= |Columns|
    ensures forall i :: 0 <= i < |fields| && Filled(fields[i]) ==>
              Filter(Columns[i], Text.Lower(fields[i].value)) in ActiveFilters(fields)
  {
    if fields != [] {
      var k := |fields| - 1;
      var init := fields[..k];
      ActiveFiltersComplete(init);
      var last := if Filled(fields[k]) then [Filter(Columns[k], Text.Lower(fields[k].value))] else [];
      assert ActiveFilters(fields) == ActiveFilters(init) + last;
      forall i | 0 <= i < |fields| && Filled(fields[i])
        ensures Filter(Columns[i], Text.Lower(fields[i].value)) in ActiveFilters(fields)
      {
        if i < k {
          assert init[i] == fields[i];
          assert Filter(Columns[i], Text.Lower(init[i].value)) in ActiveFilters(init);
        } else {
          assert Filter(Columns[i], Text.Lower(fields[i].value)) in last;
        }
      }
    }
  }

  lemma {:induction false} ActiveFiltersSound(fields: seq<Option<string>>)
    requires |fields| <= |Columns|
    ensures forall f :: f in ActiveFilters(fields) ==>
              exists i :: 0 <= i < |fields| && Filled(fields[i]) && f == Filter(Columns[i], Text.Lower(fields[i].value))
  {
    if fields != [] {
      var k := |fields| - 1;
      var init := fields[..k];
      ActiveFiltersSound(init);
      forall f | f in ActiveFilters(fields)
        ensures exists i :: 0 <= i < |fields| && Filled(fields[i]) && f == Filter(Columns[i], Text.Lower(fields[i].value))
      {
        if f in ActiveFilters(init) {
          var i :| 0 <= i < |init| && Filled(init[i]) && f == Filter(Columns[i], Text.Lower(init[i].value));
          assert init[i] == fields[i];
        } else {
          assert Filled(fields[k]) && f == Filter(Columns[k], Text.Lower(fields[k].value));
        }
      }
    }
  }

  /** The loop of `apply_filters` that collects the filled search fields. */
  method BuildFilters(fields: seq<Option<string>>) returns (filters: seq<Filter>)
    requires |fields| == |Columns|
    ensures filters == ActiveFilters(fields)
  {
    filters := [];
    for i := 0 to |fields|
      invariant filters == ActiveFilters(fields[..i])
    {
      assert fields[..i + 1][..i] == fields[..i];
      if fields[i].Some? && fields[i].value != "" {
        filters := filters + [Filter(Columns[i], Text.Lower(fields[i].value))];
      }
    }
    assert fields[..|fields|] == fields;
  }

  // ---------------------------------------------------------------------
  // Table rows
  // ---------------------------------------------------------------------

  /** A row of the data table: the record and its checkbox. */
  datatype TableRow = TableRow(record: Roll, checked: bool)

  /** `update_table`: one unchecked row per record, in the given order. */
  function FreshRows(data: seq<Roll>): (rows: seq<TableRow>)
    ensures |rows| == |data|
    ensures forall i :: 0 <= i < |data| ==> rows[i] == TableRow(data[i], false)
  {
    if data == [] then [] else [TableRow(data[0], false)] + FreshRows(data[1..])
  }

  function RowIds(rows: seq<TableRow>): (ids: seq<int>)
    ensures |ids| == |rows|
    ensures forall i :: 0 <= i < |rows| ==> ids[i] == rows[i].record.id
  {
    if rows == [] then [] else [rows[0].record.id] + RowIds(rows[1..])
  }

  // ---------------------------------------------------------------------
  // selected_ids
  // ---------------------------------------------------------------------

  predicate Distinct(s: seq<int>) {
    forall i, j :: 0 <= i < j < |s| ==> s[i] != s[j]
  }

  /** Python's `list.remove(x)` for an `x` in the list: drops its first
      occurrence. */
  function RemoveFirst(s: seq<int>, x: int): seq<int> {
    if s == [] then []
    else if s[0] == x then s[1..]
    else [s[0]] + RemoveFirst(s[1..], x)
  }

  /** On a duplicate-free list, removing `x` keeps every other element and
      only those, still duplicate-free. */
  lemma {:induction false} RemoveFirstSpec(s: seq<int>, x: int)
    requires Distinct(s)
    ensures Distinct(RemoveFirst(s, x))
    ensures forall y :: y in RemoveFirst(s, x) <==> y in s && y != x
  {
    if s != [] {
      assert Distinct(s[1..]) by {
        forall i, j | 0 <= i < j < |s[1..]| ensures s[1..][i] != s[1..][j] {
          assert s[1..][i] == s[i + 1] && s[1..][j] == s[j + 1];
        }
      }
      if s[0] == x {
        assert forall y :: y in s[1..] ==> y != x by {
          forall y | y in s[1..] ensures y != x {
            var j :| 0 <= j < |s[1..]| && s[1..][j] == y;
            assert s[j + 1] == y;
          }
        }
      } else {
        RemoveFirstSpec(s[1..], x);
        var r := RemoveFirst(s[1..], x);
        forall j | 0 <= j < |s[1..]| ensures s[1..][j] != s[0] {
          assert s[1..][j] == s[j + 1];
        }
        var res := [s[0]] + r;
        forall i, j | 0 <= i < j < |res| ensures res[i] != res[j] {
          if i == 0 {
            assert res[j] == r[j - 1] && r[j - 1] in r;
          } else {
            assert res[i] == r[i - 1] && res[j] == r[j - 1];
          }
        }
        assert s == [s[0]] + s[1..];
      }
    }
  }

  /** `checkbox_changed`'s update of `selected_ids`: checking appends the
      id unless it is already there; unchecking removes it if it is there. */
  function Toggle(selected: seq<int>, id: int, checked: bool): seq<int> {
    if checked then
      if id in selected then selected else selected + [id]
    else
      if id in selected then RemoveFirst(selected, id) else selected
  }

  /** The selection stays duplicate-free, and afterwards holds the old
      selection with `id` added (checked) or taken away (unchecked). */
  lemma ToggleSpec(selected: seq<int>, id: int, checked: bool)
    requires Distinct(selected)
    ensures Distinct(Toggle(selected, id, checked))
    ensures forall x :: x in Toggle(selected, id, checked) <==>
              (x in selected && x != id) || (checked && x == id)
    ensures checked && id !in selected ==> Toggle(selected, id, checked) == selected + [id]
  {
    if !checked && id in selected {
      RemoveFirstSpec(selected, id);
    }
  }

  /** `select_all_changed`: clears the selection, sets every row's checkbox
      to `checked`, and when it is checked appends each row's id in row
      order. */
  method SelectAll(rows: seq<TableRow>, checked: bool) returns (newRows: seq<TableRow>, selected: seq<int>)
    ensures |newRows| == |rows|
    ensures forall i :: 0 <= i < |rows| ==> newRows[i] == rows[i].(checked := checked)
    ensures selected == if checked then RowIds(rows) else []
  {
    selected := [];
    newRows := rows;
    for i := 0 to |rows|
      invariant |newRows| == |rows|
      invariant forall k :: 0 <= k < i ==> newRows[k] == rows[k].(checked := checked)
      invariant forall k :: i <= k < |rows| ==> newRows[k] == rows[k]
      invariant selected == if checked then RowIds(rows[..i]) else []
    {
      newRows := newRows[i := newRows[i].(checked := checked)];
      if checked {
        selected := selected + [rows[i].record.id];
      }
    }
    assert rows[..|rows|] == rows;
  }

  /** Rows built from a query result with unique ids give a duplicate-free
      select-all selection. */
  lemma SelectAllDistinct(data: seq<Roll>)
    requires IdsAscending(data) || IdsDescending(data)
    ensures Distinct(RowIds(FreshRows(data)))
  {
  }
}
