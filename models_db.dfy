/** models/database_manager.py: the store behind views/main_screen.py.

    The live table `bobina` has an AUTOINCREMENT id; the history table
    `bobina_h` is not created by this file, and where it exists (the schema
    in app_comp.py) its id is a plain INTEGER PRIMARY KEY, so an inserted
    row without an id gets one more than the largest id in the table. Every
    operation opens its own connection; a storage fault anywhere before the
    commit is the parameter `fault`, and an uncommitted transaction leaves
    the file as it was. */
module ModelsDb {

  import opened Options
  import opened Rolls
  import opened Screen
  import Text

  // ---------------------------------------------------------------------
  // Filter engine
  // ---------------------------------------------------------------------

  /** One SQL condition of the WHERE clause `filter_bobinas` builds. */
  datatype Condition =
    | NumberIs(column: Column, number: real)   // `<column> = ?` with a float
    | IdIs(id: int)                            // `id = ?` with an int
    | LowerLike(column: Column, pattern: string) // `LOWER(<column>) LIKE ?`

  /** The condition a filter entry contributes: exact equality for the
      measurements and `id` when the value parses, none when it does not,
      and a "%value%" LIKE for every other column. */
  function ConditionOf(f: Filter): Option<Condition> {
    if IsMeasure(f.column) then
      match Text.ParseFloat(f.value)
      case Some(x) => Some(NumberIs(f.column, x))
      case None => None
    else if f.column == Id then
      match Text.ParseInt(f.value)
      case Some(n) => Some(IdIs(n))
      case None => None
    else Some(LowerLike(f.column, Text.Surround(f.value)))
  }

  /** The surviving conditions of a filter map, in its order. */
  function Conditions(filters: seq<Filter>): seq<Condition> {
    if filters == [] then []
    else
      var k := |filters| - 1;
      Conditions(filters[..k])
        + (match ConditionOf(filters[k]) case Some(c) => [c] case None => [])
  }

  /** How SQLite evaluates one condition on a row; a NULL cell satisfies
      no condition. */
  predicate Holds(c: Condition, r: Roll) {
    match c
    case NumberIs(col, x) => Cell(r, col) == RealV(x)
    case IdIs(n) => r.id == n
    case LowerLike(col, p) => Cell(r, col).TextV? && Text.Like(p, Text.Lower(Cell(r, col).s))
  }

  /** The conditions joined with AND. */
  predicate AllHold(cs: seq<Condition>, r: Roll) {
    forall c :: c in cs ==> Holds(c, r)
  }

  /** The rows of `t`, in storage order, that the WHERE clause admits. */
  function Matching(t: seq<Roll>, cs: seq<Condition>): seq<Roll> {
    Where(t, (r: Roll) => AllHold(cs, r))
  }

  lemma MatchingAscending(t: seq<Roll>, cs: seq<Condition>)
    requires IdsAscending(t)
    ensures IdsAscending(Matching(t, cs))
  {
    WhereAscending(t, (r: Roll) => AllHold(cs, r));
  }

  /** The meaning of one filter entry as a user reads it: a measurement or
      `id` filter that parses demands that exact value, one that does not
      parse demands nothing, and any other filter demands that its text
      occur in the column's text, ignoring case. */
  predicate Keeps(f: Filter, r: Roll) {
    if IsMeasure(f.column) then
      match Text.ParseFloat(f.value)
      case Some(x) => Cell(r, f.column) == RealV(x)
      case None => true
    else if f.column == Id then
      match Text.ParseInt(f.value)
      case Some(n) => r.id == n
      case None => true
    else
      Cell(r, f.column).TextV? && Text.Contains(Text.Lower(Cell(r, f.column).s), Text.Lower(f.value))
  }

  predicate KeepsAll(filters: seq<Filter>, r: Roll) {
    forall f :: f in filters ==> Keeps(f, r)
  }

  /** The loop at the top of `filter_bobinas`. */
  method BuildConditions(filters: seq<Filter>) returns (conditions: seq<Condition>)
    ensures conditions == Conditions(filters)
  {
    conditions := [];
    for i := 0 to |filters|
      invariant conditions == Conditions(filters[..i])
    {
      assert filters[..i + 1][..i] == filters[..i];
      var f := filters[i];
      if f.column.Ancho? || f.column.Diametro? || f.column.Gramaje? || f.column.Peso? {
        match Text.ParseFloat(f.value)
        case Some(x) =>
          conditions := conditions + [NumberIs(f.column, x)];
        case None =>
      } else if f.column.Id? {
        match Text.ParseInt(f.value)
        case Some(n) =>
          conditions := conditions + [IdIs(n)];
        case None =>
      } else {
        conditions := conditions + [LowerLike(f.column, "%" + f.value + "%")];
      }
    }
    assert filters[..|filters|] == filters;
  }

  /** One filter entry: its condition, when it has one, holds exactly when
      the entry keeps the row. */
  lemma ConditionOfMeaning(f: Filter, r: Roll)
    requires Text.NoWildcards(f.value)
    ensures (match ConditionOf(f) case Some(c) => Holds(c, r) case None => true) <==> Keeps(f, r)
  {
    if !IsMeasure(f.column) && !f.column.Id? && Cell(r, f.column).TextV? {
      var s := Cell(r, f.column).s;
      Text.LikeIsContains(f.value, Text.Lower(s));
      Text.LowerIdempotent(s);
    }
  }

  /** The WHERE clause means what the filter map says, as long as the text
      filters hold no LIKE wildcard. */
  lemma {:induction false} ConditionsMeaning(filters: seq<Filter>, r: Roll)
    requires forall f :: f in filters ==> Text.NoWildcards(f.value)
    ensures AllHold(Conditions(filters), r) <==> KeepsAll(filters, r)
  {
    if filters != [] {
      var k := |filters| - 1;
      var f := filters[k];
      var init := filters[..k];
      assert filters == init + [f];
      assert forall g :: g in init ==> g in filters;
      ConditionsMeaning(init, r);
      ConditionOfMeaning(f, r);
      var last := match ConditionOf(f) case Some(c) => [c] case None => [];
      assert Conditions(filters) == Conditions(init) + last;
      AllHoldConcat(Conditions(init), last, r);
      KeepsAllSnoc(init, f, r);
    }
  }

  lemma AllHoldConcat(a: seq<Condition>, b: seq<Condition>, r: Roll)
    ensures AllHold(a + b, r) <==> AllHold(a, r) && AllHold(b, r)
  {
  }

  lemma KeepsAllSnoc(a: seq<Filter>, f: Filter, r: Roll)
    ensures KeepsAll(a + [f], r) <==> KeepsAll(a, r) && Keeps(f, r)
  {
  }

  /** With no surviving condition the query is the whole table. */
  lemma {:induction false} MatchingNothing(t: seq<Roll>)
    ensures Matching(t, []) == t
  {
    if t != [] {
      MatchingNothing(t[1..]);
      assert AllHold([], t[0]);
    }
  }

  /** What `filter_bobinas` returns on a table `t`, whichever branch it
      takes: the rows every filter keeps, each once, newest first. */
  lemma FilterResult(t: seq<Roll>, filters: seq<Filter>)
    requires IdsAscending(t)
    requires forall f :: f in filters ==> Text.NoWildcards(f.value)
    ensures var res := NewestFirst(Matching(t, Conditions(filters)));
      && IdsDescending(res)
      && (forall x :: x in res <==> x in t && KeepsAll(filters, x))
      && (Conditions(filters) == [] ==> res == NewestFirst(t))
  {
    var m := Matching(t, Conditions(filters));
    MatchingAscending(t, Conditions(filters));
    NewestFirstSpec(m);
    NewestFirstMembers(m);
    MatchingMembers(t, filters);
    if Conditions(filters) == [] {
      MatchingNothing(t);
    }
  }

  /** A record matches the built conditions iff every filter keeps it. */
  lemma MatchingMembers(t: seq<Roll>, filters: seq<Filter>)
    requires forall f :: f in filters ==> Text.NoWildcards(f.value)
    ensures forall x :: x in Matching(t, Conditions(filters)) <==> x in t && KeepsAll(filters, x)
  {
    forall x ensures x in Matching(t, Conditions(filters)) <==> x in t && KeepsAll(filters, x) {
      ConditionsMeaning(filters, x);
    }
  }

  // ---------------------------------------------------------------------
  // History ids
  // ---------------------------------------------------------------------

  /** The largest id in `bobina_h`, or 0 when it is empty. SQLite's next
      rowid is max(id) + 1 even when every id is negative; the floor at 0
      differs from it only there, and the modelled operations give history
      rows positive ids only. */
  function MaxId(h: seq<HistRoll>): (m: int)
    ensures m >= 0
  {
    if h == [] then 0
    else
      var m := MaxId(h[..|h| - 1]);
      if h[|h| - 1].row.id > m then h[|h| - 1].row.id else m
  }

  lemma {:induction false} MaxIdBound(h: seq<HistRoll>)
    ensures forall i :: 0 <= i < |h| ==> h[i].row.id <= MaxId(h)
  {
    if h != [] {
      var init := h[..|h| - 1];
      MaxIdBound(init);
      forall i | 0 <= i < |h| - 1 ensures h[i].row.id <= MaxId(h) {
        assert h[i] == init[i];
      }
    }
  }

  /** `bobina_h` after `move_to_historic` inserted `rows` one by one,
      each without its id, so that SQLite gives it the next free one. */
  function Archive(h: seq<HistRoll>, rows: seq<Roll>, now: string): (a: seq<HistRoll>)
    ensures |a| == |h| + |rows|
  {
    if rows == [] then h
    else
      var before := Archive(h, rows[..|rows| - 1], now);
      before + [HistRoll(rows[|rows| - 1].(id := MaxId(before) + 1), now)]
  }

  /** Each insertion raises the largest history id by one. */
  lemma {:induction false} ArchiveMaxId(h: seq<HistRoll>, rows: seq<Roll>, now: string)
    ensures MaxId(Archive(h, rows, now)) == MaxId(h) + |rows|
  {
    if rows != [] {
      var n := |rows| - 1;
      var before := Archive(h, rows[..n], now);
      ArchiveMaxId(h, rows[..n], now);
      var a := Archive(h, rows, now);
      assert a[..|a| - 1] == before;
    }
  }

  /** The last insertion takes the id just above everything before it. */
  lemma {:induction false} ArchiveLast(h: seq<HistRoll>, rows: seq<Roll>, now: string)
    requires rows != []
    ensures forall i :: 0 <= i < |h| + |rows| - 1 ==>
              Archive(h, rows, now)[i] == Archive(h, rows[..|rows| - 1], now)[i]
    ensures Archive(h, rows, now)[|h| + |rows| - 1] == HistRoll(rows[|rows| - 1].(id := MaxId(h) + |rows|), now)
  {
    ArchiveMaxId(h, rows[..|rows| - 1], now);
  }

  /** Insertions keep the old history in front. */
  lemma {:induction false} ArchivePrefix(h: seq<HistRoll>, rows: seq<Roll>, now: string)
    ensures Archive(h, rows, now)[..|h|] == h
  {
    if rows != [] {
      var init := rows[..|rows| - 1];
      ArchivePrefix(h, init, now);
      assert Archive(h, rows, now)[..|h|] == Archive(h, init, now)[..|h|];
    }
  }

  /** Inserting one row at a time, each taking the next free id, numbers
      the copies consecutively after the largest old id. */
  lemma {:induction false} ArchiveAt(h: seq<HistRoll>, rows: seq<Roll>, now: string)
    ensures forall i :: |h| <= i < |h| + |rows| ==>
              Archive(h, rows, now)[i] == HistRoll(rows[i - |h|].(id := MaxId(h) + 1 + i - |h|), now)
  {
    if rows != [] {
      var n := |rows| - 1;
      var init := rows[..n];
      ArchiveLast(h, rows, now);
      ArchiveAt(h, init, now);
      var before := Archive(h, init, now);
      var a := Archive(h, rows, now);
      forall i | |h| <= i < |h| + |rows|
        ensures a[i] == HistRoll(rows[i - |h|].(id := MaxId(h) + 1 + i - |h|), now)
      {
        if i < |h| + n {
          assert a[i] == before[i];
          assert init[i - |h|] == rows[i - |h|];
        }
      }
    }
  }

  /** The history keeps its rows and gains one copy per moved row, in
      order, each with every column but the id kept, stamped `now`, and
      with an id that no history row had; history ids stay distinct. */
  lemma ArchiveSpec(h: seq<HistRoll>, rows: seq<Roll>, now: string)
    ensures |Archive(h, rows, now)| == |h| + |rows|
    ensures Archive(h, rows, now)[..|h|] == h
    ensures forall i :: |h| <= i < |h| + |rows| ==>
              SameContent(Archive(h, rows, now)[i].row, rows[i - |h|])
              && Archive(h, rows, now)[i].insertedAt == now
              && Archive(h, rows, now)[i].row.id > MaxId(h)
    ensures HistIdsDistinct(h) ==> HistIdsDistinct(Archive(h, rows, now))
  {
    ArchivePrefix(h, rows, now);
    ArchiveAt(h, rows, now);
    MaxIdBound(h);
    var a := Archive(h, rows, now);
    if HistIdsDistinct(h) {
      forall i, j | 0 <= i < j < |a| ensures a[i].row.id != a[j].row.id {
        if j < |h| {
          assert a[i] == h[i] && a[j] == h[j];
        } else if i < |h| {
          assert a[i] == h[i];
        }
      }
    }
  }

  lemma ArchiveKeepsDistinct(h: seq<HistRoll>, rows: seq<Roll>, now: string)
    requires HistIdsDistinct(h)
    ensures HistIdsDistinct(Archive(h, rows, now))
  {
    ArchiveSpec(h, rows, now);
  }

  /** One more inserted row, as the loop of `move_to_historic` adds it. */
  lemma ArchiveStep(h: seq<HistRoll>, rows: seq<Roll>, i: int, now: string)
    requires 0 <= i < |rows|
    ensures Archive(h, rows[..i + 1], now)
         == Archive(h, rows[..i], now) + [HistRoll(rows[i].(id := MaxId(Archive(h, rows[..i], now)) + 1), now)]
  {
    assert rows[..i + 1][..i] == rows[..i];
  }

  /** Deleting rows keeps the live table ascending and within the ids
      handed out so far. */
  lemma RemovalKeepsIds(t: seq<Roll>, ids: seq<int>, top: int)
    requires IdsAscending(t)
    requires forall r :: r in t ==> 0 < r.id <= top
    ensures IdsAscending(WithoutIds(t, ids))
    ensures forall r :: r in WithoutIds(t, ids) ==> 0 < r.id <= top
  {
    WhereAscending(t, (r: Roll) => r.id !in ids);
  }

  /** The INSERT loop inside `move_to_historic`'s transaction, on the
      transaction's view `h` of `bobina_h`: each row goes in without its
      id. When the table does not exist the first INSERT raises, which
      ends the transaction (`ok` false). */
  method InsertCopies(h: seq<HistRoll>, rows: seq<Roll>, now: string, tableExists: bool)
    returns (ok: bool, h': seq<HistRoll>)
    ensures ok == (tableExists || rows == [])
    ensures ok ==> h' == Archive(h, rows, now)
  {
    h' := h;
    for i := 0 to |rows|
      invariant h' == Archive(h, rows[..i], now)
      invariant tableExists || i == 0
    {
      if !tableExists {
        return false, h';
      }
      ArchiveStep(h, rows, i, now);
      h' := h' + [HistRoll(rows[i].(id := MaxId(h') + 1), now)];
    }
    assert rows[..|rows|] == rows;
    ok := true;
  }

  // ---------------------------------------------------------------------
  // The store
  // ---------------------------------------------------------------------

  class DatabaseManager {
    /** The live table `bobina`, in storage (ascending id) order. */
    var bobina: seq<Roll>
    /** The history table `bobina_h`, in insertion order. */
    var bobinaH: seq<HistRoll>
    /** `bobina`'s AUTOINCREMENT counter: the largest id ever assigned. */
    var seqBobina: int
    /** Whether the database file holds a `bobina_h` table. */
    var hasHistory: bool

    ghost predicate Valid()
      reads this
    {
      && IdsAscending(bobina)
      && 0 <= seqBobina
      && (forall r :: r in bobina ==> 0 < r.id <= seqBobina)
      && HistIdsDistinct(bobinaH)
    }

    /** `__init__` and `_init_db` on a new database file: creates the live
        table and nothing else. */
    constructor ()
      ensures Valid()
      ensures bobina == [] && bobinaH == [] && seqBobina == 0 && !hasHistory
    {
      bobina, bobinaH, seqBobina, hasHistory := [], [], 0, false;
    }

    /** `_init_db` as its callers need it: the history table is created
        beside the live one. */
    constructor WithHistoryTable()
      ensures Valid()
      ensures bobina == [] && bobinaH == [] && seqBobina == 0 && hasHistory
    {
      bobina, bobinaH, seqBobina, hasHistory := [], [], 0, true;
    }

    /** `add_bobina`: one INSERT; the store picks the next id and stamps
        `created_at` with `now`. */
    method AddBobina(data: NewRoll, now: string, fault: bool) returns (ok: bool)
      requires Valid()
      modifies this
      ensures Valid()
      ensures ok == !fault
      ensures ok ==> bobina == old(bobina) + [Stored(old(seqBobina) + 1, data, now)]
                     && seqBobina == old(seqBobina) + 1
      ensures !ok ==> bobina == old(bobina) && seqBobina == old(seqBobina)
      ensures bobinaH == old(bobinaH) && hasHistory == old(hasHistory)
    {
      if fault {
        return false;
      }
      var id := seqBobina + 1;
      bobina := bobina + [Stored(id, data, now)];
      seqBobina := id;
      return true;
    }

    /** `get_all_bobinas`: `SELECT * ... ORDER BY id DESC`, or [] when the
        query fails. */
    method GetAllBobinas(fault: bool) returns (rows: seq<Roll>)
      requires Valid()
      ensures !fault ==> IdsDescending(rows) && multiset(rows) == multiset(bobina)
      ensures rows == if fault then [] else NewestFirst(bobina)
    {
      if fault {
        return [];
      }
      NewestFirstSpec(bobina);
      rows := NewestFirst(bobina);
    }

    /** `filter_bobinas`. A failed `connect` falls into the `except`, and
        the function then falls off its end: None. With no surviving
        condition it returns `get_all_bobinas()`, which has its own error
        path; otherwise the matching rows newest first, or None when the
        query fails. */
    method FilterBobinas(filters: seq<Filter>, connectFault: bool, queryFault: bool)
      returns (result: Option<seq<Roll>>)
      requires Valid()
      ensures connectFault ==> result == None
      ensures !connectFault && Conditions(filters) == [] ==>
                result == Some(if queryFault then [] else NewestFirst(bobina))
      ensures !connectFault && Conditions(filters) != [] ==>
                result == if queryFault then None else Some(NewestFirst(Matching(bobina, Conditions(filters))))
    {
      if connectFault {
        return None;
      }
      var conditions := BuildConditions(filters);
      if conditions == [] {
        var all := GetAllBobinas(queryFault);
        return Some(all);
      }
      if queryFault {
        return None;
      }
      return Some(NewestFirst(Matching(bobina, conditions)));
    }

    /** `delete_bobinas`: `DELETE ... WHERE id IN (ids)`; an empty list or
        an id with no row is no error, and success is always True. */
    method DeleteBobinas(ids: seq<int>, fault: bool) returns (ok: bool)
      requires Valid()
      modifies this
      ensures Valid()
      ensures ok == !fault
      ensures bobina == if ok then WithoutIds(old(bobina), ids) else old(bobina)
      ensures bobinaH == old(bobinaH) && seqBobina == old(seqBobina) && hasHistory == old(hasHistory)
    {
      if fault {
        return false;
      }
      RemovalKeepsIds(bobina, ids, seqBobina);
      bobina := WithoutIds(bobina, ids);
      return true;
    }

    /** `get_bobinas_by_ids`: the live rows whose id is listed, each once,
        in storage order; ids with no row are skipped; [] on a fault. */
    method GetBobinasByIds(ids: seq<int>, fault: bool) returns (rows: seq<Roll>)
      requires Valid()
      ensures !fault ==> forall x :: x in rows <==> x in bobina && x.id in ids
      ensures rows == if fault then [] else WithIds(bobina, ids)
    {
      if fault {
        return [];
      }
      rows := WithIds(bobina, ids);
    }

    /** `move_to_historic`: in one transaction, copy the selected rows into
        `bobina_h` without their ids, delete them from `bobina`, commit. An
        INSERT into a missing `bobina_h` or a fault aborts before the
        commit and leaves both tables as they were. */
    method MoveToHistoric(ids: seq<int>, now: string, fault: bool) returns (ok: bool)
      requires Valid()
      modifies this
      ensures Valid()
      ensures ok == (!fault && (hasHistory || WithIds(old(bobina), ids) == []))
      ensures ok ==> bobina == WithoutIds(old(bobina), ids)
                     && bobinaH == Archive(old(bobinaH), WithIds(old(bobina), ids), now)
      ensures !ok ==> bobina == old(bobina) && bobinaH == old(bobinaH)
      ensures seqBobina == old(seqBobina) && hasHistory == old(hasHistory)
    {
      var rows := WithIds(bobina, ids);
      var inserted, h := InsertCopies(bobinaH, rows, now, hasHistory);
      if !inserted {
        return false;
      }
      if fault {
        return false;
      }
      ArchiveKeepsDistinct(bobinaH, rows, now);
      RemovalKeepsIds(bobina, ids, seqBobina);
      bobina, bobinaH := WithoutIds(bobina, ids), h;
      return true;
    }
  }

  /** A successful move splits the live rows: the selected ones leave,
      every other one stays in place, and nothing is lost. */
  lemma MoveSplitsLive(t: seq<Roll>, ids: seq<int>)
    ensures forall x :: x in WithoutIds(t, ids) <==> x in t && x.id !in ids
    ensures multiset(WithIds(t, ids)) + multiset(WithoutIds(t, ids)) == multiset(t)
  {
    SplitByIds(t, ids);
  }

  /** On a database file that `_init_db` created, archiving a record that
      exists fails: `bobina_h` was never created. */
  method ArchiveOnNewDatabase(data: NewRoll, now: string) returns (ok: bool, live: seq<Roll>)
    ensures !ok
    ensures live == [Stored(1, data, now)]
  {
    var db := new DatabaseManager();
    var added := db.AddBobina(data, now, false);
    ok := db.MoveToHistoric([1], now, false);
    live := db.bobina;
  }

  /** With the history table created at initialisation, the same sequence
      moves the record into the history. */
  method ArchiveWithHistoryTable(data: NewRoll, now: string) returns (ok: bool, live: seq<Roll>, history: seq<HistRoll>)
    ensures ok
    ensures live == []
    ensures history == [HistRoll(Stored(1, data, now), now)]
  {
    var db := new DatabaseManager.WithHistoryTable();
    var added := db.AddBobina(data, now, false);
    ok := db.MoveToHistoric([1], now, false);
    live := db.bobina;
    history := db.bobinaH;
  }
}
