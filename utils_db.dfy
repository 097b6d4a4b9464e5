/** utils/database_manager.py: the second store, on the table `bobinas`.

    Its filter engine differs from the one in models/database_manager.py:
    every filter, whatever its column, becomes `<column> LIKE '%value%'`,
    so numbers are matched on their text, and the value is used as given.
    Every query runs on its own connection; `fault` stands for an
    `sqlite3.Error` raised before the commit. */
module UtilsDb {

  import opened Options
  import opened Rolls
  import opened Screen
  import Text

  /** The text SQLite compares with LIKE: an INTEGER or REAL cell is
      converted to its decimal text (`showReal` is SQLite's REAL-to-TEXT
      conversion), and a NULL cell has none. */
  function CellText(v: Value, showReal: real -> string): (t: Option<string>)
    ensures t.None? <==> v.NullV?
  {
    match v
    case NullV => None
    case IntV(i) => Some(Text.ShowInt(i))
    case RealV(x) => Some(showReal(x))
    case TextV(s) => Some(s)
  }

  /** One condition of the WHERE clause: `<column> LIKE <pattern>`. */
  datatype LikeCondition = LikeCondition(column: Column, pattern: string)

  /** The conditions the loop of `filter_bobinas` builds, one per filter,
      in order, each with the pattern "%value%". */
  function LikeConditions(filters: seq<Filter>): (cs: seq<LikeCondition>)
    ensures |cs| == |filters|
    ensures forall i :: 0 <= i < |filters| ==>
              cs[i] == LikeCondition(filters[i].column, Text.Surround(filters[i].value))
  {
    if filters == [] then []
    else
      var k := |filters| - 1;
      LikeConditions(filters[..k]) + [LikeCondition(filters[k].column, Text.Surround(filters[k].value))]
  }

  /** How SQLite evaluates one condition on a row; NULL never matches. */
  predicate LikeHolds(c: LikeCondition, r: Roll, showReal: real -> string) {
    var t := CellText(Cell(r, c.column), showReal);
    t.Some? && Text.Like(c.pattern, t.value)
  }

  /** The conditions joined with AND. */
  predicate AllLike(cs: seq<LikeCondition>, r: Roll, showReal: real -> string) {
    forall c :: c in cs ==> LikeHolds(c, r, showReal)
  }

  /** The rows of `t`, in storage order, that the WHERE clause admits. */
  function Matching(t: seq<Roll>, cs: seq<LikeCondition>, showReal: real -> string): seq<Roll> {
    Where(t, (r: Roll) => AllLike(cs, r, showReal))
  }

  /** The meaning of a filter as a user reads it: its text occurs in the
      cell's text, ignoring case. */
  predicate Mentions(f: Filter, r: Roll, showReal: real -> string) {
    var t := CellText(Cell(r, f.column), showReal);
    t.Some? && Text.Contains(Text.Lower(t.value), Text.Lower(f.value))
  }

  /** For values without LIKE wildcards the WHERE clause is a case
      insensitive substring test on every filtered column. */
  lemma AllLikeMeaning(filters: seq<Filter>, r: Roll, showReal: real -> string)
    requires forall f :: f in filters ==> Text.NoWildcards(f.value)
    ensures AllLike(LikeConditions(filters), r, showReal)
        <==> forall f :: f in filters ==> Mentions(f, r, showReal)
  {
    var cs := LikeConditions(filters);
    forall i | 0 <= i < |filters|
      ensures LikeHolds(cs[i], r, showReal) <==> Mentions(filters[i], r, showReal)
    {
      var t := CellText(Cell(r, filters[i].column), showReal);
      if t.Some? {
        Text.LikeIsContains(filters[i].value, t.value);
      }
    }
    if AllLike(cs, r, showReal) {
      forall f | f in filters ensures Mentions(f, r, showReal) {
        var i :| 0 <= i < |filters| && filters[i] == f;
        assert cs[i] in cs;
      }
    }
    if forall f :: f in filters ==> Mentions(f, r, showReal) {
      forall c | c in cs ensures LikeHolds(c, r, showReal) {
        var i :| 0 <= i < |cs| && cs[i] == c;
        assert filters[i] in filters;
      }
    }
  }

  /** An id filter whose text is the id itself always keeps that row. */
  lemma IdFilterFindsItself(r: Roll, showReal: real -> string)
    ensures LikeHolds(LikeCondition(Id, Text.Surround(Text.ShowInt(r.id))), r, showReal)
  {
    var v := Text.ShowInt(r.id);
    ShowIntNoWildcards(r.id);
    Text.LikeIsContains(v, v);
    Text.ContainsAt(Text.Lower(v), Text.Lower(v));
    assert Text.OccursAt(Text.Lower(v), Text.Lower(v), 0);
  }

  lemma ShowIntNoWildcards(n: int)
    ensures Text.NoWildcards(Text.ShowInt(n))
  {
    var s := Text.ShowInt(n);
    if n < 0 {
      forall i | 0 <= i < |s| ensures s[i] != '%' && s[i] != '_' {
        if i > 0 {
          assert s[i] == Text.ShowNat(-n)[i - 1];
        }
      }
    }
  }

  class DatabaseManager {
    /** The table `bobinas`, in storage (ascending id) order. */
    var bobinas: seq<Roll>
    /** Its AUTOINCREMENT counter: the largest id ever assigned. */
    var seqBobinas: int

    ghost predicate Valid()
      reads this
    {
      && IdsAscending(bobinas)
      && 0 <= seqBobinas
      && (forall r :: r in bobinas ==> 0 < r.id <= seqBobinas)
    }

    /** `_create_database_if_not_exists` on a new file. */
    constructor ()
      ensures Valid()
      ensures bobinas == [] && seqBobinas == 0
    {
      bobinas, seqBobinas := [], 0;
    }

    /** `get_bobinas`: every row, newest first; [] when the query fails. */
    method GetBobinas(fault: bool) returns (rows: seq<Roll>)
      requires Valid()
      ensures !fault ==> IdsDescending(rows) && multiset(rows) == multiset(bobinas)
      ensures rows == if fault then [] else NewestFirst(bobinas)
    {
      if fault {
        return [];
      }
      NewestFirstSpec(bobinas);
      rows := NewestFirst(bobinas);
    }

    /** `add_bobina`: one INSERT; the store picks the next id and stamps
        `created_at` with `now`. */
    method AddBobina(data: NewRoll, now: string, fault: bool) returns (ok: bool)
      requires Valid()
      modifies this
      ensures Valid()
      ensures ok == !fault
      ensures ok ==> bobinas == old(bobinas) + [Stored(old(seqBobinas) + 1, data, now)]
                     && seqBobinas == old(seqBobinas) + 1
      ensures !ok ==> bobinas == old(bobinas) && seqBobinas == old(seqBobinas)
    {
      if fault {
        return false;
      }
      var id := seqBobinas + 1;
      bobinas := bobinas + [Stored(id, data, now)];
      seqBobinas := id;
      return true;
    }

    /** `delete_bobinas`: an empty list is refused without touching the
        table; otherwise `DELETE ... WHERE id IN (ids)`, which reports
        success only when it removed at least one row. */
    method DeleteBobinas(ids: seq<int>, fault: bool) returns (ok: bool)
      requires Valid()
      modifies this
      ensures Valid()
      ensures ok == (ids != [] && !fault && WithIds(old(bobinas), ids) != [])
      ensures bobinas == if ids != [] && !fault then WithoutIds(old(bobinas), ids) else old(bobinas)
      ensures seqBobinas == old(seqBobinas)
    {
      if ids == [] || fault {
        return false;
      }
      var removed := WithIds(bobinas, ids);
      WhereAscending(bobinas, (r: Roll) => r.id !in ids);
      bobinas := WithoutIds(bobinas, ids);
      return |removed| > 0;
    }

    /** `filter_bobinas`: no filter means `get_bobinas()`; otherwise the
        loop builds one LIKE condition per filter and the query returns the
        rows where all of them hold, newest first, or [] on a fault. */
    method FilterBobinas(filters: seq<Filter>, showReal: real -> string, fault: bool) returns (rows: seq<Roll>)
      requires Valid()
      ensures filters == [] ==> rows == if fault then [] else NewestFirst(bobinas)
      ensures filters != [] ==>
                rows == if fault then [] else NewestFirst(Matching(bobinas, LikeConditions(filters), showReal))
    {
      if filters == [] {
        rows := GetBobinas(fault);
        return;
      }
      var conditions: seq<LikeCondition> := [];
      for i := 0 to |filters|
        invariant conditions == LikeConditions(filters[..i])
      {
        assert filters[..i + 1][..i] == filters[..i];
        conditions := conditions + [LikeCondition(filters[i].column, "%" + filters[i].value + "%")];
      }
      assert filters[..|filters|] == filters;
      if fault {
        return [];
      }
      rows := NewestFirst(Matching(bobinas, conditions, showReal));
    }
  }

  /** What `filter_bobinas` returns, for wildcard-free values: each row
      whose filtered columns all contain their value, ignoring case, once,
      newest first. */
  lemma FilterResult(t: seq<Roll>, filters: seq<Filter>, showReal: real -> string)
    requires IdsAscending(t)
    requires forall f :: f in filters ==> Text.NoWildcards(f.value)
    ensures var res := NewestFirst(Matching(t, LikeConditions(filters), showReal));
      && IdsDescending(res)
      && (forall x :: x in res <==> x in t && forall f :: f in filters ==> Mentions(f, x, showReal))
  {
    var cs := LikeConditions(filters);
    var m := Matching(t, cs, showReal);
    WhereAscending(t, (r: Roll) => AllLike(cs, r, showReal));
    NewestFirstSpec(m);
    forall x ensures x in NewestFirst(m) <==> x in t && forall f :: f in filters ==> Mentions(f, x, showReal) {
      assert x in NewestFirst(m) <==> x in multiset(NewestFirst(m));
      AllLikeMeaning(filters, x, showReal);
    }
  }
}
