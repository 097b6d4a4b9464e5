/** The roll record ("bobina") and the operations over a table of them
    that every variant of the store shares.

    A table is a sequence of rows in storage order. SQLite keeps a rowid
    table ordered by its INTEGER PRIMARY KEY, and every id the stores
    assign is larger than all earlier ones, so storage order is ascending
    id order; `ORDER BY id DESC` is then the reverse, `NewestFirst`. */
module Rolls {

  import opened Options

  /** One row of the live table `bobina`. The three nullable columns are
      `Option`s; the REAL measurements are `real`. */
  datatype Roll = Roll(
    id: int,
    turno: string,
    ancho: real,
    diametro: real,
    gramaje: real,
    peso: real,
    bobinaNum: string,
    sec: Option<string>,
    of: string,
    fecha: string,
    codcal: Option<string>,
    desccal: Option<string>,
    createdAt: string)

  /** The columns a caller hands to `add_bobina`: all but `id` and
      `created_at`, which the store fills in. */
  datatype NewRoll = NewRoll(
    turno: string,
    ancho: real,
    diametro: real,
    gramaje: real,
    peso: real,
    bobinaNum: string,
    sec: Option<string>,
    of: string,
    fecha: string,
    codcal: Option<string>,
    desccal: Option<string>)

  /** The row the store keeps for `d` once it has chosen `id` and the
      creation timestamp. */
  function Stored(id: int, d: NewRoll, createdAt: string): Roll {
    Roll(id, d.turno, d.ancho, d.diametro, d.gramaje, d.peso, d.bobinaNum,
         d.sec, d.of, d.fecha, d.codcal, d.desccal, createdAt)
  }

  /** One row of the history table `bobina_h`: a copy of a live row (whose
      `id` is the history row's own key) and `fecha_insercion`. */
  datatype HistRoll = HistRoll(row: Roll, insertedAt: string)

  /** No two history rows share an id (`bobina_h.id` is its key). */
  predicate HistIdsDistinct(h: seq<HistRoll>) {
    forall i, j :: 0 <= i < j < |h| ==> h[i].row.id != h[j].row.id
  }

  /** `a` and `b` agree on every column except possibly `id`. */
  predicate SameContent(a: Roll, b: Roll) {
    a.(id := 0) == b.(id := 0)
  }

  // ---------------------------------------------------------------------
  // Columns and cell values
  // ---------------------------------------------------------------------

  datatype Column =
    | Id | Turno | Ancho | Diametro | Gramaje | Peso | BobinaNum
    | Sec | Of | Fecha | CodCal | DescCal | CreatedAt

  /** The table's column order, which is also the order of the search
      fields and of the exported CSV columns. */
  const Columns: seq<Column> :=
    [Id, Turno, Ancho, Diametro, Gramaje, Peso, BobinaNum, Sec, Of, Fecha, CodCal, DescCal, CreatedAt]

  /** The four REAL measurement columns. */
  predicate IsMeasure(c: Column) {
    c.Ancho? || c.Diametro? || c.Gramaje? || c.Peso?
  }

  /** A value as SQLite stores it in one cell. */
  datatype Value = NullV | IntV(i: int) | RealV(x: real) | TextV(s: string)

  function Nullable(o: Option<string>): Value {
    match o
    case None => NullV
    case Some(s) => TextV(s)
  }

  /** The value in column `c` of row `r`. */
  function Cell(r: Roll, c: Column): Value {
    match c
    case Id => IntV(r.id)
    case Turno => TextV(r.turno)
    case Ancho => RealV(r.ancho)
    case Diametro => RealV(r.diametro)
    case Gramaje => RealV(r.gramaje)
    case Peso => RealV(r.peso)
    case BobinaNum => TextV(r.bobinaNum)
    case Sec => Nullable(r.sec)
    case Of => TextV(r.of)
    case Fecha => TextV(r.fecha)
    case CodCal => Nullable(r.codcal)
    case DescCal => Nullable(r.desccal)
    case CreatedAt => TextV(r.createdAt)
  }

  // ---------------------------------------------------------------------
  // Export rows: one CSV line per record, the 13 columns in table order
  // ---------------------------------------------------------------------

  /** An exported file: its header line and one line per record. */
  datatype CsvFile = CsvFile(header: seq<string>, rows: seq<seq<Value>>)

  function ExportRow(r: Roll): seq<Value> {
    seq(|Columns|, i requires 0 <= i < |Columns| => Cell(r, Columns[i]))
  }

  function ExportRows(t: seq<Roll>): (rows: seq<seq<Value>>)
    ensures |rows| == |t|
    ensures forall i :: 0 <= i < |t| ==> rows[i] == ExportRow(t[i])
  {
    if t == [] then [] else [ExportRow(t[0])] + ExportRows(t[1..])
  }

  function TextOf(v: Value): Option<string> {
    if v.TextV? then Some(v.s) else None
  }

  function NullableOf(v: Value): Option<Option<string>> {
    match v
    case NullV => Some(None)
    case TextV(s) => Some(Some(s))
    case _ => None
  }

  /** Reads a record back from an exported line; None when the line does
      not have the 13-column shape of an export. */
  function ReadRow(cells: seq<Value>): Option<Roll> {
    if |cells| == 13 && cells[0].IntV? && cells[2].RealV? && cells[3].RealV?
       && cells[4].RealV? && cells[5].RealV?
       && TextOf(cells[1]).Some? && TextOf(cells[6]).Some? && TextOf(cells[8]).Some?
       && TextOf(cells[9]).Some? && TextOf(cells[12]).Some?
       && NullableOf(cells[7]).Some? && NullableOf(cells[10]).Some? && NullableOf(cells[11]).Some?
    then
      Some(Roll(cells[0].i, TextOf(cells[1]).value, cells[2].x, cells[3].x, cells[4].x, cells[5].x,
                TextOf(cells[6]).value, NullableOf(cells[7]).value, TextOf(cells[8]).value,
                TextOf(cells[9]).value, NullableOf(cells[10]).value, NullableOf(cells[11]).value,
                TextOf(cells[12]).value))
    else None
  }

  /** An exported line loses nothing: the record can be read back from it. */
  lemma ExportRowRoundTrip(r: Roll)
    ensures |ExportRow(r)| == |Columns| == 13
    ensures ReadRow(ExportRow(r)) == Some(r)
  {
    ExportRowCells(r);
  }

  /** The cells of an exported line, column by column. */
  lemma ExportRowCells(r: Roll)
    ensures ExportRow(r)
         == [IntV(r.id), TextV(r.turno), RealV(r.ancho), RealV(r.diametro), RealV(r.gramaje),
             RealV(r.peso), TextV(r.bobinaNum), Nullable(r.sec), TextV(r.of), TextV(r.fecha),
             Nullable(r.codcal), Nullable(r.desccal), TextV(r.createdAt)]
  {
  }

  // ---------------------------------------------------------------------
  // Tables
  // ---------------------------------------------------------------------

  predicate IdsAscending(t: seq<Roll>) {
    forall i, j :: 0 <= i < j < |t| ==> t[i].id < t[j].id
  }

  predicate IdsDescending(t: seq<Roll>) {
    forall i, j :: 0 <= i < j < |t| ==> t[i].id > t[j].id
  }

  /** The rows of `t` that satisfy `p`, in the order of `t`: what a
      `SELECT ... WHERE p` returns, and what a `DELETE ... WHERE !p` keeps. */
  function Where(t: seq<Roll>, p: Roll -> bool): (r: seq<Roll>)
    ensures |r| <= |t|
    ensures forall x :: x in r <==> x in t && p(x)
  {
    if t == [] then []
    else if p(t[0]) then [t[0]] + Where(t[1..], p)
    else Where(t[1..], p)
  }

  /** `SELECT * FROM bobina WHERE id IN (ids)`. */
  function WithIds(t: seq<Roll>, ids: seq<int>): seq<Roll> {
    Where(t, (r: Roll) => r.id in ids)
  }

  /** What `DELETE FROM bobina WHERE id IN (ids)` leaves behind. */
  function WithoutIds(t: seq<Roll>, ids: seq<int>): seq<Roll> {
    Where(t, (r: Roll) => r.id !in ids)
  }

  /** `ORDER BY id DESC` of a table kept in ascending id order. */
  function NewestFirst(t: seq<Roll>): (r: seq<Roll>)
    ensures |r| == |t|
    ensures forall i :: 0 <= i < |t| ==> r[i] == t[|t| - 1 - i]
  {
    if t == [] then [] else NewestFirst(t[1..]) + [t[0]]
  }

  lemma {:induction false} WhereConcat(a: seq<Roll>, b: seq<Roll>, p: Roll -> bool)
    ensures Where(a + b, p) == Where(a, p) + Where(b, p)
  {
    if a != [] {
      var ab := a + b;
      assert ab[0] == a[0] && ab[1..] == a[1..] + b;
      WhereConcat(a[1..], b, p);
      assert Where(ab, p) == (if p(a[0]) then [a[0]] else []) + Where(a[1..] + b, p);
      assert Where(a, p) == (if p(a[0]) then [a[0]] else []) + Where(a[1..], p);
    } else {
      assert a + b == b;
    }
  }

  /** Filtering keeps storage order, so its result is ascending too. */
  lemma {:induction false} WhereAscending(t: seq<Roll>, p: Roll -> bool)
    requires IdsAscending(t)
    ensures IdsAscending(Where(t, p))
  {
    if t != [] {
      WhereAscending(t[1..], p);
      var rest := Where(t[1..], p);
      forall j | 0 <= j < |rest| ensures t[0].id < rest[j].id {
        assert rest[j] in t[1..];
      }
    }
  }

  /** Filtering commutes with `ORDER BY id DESC`: a filtered query that is
      ordered newest first is the newest-first order of the matching rows. */
  lemma {:induction false} WhereNewestFirst(t: seq<Roll>, p: Roll -> bool)
    ensures Where(NewestFirst(t), p) == NewestFirst(Where(t, p))
  {
    if t != [] {
      WhereNewestFirst(t[1..], p);
      assert NewestFirst(t) == NewestFirst(t[1..]) + [t[0]];
      WhereConcat(NewestFirst(t[1..]), [t[0]], p);
      assert Where([t[0]], p) == if p(t[0]) then [t[0]] else [];
    }
  }

  /** `ORDER BY id DESC` returns every row exactly once, ids strictly
      decreasing. */
  lemma {:induction false} NewestFirstSpec(t: seq<Roll>)
    requires IdsAscending(t)
    ensures IdsDescending(NewestFirst(t))
    ensures multiset(NewestFirst(t)) == multiset(t)
  {
    if t != [] {
      NewestFirstSpec(t[1..]);
      assert t == [t[0]] + t[1..];
    }
  }

  /** Newest first lists the same rows. */
  lemma NewestFirstMembers(t: seq<Roll>)
    ensures forall x :: x in NewestFirst(t) <==> x in t
  {
    forall x | x in t ensures x in NewestFirst(t) {
      var i :| 0 <= i < |t| && t[i] == x;
      assert NewestFirst(t)[|t| - 1 - i] == x;
    }
  }

  /** A selection by ids and the matching deletion split the table: every
      row ends up on exactly one side. */
  lemma {:induction false} SplitByIds(t: seq<Roll>, ids: seq<int>)
    ensures multiset(WithIds(t, ids)) + multiset(WithoutIds(t, ids)) == multiset(t)
  {
    if t != [] {
      SplitByIds(t[1..], ids);
      assert t == [t[0]] + t[1..];
    }
  }

  /** A row of a table with unique ids is selected iff its id is listed. */
  lemma WithIdsMembers(t: seq<Roll>, ids: seq<int>)
    ensures forall x :: x in WithIds(t, ids) <==> x in t && x.id in ids
    ensures forall x :: x in WithoutIds(t, ids) <==> x in t && x.id !in ids
  {
  }
}
