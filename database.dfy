/** database/database.py: the results table as the PostgreSQL server keeps it
    (its DDL fixes the row invariants), the statements the handlers run against
    it, and the module-level pool handle with its lifecycle. */
module Database {
  import opened Wrappers
  import opened Models

  const TABLE_NAME: string := "vision_text_ocr_results"
  /** `filename VARCHAR(255)`. */
  const FILENAME_MAX: nat := 255
  /** Largest value a `SERIAL` column's sequence hands out. */
  const SERIAL_MAX: int := 0x7FFF_FFFF
  const INT32_MIN: int := -0x8000_0000
  const INT32_MAX: int := 0x7FFF_FFFF
  const INT64_MIN: int := -0x8000_0000_0000_0000
  const INT64_MAX: int := 0x7FFF_FFFF_FFFF_FFFF

  /** The results table: its rows in insertion order and the last value its id
      sequence handed out. */
  datatype Table = Table(rows: seq<OcrResultInDb>, lastId: int)

  /** Errors raised by asyncpg or the server. */
  datatype DbError =
    | NoPool              // `cached_db_pool` is still None
    | PoolClosed          // the pool was closed
    | ConnectFailed       // `create_pool` raised
    | UndefinedTable      // the table does not exist
    | ValueTooLong        // a filename the column cannot hold
    | SequenceExhausted   // the id sequence reached its maximum
    | NegativeLimit
    | NegativeOffset
    | ParameterOutOfRange // an integer argument does not fit its SQL type

  /** What `fetchrow` of an `INSERT ... RETURNING` yields: the stored row, no
      row, or an exception. */
  datatype InsertOutcome = Inserted(row: OcrResultInDb) | NoRow | InsertFailed(error: DbError)

  /** A pool object: which pool it is, and whether `close()` was called on it. */
  datatype Pool = Pool(serial: nat, closed: bool)

  /** What the table's DDL guarantees of its rows (database.py:60-66): ids are
      positive, strictly increasing in insertion order and never above the last
      value of the sequence; every filename fits `VARCHAR(255)`. Filename and
      text are never null, as Dafny strings cannot be. */
  predicate TableValid(t: Table) {
    0 <= t.lastId <= SERIAL_MAX
    && (forall i :: 0 <= i < |t.rows| ==> 1 <= t.rows[i].id <= t.lastId && |t.rows[i].filename| <= FILENAME_MAX)
    && (forall i, j :: 0 <= i < j < |t.rows| ==> t.rows[i].id < t.rows[j].id)
  }

  /** `CREATE TABLE IF NOT EXISTS` (database.py:60-66): an existing table is kept
      with its rows; otherwise a new, empty table with a fresh sequence. */
  function EnsureSchema(t: Option<Table>): (r: Table)
    ensures t.Some? ==> r == t.value
    ensures t.None? ==> r.rows == [] && TableValid(r)
  {
    match t
    case Some(existing) => existing
    case None => Table([], 0)
  }

  /** Ensuring the schema twice is ensuring it once. */
  lemma EnsureSchemaIdempotent(t: Option<Table>)
    ensures EnsureSchema(Some(EnsureSchema(t))) == EnsureSchema(t)
    ensures t.Some? ==> EnsureSchema(t).rows == t.value.rows
  {
  }

  /** Every character of `filename` past the column's limit is a space (a name
      that fits has no such character). */
  predicate FitsColumn(filename: string) {
    forall i :: FILENAME_MAX <= i < |filename| ==> filename[i] == ' '
  }

  /** The value PostgreSQL stores when `filename` is assigned to the
      `VARCHAR(255)` column: a name that fits is stored as it is; a longer one
      whose excess characters are all spaces is cut to the limit; any other
      longer name makes the server raise, and there is no value. */
  function StoredName(filename: string): (r: Option<string>)
    ensures r.Some? <==> FitsColumn(filename)
    ensures |filename| <= FILENAME_MAX ==> r == Some(filename)
    ensures r.Some? ==> |r.value| == Min(|filename|, FILENAME_MAX) && r.value <= filename
                        && forall i :: |r.value| <= i < |filename| ==> filename[i] == ' '
  {
    if |filename| <= FILENAME_MAX then Some(filename)
    else if FitsColumn(filename) then Some(filename[..FILENAME_MAX])
    else None
  }

  /** Examples: 255 letters and a space are stored as the 255 letters; 255
      letters and another letter are refused. */
  lemma StoredNameExamples()
    ensures StoredName(seq(FILENAME_MAX, _ => 'a') + " ") == Some(seq(FILENAME_MAX, _ => 'a'))
    ensures StoredName(seq(FILENAME_MAX, _ => 'a') + "b") == None
  {
    var a := seq(FILENAME_MAX, _ => 'a');
    assert (a + " ")[..FILENAME_MAX] == a;
    assert (a + "b")[FILENAME_MAX] == 'b';
  }

  /** One `INSERT ... RETURNING` as the server runs it. The next sequence value is
      drawn for `id` and the filename is assigned to `VARCHAR(255)`; `dropped` says
      whether something on the server (a `BEFORE INSERT` trigger, a rule)
      discards the row, the one way such an insert returns no row. */
  function InsertInto(t: Option<Table>, filename: string, text: string, now: Timestamp, dropped: bool): (r: (InsertOutcome, Option<Table>))
  {
    match t
    case None => (InsertFailed(UndefinedTable), t)
    case Some(table) =>
      if table.lastId >= SERIAL_MAX then (InsertFailed(SequenceExhausted), t)
      else match StoredName(filename)
        case None => (InsertFailed(ValueTooLong), t)
        case Some(name) =>
          if dropped then (NoRow, Some(table.(lastId := table.lastId + 1)))
          else
            var row := OcrResultInDb(table.lastId + 1, name, text, now);
            (Inserted(row), Some(Table(table.rows + [row], table.lastId + 1)))
  }

  /** An insert keeps the table's invariant; a stored row has the filename as
      the column stores it, the given text and timestamp, and an id above every
      id handed out before; a filename the column cannot hold is an error,
      never a missing row; the insert fails exactly when the sequence is
      exhausted or the filename does not fit; no row comes back exactly when
      the server discards it; an error changes nothing. */
  lemma InsertSpec(t: Table, filename: string, text: string, now: Timestamp, dropped: bool)
    requires TableValid(t)
    ensures var (o, t') := InsertInto(Some(t), filename, text, now, dropped);
            t'.Some? && TableValid(t'.value)
            && (o.Inserted? ==>
                  StoredName(filename) == Some(o.row.filename) && o.row.extractedText == text && o.row.createdAt == now
                  && o.row.id > t.lastId
                  && (forall k :: 0 <= k < |t.rows| ==> t.rows[k].id < o.row.id)
                  && t'.value.rows == t.rows + [o.row])
            && (o.NoRow? <==> dropped && FitsColumn(filename) && t.lastId < SERIAL_MAX)
            && (o.NoRow? ==> t'.value.rows == t.rows)
            && (o.InsertFailed? <==> t.lastId >= SERIAL_MAX || !FitsColumn(filename))
            && (!FitsColumn(filename) && t.lastId < SERIAL_MAX ==> o == InsertFailed(ValueTooLong))
            && (o.InsertFailed? ==> t' == Some(t))
  {
  }

  /** The error acquiring a connection from the pool handle raises, if any. */
  function AcquireError(pool: Option<Pool>): (e: Option<DbError>)
    ensures e.None? <==> pool.Some? && !pool.value.closed
  {
    match pool
    case None => Some(NoPool)
    case Some(p) => if p.closed then Some(PoolClosed) else None
  }

  /** `created_at` never increases along `s`. */
  predicate SortedByCreatedDesc(s: seq<OcrResultInDb>) {
    forall i, j :: 0 <= i < j < |s| ==> s[i].createdAt >= s[j].createdAt
  }

  function InsertByCreatedDesc(r: OcrResultInDb, s: seq<OcrResultInDb>): (out: seq<OcrResultInDb>)
    requires SortedByCreatedDesc(s)
    ensures SortedByCreatedDesc(out)
    ensures multiset(out) == multiset(s) + multiset{r}
    ensures |out| == |s| + 1 && (out[0] == r || (s != [] && out[0] == s[0]))
  {
    if s == [] || r.createdAt >= s[0].createdAt then [r] + s
    else
      var rest := InsertByCreatedDesc(r, s[1..]);
      assert s == [s[0]] + s[1..];
      [s[0]] + rest
  }

  /** `ORDER BY created_at DESC`: the same rows, newest first. Rows with equal
      timestamps come in an order the server does not specify; this one keeps
      insertion order. */
  function SortByCreatedDesc(rows: seq<OcrResultInDb>): (s: seq<OcrResultInDb>)
    ensures SortedByCreatedDesc(s)
    ensures multiset(s) == multiset(rows)
  {
    if rows == [] then []
    else
      assert rows == [rows[0]] + rows[1..];
      InsertByCreatedDesc(rows[0], SortByCreatedDesc(rows[1..]))
  }

  function Min(a: int, b: int): int { if a <= b then a else b }

  /** `OFFSET offset LIMIT limit` on a sequence: skip `offset`, take at most
      `limit`. */
  function Window<T>(s: seq<T>, offset: nat, limit: nat): (w: seq<T>)
    ensures |w| == if offset >= |s| then 0 else Min(limit, |s| - offset)
    ensures forall k :: 0 <= k < |w| ==> w[k] == s[offset + k]
  {
    if offset >= |s| then [] else s[offset..offset + Min(limit, |s| - offset)]
  }

  /** The listing query (api/api.py:94-103). asyncpg first prepares the
      statement, so a missing table is reported whatever the arguments; it then
      encodes both arguments as the `bigint` parameters the server asked for;
      running the query, the server checks OFFSET before LIMIT. */
  function SelectPage(t: Option<Table>, limit: int, offset: int): (r: Result<seq<OcrResultInDb>, DbError>)
  {
    if t.None? then Err(UndefinedTable)
    else if !(INT64_MIN <= limit <= INT64_MAX && INT64_MIN <= offset <= INT64_MAX) then Err(ParameterOutOfRange)
    else if offset < 0 then Err(NegativeOffset)
    else if limit < 0 then Err(NegativeLimit)
    else Ok(Window(SortByCreatedDesc(t.value.rows), offset, limit))
  }

  /** A page is the slice `offset .. offset + limit` of the table's rows ranked
      newest first (some ranking, when timestamps tie); it is no longer than
      `limit`, and an offset past the end gives an empty page, not an error. */
  lemma SelectPageSpec(t: Table, limit: int, offset: int)
    requires 0 <= limit <= INT64_MAX && 0 <= offset <= INT64_MAX
    ensures SelectPage(Some(t), limit, offset).Ok?
    ensures var page := SelectPage(Some(t), limit, offset).value;
            |page| == (if offset >= |t.rows| then 0 else Min(limit, |t.rows| - offset))
            && SortedByCreatedDesc(page)
            && (forall k :: 0 <= k < |page| ==> page[k] in t.rows)
            && exists ranked :: |ranked| == |t.rows| && SortedByCreatedDesc(ranked)
                                && multiset(ranked) == multiset(t.rows)
                                && forall k :: 0 <= k < |page| ==> page[k] == ranked[offset + k]
  {
    var ranked := SortByCreatedDesc(t.rows);
    var page := Window(ranked, offset, limit);
    assert |ranked| == |t.rows| by {
      assert |multiset(ranked)| == |multiset(t.rows)|;
    }
    forall k | 0 <= k < |page| ensures page[k] in t.rows {
      assert page[k] == ranked[offset + k];
      assert page[k] in multiset(ranked);
    }
  }

  /** Which error the listing reports: a missing table first; then an argument
      outside 64 bits, on either side; then a negative offset; then a negative
      limit. */
  lemma SelectPageErrors(t: Option<Table>, limit: int, offset: int)
    ensures t.None? ==> SelectPage(t, limit, offset) == Err(UndefinedTable)
    ensures t.Some? && (limit < INT64_MIN || limit > INT64_MAX || offset < INT64_MIN || offset > INT64_MAX) ==>
              SelectPage(t, limit, offset) == Err(ParameterOutOfRange)
    ensures t.Some? && INT64_MIN <= offset < 0 && INT64_MIN <= limit <= INT64_MAX ==>
              SelectPage(t, limit, offset) == Err(NegativeOffset)
    ensures t.Some? && 0 <= offset <= INT64_MAX && INT64_MIN <= limit < 0 ==>
              SelectPage(t, limit, offset) == Err(NegativeLimit)
    ensures SelectPage(t, limit, offset).Ok? <==>
              t.Some? && 0 <= limit <= INT64_MAX && 0 <= offset <= INT64_MAX
  {
  }

  /** The first row with the given id, if any. */
  function FindById(rows: seq<OcrResultInDb>, id: int): (r: Option<OcrResultInDb>)
    ensures r.Some? ==> r.value in rows && r.value.id == id
    ensures r.None? <==> forall k :: 0 <= k < |rows| ==> rows[k].id != id
  {
    if rows == [] then None
    else if rows[0].id == id then Some(rows[0])
    else FindById(rows[1..], id)
  }

  /** In a valid table ids are unique, so the lookup returns exactly the row that
      has the id. */
  lemma {:induction false} FindByIdUnique(rows: seq<OcrResultInDb>, k: nat)
    requires k < |rows|
    requires forall i, j :: 0 <= i < j < |rows| ==> rows[i].id < rows[j].id
    ensures FindById(rows, rows[k].id) == Some(rows[k])
  {
    if k > 0 {
      assert rows[0].id < rows[k].id;
      FindByIdUnique(rows[1..], k - 1);
    }
  }

  /** The lookup query (api/api.py:111-117). asyncpg first prepares the
      statement, so a missing table is reported whatever the argument; the
      server then asks for an `integer` parameter, and asyncpg refuses an
      argument outside 32 bits. */
  function SelectById(t: Option<Table>, id: int): (r: Result<Option<OcrResultInDb>, DbError>)
  {
    if t.None? then Err(UndefinedTable)
    else if !(INT32_MIN <= id <= INT32_MAX) then Err(ParameterOutOfRange)
    else Ok(FindById(t.value.rows, id))
  }

  /** Saving a row and then fetching it by the id it was given returns exactly
      that row. */
  lemma SaveThenFetch(t: Table, filename: string, text: string, now: Timestamp)
    requires TableValid(t)
    requires InsertInto(Some(t), filename, text, now, false).0.Inserted?
    ensures var (o, t') := InsertInto(Some(t), filename, text, now, false);
            SelectById(t', o.row.id) == Ok(Some(o.row))
  {
    InsertSpec(t, filename, text, now, false);
    var (o, t') := InsertInto(Some(t), filename, text, now, false);
    FindByIdUnique(t'.value.rows, |t.rows|);
  }

  /** The same for an insert that might have been discarded: when a row comes
      back, fetching its id returns exactly it. */
  lemma SaveThenFetchAny(t: Table, filename: string, text: string, now: Timestamp, dropped: bool)
    requires TableValid(t)
    ensures var (o, t') := InsertInto(Some(t), filename, text, now, dropped);
            o.Inserted? ==> SelectById(t', o.row.id) == Ok(Some(o.row))
  {
    if InsertInto(Some(t), filename, text, now, dropped).0.Inserted? {
      assert !dropped;
      SaveThenFetch(t, filename, text, now);
    }
  }

  /** The module-level state of database.py together with the server-side
      table: the `cached_db_pool` handle, how many pools were created so far,
      and the results table (None while it does not exist). */
  class Db {
    var pool: Option<Pool>
    var poolsCreated: nat
    var table: Option<Table>
    /** Which inserts the server discards (see `InsertInto`). */
    const drops: (string, string) -> bool

    predicate Valid()
      reads this
    {
      table.Some? ==> TableValid(table.value)
    }

    /** Process start: no pool yet (database.py:23); the table may already exist
        from an earlier run. */
    constructor (existing: Option<Table>, drops: (string, string) -> bool)
      requires existing.Some? ==> TableValid(existing.value)
      ensures Valid()
      ensures pool == None && poolsCreated == 0 && table == existing && this.drops == drops
    {
      pool := None;
      poolsCreated := 0;
      table := existing;
      this.drops := drops;
    }

    /** `connect_to_db` (database.py:25-38): on success the handle is a new open
        pool; when pool creation fails the error is re-raised and the handle
        keeps its previous value. A previous pool is not closed. */
    method ConnectToDb(poolCreated: bool) returns (err: Option<DbError>)
      modifies this`pool, this`poolsCreated
      ensures poolCreated ==> err == None && pool == Some(Pool(old(poolsCreated), false))
                              && poolsCreated == old(poolsCreated) + 1
      ensures !poolCreated ==> err == Some(ConnectFailed) && pool == old(pool) && poolsCreated == old(poolsCreated)
    {
      if !poolCreated {
        return Some(ConnectFailed);
      }
      pool := Some(Pool(poolsCreated, false));
      poolsCreated := poolsCreated + 1;
      return None;
    }

    /** `close_db_connection` (database.py:40-49): nothing happens when no pool
        was ever created; otherwise the pool is closed (again, harmlessly) but
        the handle is not reset to None. */
    method CloseDbConnection()
      modifies this`pool
      ensures old(pool).None? ==> pool == None
      ensures old(pool).Some? ==> pool == Some(Pool(old(pool).value.serial, true))
    {
      if pool.Some? {
        pool := Some(pool.value.(closed := true));
      }
    }

    /** `create_db_table` (database.py:51-68): fails when no connection can be
        acquired; otherwise ensures the table exists, leaving an existing one and
        its rows unchanged. */
    method CreateDbTable() returns (err: Option<DbError>)
      requires Valid()
      modifies this`table
      ensures Valid()
      ensures err == AcquireError(pool)
      ensures err.None? ==> table == Some(EnsureSchema(old(table)))
      ensures err.Some? ==> table == old(table)
    {
      err := AcquireError(pool);
      if err.None? {
        table := Some(EnsureSchema(table));
      }
    }

    /** `connection.fetchrow` of the insert statement on an acquired
        connection (api/api.py:61-67, api/api.py:132-139). */
    method Insert(filename: string, text: string, now: Timestamp) returns (o: InsertOutcome)
      requires Valid()
      modifies this`table
      ensures Valid()
      ensures (o, table) == InsertInto(old(table), filename, text, now, drops(filename, text))
    {
      var next := InsertInto(table, filename, text, now, drops(filename, text));
      if table.Some? {
        InsertSpec(table.value, filename, text, now, drops(filename, text));
      }
      o, table := next.0, next.1;
    }
  }
}
