/**
  The MySQL `events` table both scraper scripts write. Its primary key is
  `event_url`, so the table is a map from that URL to the row stored under
  it, and `INSERT ... ON DUPLICATE KEY UPDATE` is a map update.
 */
module EventStore {

  /**
    One row of `events`. The fighter roster is the list that the scripts
    JSON-encode into the `event_all_fighters` column.
   */
  datatype Row = Row(
    title: string,
    date: string,
    url: string,
    eventType: string,
    fighters: seq<string>,
    venue: string,
    location: string)

  /** The contents of the table: one row per primary key. */
  type Table = map<string, Row>

  /** Every row is stored under its own `event_url`. */
  predicate KeyedByUrl(t: Table)
  {
    forall k :: k in t ==> t[k].url == k
  }

  /** The primary keys of a sequence of rows. */
  function Urls(rows: seq<Row>): set<string>
  {
    set i | 0 <= i < |rows| :: rows[i].url
  }

  // ---------------------------------------------------------------------
  // Upsert
  // ---------------------------------------------------------------------

  /**
    `INSERT ... ON DUPLICATE KEY UPDATE` of one row: afterwards the row's
    URL maps to exactly that row, every other key keeps its row, and rows
    stay under their own URL.
   */
  function Upsert(t: Table, row: Row): (r: Table)
    ensures r.Keys == t.Keys + {row.url} && r[row.url] == row
    ensures forall k :: k in t && k != row.url ==> r[k] == t[k]
    ensures KeyedByUrl(t) ==> KeyedByUrl(r)
  {
    var r := t[row.url := row];
    assert r.Keys == t.Keys + {row.url};
    r
  }

  /** The table grows by one row exactly when the URL was new. */
  lemma UpsertSize(t: Table, row: Row)
    ensures |Upsert(t, row)| == if row.url in t then |t| else |t| + 1
  {
    var r := Upsert(t, row);
    if row.url in t {
      assert r.Keys == t.Keys;
    } else {
      assert r.Keys == t.Keys + {row.url} && row.url !in t.Keys;
    }
  }

  /** Writing the same row twice leaves the table of writing it once. */
  lemma UpsertIdempotent(t: Table, row: Row)
    ensures Upsert(Upsert(t, row), row) == Upsert(t, row)
  {
  }

  /** Of two writes to the same URL, the second one's values are the ones kept. */
  lemma UpsertLastWriteWins(t: Table, first: Row, second: Row)
    requires first.url == second.url
    ensures Upsert(Upsert(t, first), second) == Upsert(t, second)
  {
  }

  /** Writes to different URLs do not interfere: their order does not matter. */
  lemma UpsertCommutes(t: Table, a: Row, b: Row)
    requires a.url != b.url
    ensures Upsert(Upsert(t, a), b) == Upsert(Upsert(t, b), a)
  {
    var ab, ba := t[a.url := a][b.url := b], t[b.url := b][a.url := a];
    assert Upsert(Upsert(t, a), b) == ab;
    assert Upsert(Upsert(t, b), a) == ba;
  }

  /** A sequence of `insert_event` calls, in order. */
  function InsertAll(t: Table, rows: seq<Row>): Table
  {
    if rows == [] then t else Upsert(InsertAll(t, rows[..|rows| - 1]), rows[|rows| - 1])
  }

  /** One more insert after a sequence of them. */
  lemma InsertAllSnoc(t: Table, rows: seq<Row>, row: Row)
    ensures InsertAll(t, rows + [row]) == Upsert(InsertAll(t, rows), row)
  {
    assert (rows + [row])[..|rows|] == rows;
  }

  /** The URLs of a non-empty sequence: those of its front plus the last one's. */
  lemma UrlsSnoc(rows: seq<Row>)
    requires |rows| > 0
    ensures Urls(rows) == Urls(rows[..|rows| - 1]) + {rows[|rows| - 1].url}
  {
    var n := |rows| - 1;
    var front := rows[..n];
    forall u | u in Urls(rows) ensures u in Urls(front) + {rows[n].url} {
      var i :| 0 <= i < |rows| && rows[i].url == u;
      if i < n {
        assert front[i] == rows[i];
      }
    }
    forall u | u in Urls(front) ensures u in Urls(rows) {
      var i :| 0 <= i < |front| && front[i].url == u;
      assert rows[i] == front[i];
    }
  }

  /**
    After a sequence of upserts the keys are the old keys plus the URLs
    written, and the table grew by at most one row per write.
   */
  lemma {:induction false} InsertAllKeys(t: Table, rows: seq<Row>)
    ensures InsertAll(t, rows).Keys == t.Keys + Urls(rows)
    decreases |rows|
  {
    if rows != [] {
      var n := |rows| - 1;
      InsertAllKeys(t, rows[..n]);
      UrlsSnoc(rows);
    }
  }

  /** Each upsert adds at most one row, and rows stay under their own URL. */
  lemma {:induction false} InsertAllSize(t: Table, rows: seq<Row>)
    ensures |InsertAll(t, rows)| <= |t| + |rows|
    ensures KeyedByUrl(t) ==> KeyedByUrl(InsertAll(t, rows))
    decreases |rows|
  {
    if rows != [] {
      var n := |rows| - 1;
      InsertAllSize(t, rows[..n]);
      UpsertSize(InsertAll(t, rows[..n]), rows[n]);
    }
  }

  /** A key no upsert in the sequence wrote keeps its old row. */
  lemma {:induction false} InsertAllUntouched(t: Table, rows: seq<Row>, k: string)
    requires k in t && k !in Urls(rows)
    ensures k in InsertAll(t, rows) && InsertAll(t, rows)[k] == t[k]
    decreases |rows|
  {
    if rows != [] {
      UrlsSnoc(rows);
      InsertAllUntouched(t, rows[..|rows| - 1], k);
    }
  }

  /** A written key holds the last row written for it. */
  lemma {:induction false} InsertAllLastWins(t: Table, rows: seq<Row>, i: nat)
    requires i < |rows|
    requires forall j :: i < j < |rows| ==> rows[j].url != rows[i].url
    ensures rows[i].url in InsertAll(t, rows) && InsertAll(t, rows)[rows[i].url] == rows[i]
    decreases |rows|
  {
    var n := |rows| - 1;
    if i < n {
      var front := rows[..n];
      assert front[i] == rows[i];
      assert forall j :: i < j < |front| ==> front[j] == rows[j];
      InsertAllLastWins(t, front, i);
    }
  }

  /**
    Replaying the same sequence of upserts over its own result changes
    nothing: a second scrape of an unchanged listing adds no rows.
   */
  lemma InsertAllReplay(t: Table, rows: seq<Row>)
    ensures InsertAll(InsertAll(t, rows), rows) == InsertAll(t, rows)
  {
    var once := InsertAll(t, rows);
    var twice := InsertAll(once, rows);
    InsertAllKeys(t, rows);
    InsertAllKeys(once, rows);
    forall k | k in twice ensures k in once && twice[k] == once[k] {
      if k in Urls(rows) {
        var i := LastWrite(rows, k);
        InsertAllLastWins(t, rows, i);
        InsertAllLastWins(once, rows, i);
      } else {
        InsertAllUntouched(once, rows, k);
      }
    }
  }

  /** The position of the last row written for a URL that was written. */
  lemma LastWrite(rows: seq<Row>, k: string) returns (i: nat)
    requires k in Urls(rows)
    ensures i < |rows| && rows[i].url == k
    ensures forall j :: i < j < |rows| ==> rows[j].url != k
  {
    i :| 0 <= i < |rows| && rows[i].url == k;
    var j := i + 1;
    while j < |rows|
      invariant i < j <= |rows| && rows[i].url == k
      invariant forall m :: i < m < j ==> rows[m].url != k
    {
      if rows[j].url == k {
        i := j;
      }
      j := j + 1;
    }
  }

  // ---------------------------------------------------------------------
  // The database
  // ---------------------------------------------------------------------

  /** The database the scripts connect to, holding at most the `events` table. */
  class Database {
    /** Whether the `events` table exists. */
    var tableExists: bool
    /** The rows of `events`; empty while the table does not exist. */
    var events: Table

    ghost predicate Valid()
      reads this
    {
      (!tableExists ==> events == map[]) && KeyedByUrl(events)
    }

    /** A database without the `events` table. */
    constructor ()
      ensures Valid() && !tableExists
    {
      tableExists := false;
      events := map[];
    }

    /** `DROP TABLE IF EXISTS events`: the table and all its rows are gone. */
    method DropTable()
      modifies this
      ensures Valid() && !tableExists && events == map[]
    {
      tableExists := false;
      events := map[];
    }

    /**
      `create_table`: `CREATE TABLE IF NOT EXISTS events (...)`. An existing
      table keeps all its rows; a missing one is created empty.
     */
    method CreateTable()
      requires Valid()
      modifies this
      ensures Valid() && tableExists
      ensures events == if old(tableExists) then old(events) else map[]
    {
      tableExists := true;
    }

    /**
      `insert_event`: upsert keyed on `event_url`, overwriting all six
      other columns. With no `events` table the statement fails and nothing
      changes (`ok` is false).
     */
    method InsertEvent(title: string, date: string, url: string, eventType: string,
                       fighters: seq<string>, venue: string, location: string)
      returns (ok: bool)
      requires Valid()
      modifies this
      ensures Valid() && tableExists == old(tableExists)
      ensures ok == old(tableExists)
      ensures events == if ok then Upsert(old(events), Row(title, date, url, eventType, fighters, venue, location))
                        else old(events)
    {
      ok := tableExists;
      if ok {
        events := Upsert(events, Row(title, date, url, eventType, fighters, venue, location));
      }
    }

    /**
      `SELECT * FROM events` and `fetchall()`: every row exactly once, in an
      order the engine chooses; with no table the statement fails.
     */
    method SelectAll() returns (ok: bool, rows: seq<Row>)
      requires Valid()
      ensures ok == tableExists
      ensures |rows| == |events|
      ensures forall i :: 0 <= i < |rows| ==> rows[i].url in events && events[rows[i].url] == rows[i]
      ensures forall i, j :: 0 <= i < j < |rows| ==> rows[i].url != rows[j].url
      ensures forall k :: k in events ==> k in Urls(rows)
    {
      ok := tableExists;
      rows := [];
      var pending := events.Keys;
      while pending != {}
        invariant Fetched(events, rows, pending)
        decreases |pending|
      {
        var k :| k in pending;
        FetchedStep(events, rows, pending, k);
        rows := rows + [events[k]];
        pending := pending - {k};
      }
    }
  }

  /**
    The state of a `fetchall` that has returned `rows` and still owes the
    keys in `pending`: each row returned once, under its own key, and every
    key either returned or pending.
   */
  ghost predicate Fetched(t: Table, rows: seq<Row>, pending: set<string>)
  {
    && pending <= t.Keys
    && |rows| + |pending| == |t|
    && (forall i :: 0 <= i < |rows| ==> rows[i].url in t && t[rows[i].url] == rows[i] && rows[i].url !in pending)
    && (forall i, j :: 0 <= i < j < |rows| ==> rows[i].url != rows[j].url)
    && (forall k :: k in t && k !in pending ==> k in Urls(rows))
  }

  /** Returning one pending row keeps the fetch consistent. */
  lemma FetchedStep(t: Table, rows: seq<Row>, pending: set<string>, k: string)
    requires KeyedByUrl(t) && Fetched(t, rows, pending) && k in pending
    ensures Fetched(t, rows + [t[k]], pending - {k})
  {
    var next := rows + [t[k]];
    assert next[..|rows|] == rows;
    UrlsSnoc(next);
  }
}
