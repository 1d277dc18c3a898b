/** The `tasks` table, its rows, and the two read paths: `row_to_task`/`get_task_by_id`
    and the `ORDER BY created_at DESC, id DESC` listing. */
module TaskRows {
  import opened Options

  /** The largest rowid SQLite assigns, and the largest integer a statement parameter can bind. */
  const MaxRowId: int := 0x7FFF_FFFF_FFFF_FFFF

  /** A UTC time written in ISO format to the second, abstracted to the instant it names:
      strings of that fixed format compare as their instants do. */
  type Timestamp = int

  /** One stored row. `completed` is the INTEGER column, which may hold NULL. */
  datatype Row = Row(title: string, completed: Option<int>, createdAt: Timestamp, updatedAt: Timestamp)

  /** The JSON task object the API returns. */
  datatype Task = Task(id: int, title: string, completed: bool, createdAt: Timestamp, updatedAt: Timestamp)

  /** The table and its AUTOINCREMENT counter (the `sqlite_sequence` entry of `tasks`):
      the largest id ever assigned, whether or not that row still exists. */
  datatype Db = Db(rows: map<int, Row>, sequence: int)

  /** What AUTOINCREMENT guarantees: every id present is positive and at most the counter. */
  predicate WellFormed(db: Db) {
    && 0 <= db.sequence <= MaxRowId
    && forall id :: id in db.rows ==> 1 <= id <= db.sequence
  }

  /** The empty table that `CREATE TABLE IF NOT EXISTS` leaves on a new database file. */
  function EmptyDb(): (db: Db)
    ensures WellFormed(db) && db.rows == map[]
  {
    Db(map[], 0)
  }

  /** How `row_to_task` reads `completed`: NULL and 0 are false, any other integer is true. */
  predicate IsSet(completed: Option<int>) {
    completed.Some? && completed.value != 0
  }

  /** `row_to_task`: the row's fields under its id, with `completed` as a boolean that is
      false exactly for NULL and 0. */
  function RowToTask(id: int, row: Row): (t: Task)
    ensures t.id == id && t.title == row.title
    ensures t.createdAt == row.createdAt && t.updatedAt == row.updatedAt
    ensures !t.completed <==> row.completed == None || row.completed == Some(0)
  {
    Task(id, row.title, IsSet(row.completed), row.createdAt, row.updatedAt)
  }

  /** The row the handlers would store for an API task: `completed` as 1 or 0. */
  function StoredRow(t: Task): Row {
    Row(t.title, Some(if t.completed then 1 else 0), t.createdAt, t.updatedAt)
  }

  /** `row_to_task` loses nothing on rows whose `completed` is 0 or 1, and only on those:
      NULL reads as 0 and any other non-zero value reads as 1. Every task comes back
      unchanged from its stored row. */
  lemma RowToTaskRoundTrip(id: int, row: Row, t: Task)
    ensures StoredRow(RowToTask(id, row)) == row <==> row.completed == Some(0) || row.completed == Some(1)
    ensures RowToTask(t.id, StoredRow(t)) == t
  {
  }

  /** `get_task_by_id`: the converted row, or `None` when no row has that id. */
  function GetTaskById(rows: map<int, Row>, id: int): (r: Option<Task>)
    ensures r.Some? <==> id in rows
    ensures r.Some? ==> r.value == RowToTask(id, rows[id]) && r.value.id == id
  {
    if id in rows then Some(RowToTask(id, rows[id])) else None
  }

  /** The `ORDER BY created_at DESC, id DESC` relation on tasks: `a` is listed before `b`. */
  predicate ListedBefore(a: Task, b: Task) {
    a.createdAt > b.createdAt || (a.createdAt == b.createdAt && a.id > b.id)
  }

  /** The same order on the ids of two stored rows. */
  predicate RowBefore(rows: map<int, Row>, a: int, b: int)
    requires a in rows && b in rows
  {
    ListedBefore(RowToTask(a, rows[a]), RowToTask(b, rows[b]))
  }

  /** `ts` is a result of `list_tasks` over `rows`: every element is what `get_task_by_id`
      returns for its id, every stored row appears, and the elements are in strict
      `created_at DESC, id DESC` order. */
  ghost predicate IsListing(rows: map<int, Row>, ts: seq<Task>) {
    && (forall i :: 0 <= i < |ts| ==> GetTaskById(rows, ts[i].id) == Some(ts[i]))
    && (forall id :: id in rows ==> exists i :: 0 <= i < |ts| && ts[i].id == id)
    && (forall i, j :: 0 <= i < j < |ts| ==> ListedBefore(ts[i], ts[j]))
  }

  /** A non-empty set of ids has an element to pick. */
  lemma Inhabited(s: set<int>)
    requires s != {}
    ensures exists x :: x in s
  {
    if forall x :: x !in s {
      assert false;
    }
  }

  /** The query engine's `ORDER BY`: the first row of `pool` in listing order. */
  method FirstInOrder(rows: map<int, Row>, pool: set<int>) returns (m: int)
    requires pool != {} && pool <= rows.Keys
    ensures m in pool
    ensures forall k :: k in pool && k != m ==> RowBefore(rows, m, k)
  {
    Inhabited(pool);
    m :| m in pool;
    var seen := {m};
    while pool - seen != {}
      invariant seen <= pool && m in seen
      invariant forall k :: k in seen && k != m ==> RowBefore(rows, m, k)
      decreases |pool - seen|
    {
      Inhabited(pool - seen);
      var k :| k in pool - seen;
      if RowBefore(rows, k, m) {
        m := k;
      }
      assert pool - (seen + {k}) < pool - seen;
      seen := seen + {k};
    }
  }

  /** The ids the listing query visits: every
      stored id, and in strict listing order (so each exactly once). */
  method OrderByCreatedDesc(rows: map<int, Row>) returns (ids: seq<int>)
    ensures forall i :: 0 <= i < |ids| ==> ids[i] in rows
    ensures forall id :: id in rows ==> id in ids
    ensures forall i, j :: 0 <= i < j < |ids| ==> RowBefore(rows, ids[i], ids[j])
  {
    ids := [];
    var pool := rows.Keys;
    while pool != {}
      invariant pool <= rows.Keys
      invariant forall i :: 0 <= i < |ids| ==> ids[i] in rows && ids[i] !in pool
      invariant forall id :: id in rows ==> id in ids || id in pool
      invariant forall i, j :: 0 <= i < j < |ids| ==> RowBefore(rows, ids[i], ids[j])
      invariant forall i, k :: 0 <= i < |ids| && k in pool ==> RowBefore(rows, ids[i], k)
      decreases |pool|
    {
      var m := FirstInOrder(rows, pool);
      ids := ids + [m];
      pool := pool - {m};
    }
  }

  /** A listing names every id at most once. */
  lemma ListingIdsDistinct(rows: map<int, Row>, ts: seq<Task>)
    requires IsListing(rows, ts)
    ensures forall i, j :: 0 <= i < j < |ts| ==> ts[i].id != ts[j].id
  {
  }

  /** The first task of a listing comes before every other stored row. */
  lemma ListingHeadFirst(rows: map<int, Row>, ts: seq<Task>)
    requires IsListing(rows, ts) && ts != []
    ensures ts[0].id in rows && ts[0] == RowToTask(ts[0].id, rows[ts[0].id])
    ensures forall id :: id in rows && id != ts[0].id ==> ListedBefore(ts[0], RowToTask(id, rows[id]))
  {
  }

  /** Dropping the first task of a listing leaves a listing of the other rows. */
  lemma ListingTail(rows: map<int, Row>, ts: seq<Task>)
    requires IsListing(rows, ts) && ts != []
    ensures ts[0].id in rows
    ensures IsListing(rows - {ts[0].id}, ts[1..])
  {
  }

  /** A listing holds each stored row exactly once: as many tasks as rows. */
  lemma {:induction false} ListingLength(rows: map<int, Row>, ts: seq<Task>)
    requires IsListing(rows, ts)
    ensures |ts| == |rows|
    decreases |ts|
  {
    if ts == [] {
      if rows != map[] {
        Inhabited(rows.Keys);
        assert false;
      }
    } else {
      ListingTail(rows, ts);
      ListingLength(rows - {ts[0].id}, ts[1..]);
      assert (rows - {ts[0].id}).Keys == rows.Keys - {ts[0].id};
    }
  }

  /** The fixed order makes `list_tasks` deterministic: two listings of the same rows are equal. */
  lemma {:induction false} ListingUnique(rows: map<int, Row>, ts: seq<Task>, us: seq<Task>)
    requires IsListing(rows, ts) && IsListing(rows, us)
    ensures ts == us
    decreases |ts|
  {
    if ts == [] || us == [] {
      ListingLength(rows, ts);
      ListingLength(rows, us);
    } else {
      ListingHeadFirst(rows, ts);
      ListingHeadFirst(rows, us);
      if ts[0].id != us[0].id {
        assert false;
      }
      ListingTail(rows, ts);
      ListingTail(rows, us);
      ListingUnique(rows - {ts[0].id}, ts[1..], us[1..]);
      assert ts == [ts[0]] + ts[1..] && us == [us[0]] + us[1..];
    }
  }
}
