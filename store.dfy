/** The request handlers of the task API as methods of the table they change. Each
    statement `api_server.py` sends to SQLite becomes the change it makes to `rows` and
    `sequence`; each handler is proved to answer and to leave the table exactly as the
    corresponding function of `TaskEffects` says. */
module TaskServer {
  import opened Options
  import opened Json
  import opened TaskRows
  import opened TaskEffects

  /** One `column = ?` item of an UPDATE's SET list, with its bound parameter. */
  datatype Assignment = SetTitle(title: string) | SetCompleted(bit: int) | SetUpdatedAt(at: Timestamp)

  function AssignOne(row: Row, a: Assignment): Row {
    match a
    case SetTitle(t) => row.(title := t)
    case SetCompleted(b) => row.(completed := Some(b))
    case SetUpdatedAt(at) => row.(updatedAt := at)
  }

  /** A row after `SET a1, ..., an`. */
  function Assign(row: Row, fields: seq<Assignment>): Row
    decreases |fields|
  {
    if fields == [] then row else AssignOne(Assign(row, fields[..|fields| - 1]), fields[|fields| - 1])
  }

  /** Appending an item to a SET list applies it last. */
  lemma AssignSnoc(row: Row, fields: seq<Assignment>, a: Assignment)
    ensures Assign(row, fields + [a]) == AssignOne(Assign(row, fields), a)
  {
  }

  /** The SET list `update_task` builds (the title if given, `completed` if given, then
      `updated_at`) makes the row `UpdatedRow` describes. */
  lemma AssignmentsOfUpdate(row: Row, body: Body, now: Timestamp, titlePart: seq<Assignment>,
                            completedPart: seq<Assignment>)
    requires body.title.Some? ==> !Truthy(body.title.value) || body.title.value.JString?
    requires titlePart == if body.title.Some? then [SetTitle(TitleValue(body.title).value)] else []
    requires completedPart == if body.completed.Some? then [SetCompleted(CompletedBit(body.completed))] else []
    ensures Assign(row, titlePart + completedPart + [SetUpdatedAt(now)]) == UpdatedRow(row, body, now)
  {
    var titled := Assign(row, titlePart);
    if titlePart != [] {
      AssignSnoc(row, [], titlePart[0]);
      assert [] + [titlePart[0]] == titlePart;
    }
    assert titled.createdAt == row.createdAt && titled.completed == row.completed;
    var marked := Assign(row, titlePart + completedPart);
    if completedPart != [] {
      AssignSnoc(row, titlePart, completedPart[0]);
    } else {
      assert titlePart + completedPart == titlePart;
    }
    assert marked == if completedPart == [] then titled else titled.(completed := Some(CompletedBit(body.completed)));
    AssignSnoc(row, titlePart + completedPart, SetUpdatedAt(now));
  }

  /** The `tasks` table of one database file. */
  class TaskStore {
    var rows: map<int, Row>
    /** The AUTOINCREMENT counter: the largest id ever assigned. */
    var sequence: int

    function Snapshot(): Db
      reads this
    {
      Db(rows, sequence)
    }

    ghost predicate Valid()
      reads this
    {
      WellFormed(Snapshot())
    }

    /** `ensure_tasks_table` on a new database file: an empty table whose counter is 0. */
    constructor ()
      ensures Valid() && Snapshot() == EmptyDb()
    {
      rows := map[];
      sequence := 0;
    }

    /** `list_tasks` (GET /api/tasks): 200 and every stored row exactly once, converted by
        `row_to_task`, newest `created_at` first and larger ids first among equals. */
    method ListTasks() returns (resp: Response)
      ensures resp.status == 200 && resp.payload.TaskListJson?
      ensures IsListing(rows, resp.payload.tasks)
      ensures |resp.payload.tasks| == |rows|
    {
      var table := rows;
      // the listing query, newest first
      var ids := OrderByCreatedDesc(table);
      // every fetched row converted to a task
      var tasks := seq(|ids|, i requires 0 <= i < |ids| => RowToTask(ids[i], table[ids[i]]));
      forall id | id in table
        ensures exists i :: 0 <= i < |tasks| && tasks[i].id == id
      {
        var i :| 0 <= i < |ids| && ids[i] == id;
        assert tasks[i].id == id;
      }
      ListingLength(table, tasks);
      resp := Response(200, TaskListJson(tasks));
    }

    /** The INSERT of a new row under AUTOINCREMENT: the row gets one more than
        the largest id ever assigned, which becomes the counter and `lastrowid`; `None` is
        SQLITE_FULL, when the counter is at the largest rowid, and nothing is stored. */
    method Insert(row: Row) returns (lastRowId: Option<int>)
      requires Valid()
      modifies this
      ensures Valid()
      ensures old(sequence) == MaxRowId ==>
                lastRowId.None? && rows == old(rows) && sequence == old(sequence)
      ensures old(sequence) < MaxRowId ==>
                && lastRowId == Some(old(sequence) + 1)
                && rows == old(rows)[old(sequence) + 1 := row]
                && sequence == old(sequence) + 1
    {
      if sequence == MaxRowId {
        return None;
      }
      var id := sequence + 1;
      rows := rows[id := row];
      sequence := id;
      lastRowId := Some(id);
    }

    /** An UPDATE with a SET list, restricted to one id: the row with that id, if there is one, takes
        the assigned values; `rowcount` is the number of rows matched. */
    method ExecuteUpdate(id: int, fields: seq<Assignment>) returns (rowcount: nat)
      modifies this
      ensures sequence == old(sequence)
      ensures id in old(rows) ==> rowcount == 1 && rows == old(rows)[id := Assign(old(rows)[id], fields)]
      ensures id !in old(rows) ==> rowcount == 0 && rows == old(rows)
    {
      if id in rows {
        rows := rows[id := Assign(rows[id], fields)];
        rowcount := 1;
      } else {
        rowcount := 0;
      }
    }

    /** `create_task` (POST /api/tasks). */
    method CreateTask(body: Body, now: Timestamp) returns (resp: Response)
      requires Valid()
      modifies this
      ensures Valid()
      ensures Step(resp, Snapshot()) == Create(old(Snapshot()), body, now)
    {
      var title := TitleValue(body.title);
      if title.None? {
        return Response(500, ServerError);
      }
      if title.value == [] {
        return Response(400, ErrorJson(TitleRequired));
      }
      var completed := CompletedBit(body.completed);
      var lastRowId := Insert(Row(title.value, Some(completed), now, now));
      if lastRowId.None? {
        return Response(500, ServerError);
      }
      // commit, then read the new row back
      var task := GetTaskById(rows, lastRowId.value);
      resp := Response(201, TaskJson(task.value));
    }

    /** `update_task` (PUT /api/tasks/<id>). */
    method UpdateTask(id: nat, body: Body, now: Timestamp) returns (resp: Response)
      requires Valid()
      modifies this
      ensures Valid()
      ensures Step(resp, Snapshot()) == Update(old(Snapshot()), id, body, now)
    {
      var fields: seq<Assignment> := [];
      if body.title.Some? {
        var title := TitleValue(body.title);
        if title.None? {
          return Response(500, ServerError);
        }
        if title.value == [] {
          return Response(400, ErrorJson(TitleEmpty));
        }
        fields := fields + [SetTitle(title.value)];
      }
      ghost var titlePart := fields;
      if body.completed.Some? {
        fields := fields + [SetCompleted(CompletedBit(body.completed))];
      }
      ghost var completedPart := fields[|titlePart|..];
      assert fields == titlePart + completedPart;
      if fields == [] {
        return Response(400, ErrorJson(NoFields));
      }
      fields := fields + [SetUpdatedAt(now)];
      if id > MaxRowId {
        // binding the id parameter raises OverflowError
        return Response(500, ServerError);
      }
      var saved := rows;
      var rowcount := ExecuteUpdate(id, fields);
      if rowcount == 0 {
        rows := saved;  // rollback
        return Response(404, ErrorJson(NotFound));
      }
      AssignmentsOfUpdate(saved[id], body, now, titlePart, completedPart);
      // commit, then read the row back
      var task := GetTaskById(rows, id);
      resp := Response(200, TaskJson(task.value));
    }

    /** `toggle_task` (PATCH /api/tasks/<id>/toggle): a read of `completed`, then a write of
        its flip, as two statements. */
    method ToggleTask(id: nat, now: Timestamp) returns (resp: Response)
      requires Valid()
      modifies this
      ensures Valid()
      ensures Step(resp, Snapshot()) == Toggle(old(Snapshot()), id, now)
    {
      if id > MaxRowId {
        return Response(500, ServerError);
      }
      // read the stored `completed` of that id, if the row exists
      var current := if id in rows then Some(rows[id].completed) else None;
      if current.None? {
        return Response(404, ErrorJson(NotFound));
      }
      var newVal := if IsSet(current.value) then 0 else 1;
      var fields := [SetCompleted(newVal), SetUpdatedAt(now)];
      AssignSnoc(rows[id], [SetCompleted(newVal)], SetUpdatedAt(now));
      AssignSnoc(rows[id], [], SetCompleted(newVal));
      assert [SetCompleted(newVal)] + [SetUpdatedAt(now)] == fields && [] + [SetCompleted(newVal)] == [SetCompleted(newVal)];
      var matched := ExecuteUpdate(id, fields);
      // commit, then read the row back
      var task := GetTaskById(rows, id);
      resp := Response(200, TaskJson(task.value));
    }

    /** `delete_task` (DELETE /api/tasks/<id>). */
    method DeleteTask(id: nat) returns (resp: Response)
      requires Valid()
      modifies this
      ensures Valid()
      ensures Step(resp, Snapshot()) == Delete(old(Snapshot()), id)
    {
      if id > MaxRowId {
        return Response(500, ServerError);
      }
      var saved := rows;
      // remove the row with that id; `rowcount` is how many went
      var rowcount := if id in rows then 1 else 0;
      rows := rows - {id};
      if rowcount == 0 {
        rows := saved;  // rollback
        return Response(404, ErrorJson(NotFound));
      }
      resp := Response(204, NoContent);
    }
  }
}
