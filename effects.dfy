/** What each request handler of the task API does to the table and answers, as a pure
    function of the table before the request, the parsed body, the path id and the clock
    reading `now`. The imperative handlers in `TaskServer` are proved to agree with these. */
module TaskEffects {
  import opened Options
  import opened PyText
  import opened Json
  import opened TaskRows

  /** The JSON body of a response. `NoContent` is the empty body of a 204; `ServerError`
      is the page the framework sends for an uncaught exception. */
  datatype Payload =
    | TaskJson(task: Task)
    | TaskListJson(tasks: seq<Task>)
    | ErrorJson(error: string)
    | NoContent
    | ServerError

  datatype Response = Response(status: int, payload: Payload)

  /** A handler's answer together with the table it leaves behind. */
  datatype Step = Step(response: Response, db: Db)

  const TitleRequired := "title is required"
  const TitleEmpty := "title cannot be empty"
  const NoFields := "no fields to update"
  const NotFound := "task not found"

  /** The title a handler goes on with: the text of a string value stripped, the empty
      string for a missing or falsy value, and `None` exactly for a truthy value that is
      not a string, on which `.strip()` raises and the request fails with 500. */
  function TitleValue(v: Option<Json>): (r: Option<string>)
    ensures r.None? <==> v.Some? && Truthy(v.value) && !v.value.JString?
  {
    if v.None? || !Truthy(v.value) then Some(Strip(""))
    else if v.value.JString? then Some(Strip(v.value.s))
    else None
  }

  /** A title comes out empty exactly when the key is missing, its value is falsy (null,
      false, 0, "", [] or {}), or it is a string of whitespace only. A title that
      survives is the stripped text of the string value, with no surrounding whitespace
      left. */
  lemma TitleValueCases(v: Option<Json>)
    ensures TitleValue(v) == Some([]) <==>
              v.None? || !Truthy(v.value) || (v.value.JString? && Blank(v.value.s))
    ensures TitleValue(v).Some? && TitleValue(v) != Some([]) ==>
              v.Some? && v.value.JString? && TitleValue(v).value == Strip(v.value.s)
    ensures TitleValue(v).Some? ==> Strip(TitleValue(v).value) == TitleValue(v).value
  {
  }

  /** The value stored in `completed`: 1 for a truthy supplied value, 0 for a falsy or
      missing one, never anything else. */
  function CompletedBit(v: Option<Json>): (bit: int)
    ensures bit == 0 || bit == 1
    ensures bit == 1 <==> v.Some? && Truthy(v.value)
  {
    if v.Some? && Truthy(v.value) then 1 else 0
  }

  /** `create_task` (POST /api/tasks). */
  function Create(db: Db, body: Body, now: Timestamp): (r: Step)
    requires WellFormed(db)
    ensures WellFormed(r.db) && r.db.sequence >= db.sequence
  {
    match TitleValue(body.title)
    case None => Step(Response(500, ServerError), db)
    case Some(title) =>
      if title == [] then Step(Response(400, ErrorJson(TitleRequired)), db)
      // AUTOINCREMENT refuses to go past the largest rowid (SQLITE_FULL)
      else if db.sequence == MaxRowId then Step(Response(500, ServerError), db)
      else
        var id := db.sequence + 1;
        var row := Row(title, Some(CompletedBit(body.completed)), now, now);
        Step(Response(201, TaskJson(RowToTask(id, row))), Db(db.rows[id := row], id))
  }

  /** The body checks of `update_task`, which run before the database is touched: 400 for
      a title that strips to nothing or for a body without either field, 500 for a title
      `.strip()` cannot be applied to. `None` means the body is accepted: some field is
      supplied, and a supplied title strips to non-empty text. */
  function UpdateBodyError(body: Body): (err: Option<Response>)
    ensures err.None? <==>
              && (body.title.Some? || body.completed.Some?)
              && (body.title.Some? ==> TitleValue(body.title).Some? && TitleValue(body.title) != Some([]))
    ensures err.Some? ==>
              err.value in {Response(500, ServerError), Response(400, ErrorJson(TitleEmpty)),
                            Response(400, ErrorJson(NoFields))}
  {
    if body.title.Some? && TitleValue(body.title).None? then Some(Response(500, ServerError))
    else if body.title.Some? && TitleValue(body.title) == Some([]) then Some(Response(400, ErrorJson(TitleEmpty)))
    else if body.title.None? && body.completed.None? then Some(Response(400, ErrorJson(NoFields)))
    else None
  }

  /** The row an accepted update leaves: the supplied fields, the old values of the others,
      and `updated_at = now`; `created_at` never changes. */
  function UpdatedRow(before: Row, body: Body, now: Timestamp): (after: Row)
    requires body.title.Some? ==> !Truthy(body.title.value) || body.title.value.JString?
    ensures after.createdAt == before.createdAt && after.updatedAt == now
    ensures after.title == (if body.title.Some? then TitleValue(body.title).value else before.title)
    ensures body.completed.Some? ==> after.completed == Some(CompletedBit(body.completed))
    ensures body.completed.None? ==> after.completed == before.completed
  {
    Row(if body.title.Some? then TitleValue(body.title).value else before.title,
        if body.completed.Some? then Some(CompletedBit(body.completed)) else before.completed,
        before.createdAt,
        now)
  }

  /** `update_task` (PUT /api/tasks/<id>). */
  function Update(db: Db, id: nat, body: Body, now: Timestamp): (r: Step)
    requires WellFormed(db)
    ensures WellFormed(r.db) && r.db.sequence == db.sequence
  {
    if UpdateBodyError(body).Some? then Step(UpdateBodyError(body).value, db)
    // binding an id beyond 64 bits raises OverflowError
    else if id > MaxRowId then Step(Response(500, ServerError), db)
    else if id !in db.rows then Step(Response(404, ErrorJson(NotFound)), db)
    else
      var row := UpdatedRow(db.rows[id], body, now);
      Step(Response(200, TaskJson(RowToTask(id, row))), Db(db.rows[id := row], db.sequence))
  }

  /** `toggle_task` (PATCH /api/tasks/<id>/toggle). */
  function Toggle(db: Db, id: nat, now: Timestamp): (r: Step)
    requires WellFormed(db)
    ensures WellFormed(r.db) && r.db.sequence == db.sequence
  {
    if id > MaxRowId then Step(Response(500, ServerError), db)
    else if id !in db.rows then Step(Response(404, ErrorJson(NotFound)), db)
    else
      var before := db.rows[id];
      var row := before.(completed := Some(if IsSet(before.completed) then 0 else 1), updatedAt := now);
      Step(Response(200, TaskJson(RowToTask(id, row))), Db(db.rows[id := row], db.sequence))
  }

  /** `delete_task` (DELETE /api/tasks/<id>). */
  function Delete(db: Db, id: nat): (r: Step)
    requires WellFormed(db)
    ensures WellFormed(r.db) && r.db.sequence == db.sequence
  {
    if id > MaxRowId then Step(Response(500, ServerError), db)
    else if id !in db.rows then Step(Response(404, ErrorJson(NotFound)), db)
    else Step(Response(204, NoContent), Db(db.rows - {id}, db.sequence))
  }

  // ---------------------------------------------------------------- create

  /** A create with a missing, null, falsy, empty or whitespace-only title is rejected with
      400 and leaves the table as it was; 400 happens for no other reason. */
  lemma CreateRejectsBlankTitle(db: Db, body: Body, now: Timestamp)
    requires WellFormed(db)
    ensures var r := Create(db, body, now);
      && (r.response.status == 400 <==>
            body.title.None? || !Truthy(body.title.value)
            || (body.title.value.JString? && Blank(body.title.value.s)))
      && (r.response.status == 400 ==> r.response.payload == ErrorJson(TitleRequired) && r.db == db)
  {
  }

  /** A successful create stores the stripped title, `completed = 1` exactly when the
      supplied value is truthy, and `now` in both timestamps, under an id that was absent,
      is greater than every id ever assigned (the counter), and becomes the new counter.
      The task returned is what `get_task_by_id` then reads back. */
  lemma CreateStoresTask(db: Db, body: Body, now: Timestamp)
    requires WellFormed(db)
    requires TitleValue(body.title).Some? && TitleValue(body.title) != Some([])
    requires db.sequence < MaxRowId
    ensures var r := Create(db, body, now);
      && r.response.status == 201 && r.response.payload.TaskJson?
      && var t := r.response.payload.task;
      && t.id !in db.rows
      && t.id > db.sequence
      && (forall k :: k in db.rows ==> k < t.id)
      && r.db.sequence == t.id
      && r.db.rows.Keys == db.rows.Keys + {t.id}
      && (forall k :: k in db.rows ==> r.db.rows[k] == db.rows[k])
      && body.title.value.JString?
      && r.db.rows[t.id].title == Strip(body.title.value.s) != []
      && (r.db.rows[t.id].completed == Some(1) <==> body.completed.Some? && Truthy(body.completed.value))
      && (r.db.rows[t.id].completed == Some(0) <==> !(body.completed.Some? && Truthy(body.completed.value)))
      && r.db.rows[t.id].createdAt == now && r.db.rows[t.id].updatedAt == now
      && GetTaskById(r.db.rows, t.id) == Some(t)
  {
    TitleValueCases(body.title);
  }

  /** Once the counter has reached the largest rowid, every create fails without a change. */
  lemma CreateWhenIdsExhausted(db: Db, body: Body, now: Timestamp)
    requires WellFormed(db) && db.sequence == MaxRowId
    ensures Create(db, body, now).db == db
    ensures Create(db, body, now).response.status != 201
  {
  }

  /** A task created when no stored row is newer than `now` comes first in the listing. */
  lemma NewTaskListedFirst(db: Db, body: Body, now: Timestamp, ts: seq<Task>)
    requires WellFormed(db)
    requires forall k :: k in db.rows ==> db.rows[k].createdAt <= now
    requires Create(db, body, now).response.status == 201
    requires IsListing(Create(db, body, now).db.rows, ts)
    ensures ts != [] && ts[0] == Create(db, body, now).response.payload.task
  {
    var r := Create(db, body, now);
    var id := r.db.sequence;
    assert id in r.db.rows;
    var i :| 0 <= i < |ts| && ts[i].id == id;
    ListingHeadFirst(r.db.rows, ts);
    if ts[0].id != id {
      assert false;
    }
  }

  // ---------------------------------------------------------------- update

  /** An update is rejected with 400 exactly when a `title` key is present but strips to
      nothing (whatever `completed` says) or neither key is present; a rejected update,
      like every other failed one, leaves the table unchanged. */
  lemma UpdateRejectsBadBody(db: Db, id: nat, body: Body, now: Timestamp)
    requires WellFormed(db)
    ensures var r := Update(db, id, body, now);
      && (r.response.status == 400 <==>
            (body.title.Some? && TitleValue(body.title) == Some([]))
            || (body.title.None? && body.completed.None?))
      && (r.response.status != 200 ==> r.db == db)
  {
  }

  /** An accepted update of an unknown id ends in 404 and a rollback: nothing changes. */
  lemma UpdateUnknownId(db: Db, id: nat, body: Body, now: Timestamp)
    requires WellFormed(db) && UpdateBodyError(body).None?
    requires id <= MaxRowId && id !in db.rows
    ensures Update(db, id, body, now) == Step(Response(404, ErrorJson(NotFound)), db)
  {
  }

  /** An accepted update of a stored row changes only the supplied fields and `updated_at`:
      the id, `created_at`, the fields not supplied, every other row and the counter stay,
      and the answer is 200 with the row as `get_task_by_id` reads it afterwards. */
  lemma UpdateKnownId(db: Db, id: nat, body: Body, now: Timestamp)
    requires WellFormed(db) && UpdateBodyError(body).None?
    requires id in db.rows
    ensures var r := Update(db, id, body, now);
      && r.response.status == 200
      && r.db.sequence == db.sequence
      && r.db.rows.Keys == db.rows.Keys
      && (forall k :: k in db.rows && k != id ==> r.db.rows[k] == db.rows[k])
      && var before, after := db.rows[id], r.db.rows[id];
      && after.createdAt == before.createdAt
      && after.updatedAt == now
      && (body.title.None? ==> after.title == before.title)
      && (body.title.Some? ==>
            body.title.value.JString? && after.title == Strip(body.title.value.s) != [])
      && (body.completed.None? ==> after.completed == before.completed)
      && (body.completed.Some? ==>
            after.completed == Some(if Truthy(body.completed.value) then 1 else 0))
      && r.response.payload == TaskJson(GetTaskById(r.db.rows, id).value)
  {
  }

  // ---------------------------------------------------------------- toggle

  /** Toggling an unknown id answers 404 and changes nothing. */
  lemma ToggleUnknownId(db: Db, id: nat, now: Timestamp)
    requires WellFormed(db) && id <= MaxRowId && id !in db.rows
    ensures Toggle(db, id, now) == Step(Response(404, ErrorJson(NotFound)), db)
  {
  }

  /** Toggling a stored row flips what the API reports as `completed` (storing 1 for 0 or
      NULL and 0 for anything else), sets `updated_at = now`, and changes nothing else. */
  lemma ToggleFlips(db: Db, id: nat, now: Timestamp)
    requires WellFormed(db) && id in db.rows
    ensures var r := Toggle(db, id, now);
      && r.response.status == 200
      && r.db.sequence == db.sequence
      && r.db.rows.Keys == db.rows.Keys
      && (forall k :: k in db.rows && k != id ==> r.db.rows[k] == db.rows[k])
      && var before, after := db.rows[id], r.db.rows[id];
      && after == before.(completed := after.completed, updatedAt := now)
      && (after.completed == Some(1) <==> !IsSet(before.completed))
      && (after.completed == Some(0) <==> IsSet(before.completed))
      && RowToTask(id, after).completed == !RowToTask(id, before).completed
      && r.response.payload == TaskJson(GetTaskById(r.db.rows, id).value)
  {
  }

  /** Toggling twice gives back the `completed` the API reported, and the stored value too
      when it was 0 or 1; only `updated_at` is left at the second reading of the clock. */
  lemma ToggleTwiceRestores(db: Db, id: nat, now1: Timestamp, now2: Timestamp)
    requires WellFormed(db) && id in db.rows
    ensures var once := Toggle(db, id, now1).db;
      var twice := Toggle(once, id, now2).db;
      && twice.rows.Keys == db.rows.Keys
      && (forall k :: k in db.rows && k != id ==> twice.rows[k] == db.rows[k])
      && RowToTask(id, twice.rows[id]).completed == RowToTask(id, db.rows[id]).completed
      && (db.rows[id].completed in {Some(0), Some(1)} ==>
            twice.rows[id] == db.rows[id].(updatedAt := now2))
  {
  }

  // ---------------------------------------------------------------- delete

  /** Deleting a stored row removes that row only and answers 204 with no body. */
  lemma DeleteKnownId(db: Db, id: nat)
    requires WellFormed(db) && id in db.rows
    ensures var r := Delete(db, id);
      && r.response == Response(204, NoContent)
      && r.db.sequence == db.sequence
      && r.db.rows.Keys == db.rows.Keys - {id}
      && (forall k :: k in r.db.rows ==> r.db.rows[k] == db.rows[k])
  {
  }

  /** Deleting an unknown id answers 404 and changes nothing. */
  lemma DeleteUnknownId(db: Db, id: nat)
    requires WellFormed(db) && id <= MaxRowId && id !in db.rows
    ensures Delete(db, id) == Step(Response(404, ErrorJson(NotFound)), db)
  {
  }

  /** After a delete the id is gone for good: reading it finds nothing, and a second delete,
      a toggle or an accepted update of it answers 404 without a change. */
  lemma DeletedIdIsGone(db: Db, id: nat, body: Body, now: Timestamp)
    requires WellFormed(db) && Delete(db, id).response.status == 204
    requires UpdateBodyError(body).None?
    ensures var gone := Delete(db, id).db;
      && GetTaskById(gone.rows, id).None?
      && Delete(gone, id) == Step(Response(404, ErrorJson(NotFound)), gone)
      && Toggle(gone, id, now) == Step(Response(404, ErrorJson(NotFound)), gone)
      && Update(gone, id, body, now) == Step(Response(404, ErrorJson(NotFound)), gone)
  {
  }

  // ---------------------------------------------------------------- what the handlers store

  /** A table holding only what the handlers write: every title non-empty and already
      stripped (no whitespace at either end), every `completed` 0 or 1 (never NULL). */
  predicate Clean(db: Db) {
    forall id :: id in db.rows ==> CleanRow(db.rows[id])
  }

  /** A row as the handlers write it: a non-empty title that neither starts nor ends with
      whitespace, and `completed` 0 or 1. */
  predicate CleanRow(row: Row) {
    && row.title != []
    && !IsSpace(row.title[0]) && !IsSpace(row.title[|row.title| - 1])
    && (row.completed == Some(0) || row.completed == Some(1))
  }

  /** A create leaves a clean table clean: the row it adds has a stripped non-empty title
      and `completed` 0 or 1. */
  lemma CreateKeepsClean(db: Db, body: Body, now: Timestamp)
    requires WellFormed(db) && Clean(db)
    ensures Clean(Create(db, body, now).db)
  {
  }

  /** An update leaves a clean table clean: a supplied title is stored stripped and
      non-empty, a supplied `completed` as 0 or 1. */
  lemma UpdateKeepsClean(db: Db, id: nat, body: Body, now: Timestamp)
    requires WellFormed(db) && Clean(db)
    ensures Clean(Update(db, id, body, now).db)
  {
  }

  /** A toggle leaves a clean table clean: it stores 0 or 1. */
  lemma ToggleKeepsClean(db: Db, id: nat, now: Timestamp)
    requires WellFormed(db) && Clean(db)
    ensures Clean(Toggle(db, id, now).db)
  {
  }

  /** A delete leaves a clean table clean: it only removes a row. */
  lemma DeleteKeepsClean(db: Db, id: nat)
    requires WellFormed(db) && Clean(db)
    ensures Clean(Delete(db, id).db)
  {
  }
}
