/** The four state-changing routes of the API side by side, and what holds over any
    sequence of requests: failed requests change nothing, and AUTOINCREMENT never hands
    out an id twice, not even one whose row has been deleted. (GET /api/tasks changes
    nothing and is left out of runs.) */
module TaskRuns {
  import opened Json
  import opened TaskRows
  import opened TaskEffects

  datatype Request =
    | CreateRequest(body: Body)                // POST   /api/tasks
    | UpdateRequest(id: nat, body: Body)       // PUT    /api/tasks/<id>
    | ToggleRequest(id: nat)                   // PATCH  /api/tasks/<id>/toggle
    | DeleteRequest(id: nat)                   // DELETE /api/tasks/<id>

  /** A request and the clock reading its handler takes. */
  datatype Call = Call(request: Request, now: Timestamp)

  /** The route table: the handler a request reaches. Every failure (any status but 200,
      201 and 204) leaves the table as it was; the counter moves only on a create that
      answers 201, and then to the id of the task it returns, which was not in the table. */
  function Handle(db: Db, call: Call): (r: Step)
    requires WellFormed(db)
    ensures WellFormed(r.db) && r.db.sequence >= db.sequence
    ensures r.response.status !in {200, 201, 204} ==> r.db == db
    ensures r.response.status == 201 <==> r.db.sequence != db.sequence
    ensures r.response.status == 201 ==>
              && r.response.payload.TaskJson?
              && r.response.payload.task.id == r.db.sequence
              && r.db.sequence !in db.rows
  {
    match call.request
    case CreateRequest(body) => Create(db, body, call.now)
    case UpdateRequest(id, body) => Update(db, id, body, call.now)
    case ToggleRequest(id) => Toggle(db, id, call.now)
    case DeleteRequest(id) => Delete(db, id)
  }

  /** The table after handling `calls` one after the other. */
  function Run(db: Db, calls: seq<Call>): (r: Db)
    requires WellFormed(db)
    ensures WellFormed(r) && r.sequence >= db.sequence
    decreases |calls|
  {
    if calls == [] then db else Run(Handle(db, calls[0]).db, calls[1..])
  }

  /** The ids of the tasks created along `calls`, in order. */
  function CreatedIds(db: Db, calls: seq<Call>): seq<int>
    requires WellFormed(db)
    decreases |calls|
  {
    if calls == [] then []
    else
      var step := Handle(db, calls[0]);
      (if step.response.status == 201 then [step.response.payload.task.id] else [])
      + CreatedIds(step.db, calls[1..])
  }

  predicate Increasing(ids: seq<int>) {
    forall i, j :: 0 <= i < j < |ids| ==> ids[i] < ids[j]
  }

  /** Ids are never reused: along any run the created ids strictly increase, each is above
      every id assigned before the run (deleted or not), and the counter ends at or above
      all of them. */
  lemma {:induction false} CreatedIdsIncrease(db: Db, calls: seq<Call>)
    requires WellFormed(db)
    ensures forall i :: 0 <= i < |CreatedIds(db, calls)| ==>
              db.sequence < CreatedIds(db, calls)[i] <= Run(db, calls).sequence
    ensures Increasing(CreatedIds(db, calls))
    decreases |calls|
  {
    if calls != [] {
      var step := Handle(db, calls[0]);
      CreatedIdsIncrease(step.db, calls[1..]);
      var first := step.db.sequence;
      var tail := CreatedIds(step.db, calls[1..]);
      CreatedIdsUnfold(db, calls);
      var ids := CreatedIds(db, calls);
      forall i, j | 0 <= i < j < |ids|
        ensures ids[i] < ids[j]
      {
        if i < |ids| - |tail| {
          assert ids[i] == first && ids[j] == tail[j - (|ids| - |tail|)];
        } else {
          assert ids[i] == tail[i - (|ids| - |tail|)] && ids[j] == tail[j - (|ids| - |tail|)];
        }
      }
    }
  }

  /** One step of a run: the first call contributes the new counter value exactly when it
      moved the counter. */
  lemma CreatedIdsUnfold(db: Db, calls: seq<Call>)
    requires WellFormed(db) && calls != []
    ensures var step := Handle(db, calls[0]);
      && CreatedIds(db, calls) == (if step.db.sequence != db.sequence then [step.db.sequence] else [])
                                  + CreatedIds(step.db, calls[1..])
      && step.db.sequence >= db.sequence
      && Run(db, calls) == Run(step.db, calls[1..])
  {
  }

  /** No run gives a created task an id that a row had before the run, or that another
      task created in the same run has. */
  lemma CreatedIdsFresh(db: Db, calls: seq<Call>)
    requires WellFormed(db)
    ensures forall i :: 0 <= i < |CreatedIds(db, calls)| ==> CreatedIds(db, calls)[i] !in db.rows
    ensures forall i, j :: 0 <= i < |CreatedIds(db, calls)| && 0 <= j < |CreatedIds(db, calls)| && i != j ==>
              CreatedIds(db, calls)[i] != CreatedIds(db, calls)[j]
  {
    CreatedIdsIncrease(db, calls);
    var ids := CreatedIds(db, calls);
    forall i, j | 0 <= i < |ids| && 0 <= j < |ids| && i != j
      ensures ids[i] != ids[j]
    {
      if i < j { assert ids[i] < ids[j]; } else { assert ids[j] < ids[i]; }
    }
  }

  /** Every route leaves a clean table clean. */
  lemma HandleKeepsClean(db: Db, call: Call)
    requires WellFormed(db) && Clean(db)
    ensures Clean(Handle(db, call).db)
  {
    match call.request
    case CreateRequest(body) => CreateKeepsClean(db, body, call.now);
    case UpdateRequest(id, body) => UpdateKeepsClean(db, id, body, call.now);
    case ToggleRequest(id) => ToggleKeepsClean(db, id, call.now);
    case DeleteRequest(id) => DeleteKeepsClean(db, id);
  }

  /** Any run from a clean table ends in a clean table. */
  lemma {:induction false} RunKeepsClean(db: Db, calls: seq<Call>)
    requires WellFormed(db) && Clean(db)
    ensures Clean(Run(db, calls))
    decreases |calls|
  {
    if calls != [] {
      HandleKeepsClean(db, calls[0]);
      RunKeepsClean(Handle(db, calls[0]).db, calls[1..]);
    }
  }

  /** A table that only the API has written to, from the empty table on, holds no NULL
      `completed` and no empty or unstripped title. */
  lemma FreshTableStaysClean(calls: seq<Call>)
    ensures Clean(Run(EmptyDb(), calls))
  {
    RunKeepsClean(EmptyDb(), calls);
  }
}
