# Task table API — a Dafny model

This project models the core of a small Flask service that stores to-do tasks in a
SQLite table. The service offers five routes: list, create, update, toggle and delete.
The model keeps the `tasks` table and its AUTOINCREMENT counter as state. Each of the five
handlers is an imperative method that changes that state the way the handler's SQL
statements do. The four state-changing methods are proved to give exactly the response
and new table of a pure function of the old table and the request. `ListTasks` is proved
to return a listing in the query's order; the lemma `ListingUnique` shows there is only one
such listing. The properties the service promises are proved as lemmas about those
functions.

Layout:

- `options.dfy`: `Option`, used for missing keys, missing rows and failed statements.
- `text.dfy` (`PyText`): Python's `str.strip()` and the whitespace it removes.
- `json.dfy` (`Json`): the parsed request body. It records whether the `title` key and the
  `completed` key are present, and the JSON value of each. It also defines Python
  truthiness of a JSON value.
- `rows.dfy` (`TaskRows`): stored rows and API tasks. It holds `row_to_task`,
  `get_task_by_id`, the AUTOINCREMENT invariant, and the `ORDER BY created_at DESC, id DESC`
  listing, with the method that computes it.
- `effects.dfy` (`TaskEffects`): one pure function per handler. Each maps (table, body,
  path id, `now`) to (response, new table). The lemmas state what each handler
  guarantees.
- `store.dfy` (`TaskServer`): class `TaskStore` with fields `rows` and `sequence`. Its
  handler methods follow `api_server.py` step by step:
  - early validation returns;
  - the `fields` list that `update_task` builds with `append`;
  - INSERT with `lastrowid`;
  - UPDATE or DELETE with `rowcount`, then rollback or commit;
  - the read of the row after commit.
- `runs.dfy` (`TaskRuns`): applies the state-changing routes to any sequence of requests.
  It proves that failed requests change nothing and that ids are never reused.

How the environment is modelled:

- The clock (`datetime.utcnow()`) is a `now: Timestamp` parameter. A timestamp is an
  integer. ISO strings of one fixed format sort the same way as the instants they name.
- A path id is a `nat`, since Flask's `int` converter only accepts unsigned integers.
- `MaxRowId` is 2^63 - 1. SQLite will not assign an id larger than this.
- Failures `api_server.py` does not catch become status 500 with no change to the table:
  - a truthy `title` that is not a string: `.strip()` raises;
  - a path id above 2^63 - 1: binding it raises `OverflowError`;
  - an INSERT once the counter has reached 2^63 - 1: SQLITE_FULL.

Behaviour of `api_server.py` worth knowing:

- In `update_task` the body checks (lines 139-152) run before the id is looked up. So an
  update of an unknown id with a bad body answers 400 (or 500), not 404.
- Stored rows may hold NULL in `completed` (a row written by another program, since the
  column only has a default). `row_to_task` reads NULL as false (line 62), and the model
  keeps NULL in its rows. No handler ever writes NULL or a blank title: `FreshTableStaysClean`
  proves this for every table the API builds from an empty one.
- Toggling twice restores what the API reports. It restores the stored value only when that
  value was 0 or 1, because NULL becomes 1 and then 0, and 5 becomes 0 and then 1.

## Model

| member | source | states |
|---|---|---|
| `TaskRows.RowToTask` | tasks_database/api_server.py:57-65 | the task has the row's id, title and timestamps; its `completed` is false exactly when the stored value is NULL or 0 |
| `TaskRows.GetTaskById` | tasks_database/api_server.py:68-72 | there is a result if and only if a row has that id, and it is that row converted by `row_to_task` |
| `TaskRows.RowToTaskRoundTrip` | tasks_database/api_server.py:57-65 | converting a row to a task and back gives the same row if and only if its `completed` is 0 or 1 (NULL reads as false, any non-zero value as true); converting any task to its stored row and back gives the same task |
| `TaskRows.EmptyDb` | tasks_database/api_server.py:219-236 | the freshly created table is empty and meets the AUTOINCREMENT invariant |
| `TaskServer.TaskStore.constructor` | tasks_database/api_server.py:239-242 | startup leaves a valid store with no rows and counter 0 |
| `TaskRows.FirstInOrder` | tasks_database/api_server.py:84 | the id it picks from a non-empty set of stored ids comes before every other id in the set in `created_at DESC, id DESC` order |
| `TaskRows.OrderByCreatedDesc` | tasks_database/api_server.py:84 | the query visits only stored ids, visits every stored id, and visits them in strict `created_at DESC, id DESC` order |
| `TaskServer.TaskStore.ListTasks` | tasks_database/api_server.py:77-88 | status 200; each element equals what `get_task_by_id` returns for its id (so `completed` is the boolean of the stored value); every stored row appears; the order is strictly `created_at DESC, id DESC`; there are as many tasks as rows |
| `TaskRows.ListingIdsDistinct` | tasks_database/api_server.py:84-85 | no id appears twice in a listing |
| `TaskRows.ListingHeadFirst` | tasks_database/api_server.py:84 | the first task of a listing is a stored row, and it comes before every other stored row |
| `TaskRows.ListingTail` | tasks_database/api_server.py:84-85 | a listing without its first task is a listing of the other rows |
| `TaskRows.ListingLength` | tasks_database/api_server.py:84-85 | a listing has exactly one task per stored row |
| `TaskRows.ListingUnique` | tasks_database/api_server.py:84 | the listing is determined by the table: two listings of the same rows are equal |
| `PyText.IsSpace` | tasks_database/api_server.py:103 | space, tab, newline and carriage return are whitespace to `strip()`; no visible ASCII character is |
| `Json.Truthy` | tasks_database/api_server.py:103-106 | a JSON value is falsy exactly when it is null, false, zero, the empty string, the empty array or the empty object |
| `PyText.LeadingSpaces` | tasks_database/api_server.py:103 | the returned length covers only whitespace, and the character after it is not whitespace |
| `PyText.TrailingSpaces` | tasks_database/api_server.py:103 | the returned length covers only whitespace at the end, and the character before it is not whitespace |
| `PyText.Strip` | tasks_database/api_server.py:103 | the result is the slice of the input after its leading whitespace; only whitespace follows it; it neither starts nor ends with whitespace; it is empty if and only if the input is all whitespace |
| `PyText.StripIdempotent` | tasks_database/api_server.py:140 | stripping an already stripped title changes nothing |
| `TaskEffects.TitleValue` | tasks_database/api_server.py:103 | there is no title, and the request fails (500), if and only if the value is present, truthy and not a string |
| `TaskEffects.TitleValueCases` | tasks_database/api_server.py:103-104 | the title comes out empty if and only if the key is missing, the value is falsy, or the value is whitespace-only text; a non-empty title is the stripped text of the string value, and is already stripped |
| `TaskEffects.CompletedBit` | tasks_database/api_server.py:106 | the stored bit is 0 or 1, and 1 exactly when the supplied value is present and truthy |
| `TaskEffects.Create` | tasks_database/api_server.py:102-118 | every outcome of a create keeps the AUTOINCREMENT invariant and never lowers the counter |
| `TaskServer.TaskStore.CreateTask` | tasks_database/api_server.py:93-120 | the response and the new table are exactly those of `TaskEffects.Create` on the old table, and the invariant is kept |
| `TaskServer.TaskStore.Insert` | tasks_database/api_server.py:111-115 | under AUTOINCREMENT the row gets id counter + 1, which becomes the counter and `lastrowid`; when the counter is at the largest rowid nothing is stored |
| `TaskEffects.CreateRejectsBlankTitle` | tasks_database/api_server.py:102-105 | a create answers 400 if and only if the title is missing, null or otherwise falsy, empty, or whitespace-only; the answer is then "title is required" and the table is unchanged |
| `TaskEffects.CreateStoresTask` | tasks_database/api_server.py:106-118 | a valid create answers 201 under a new id: the id was absent, is above every stored id and above the counter, and becomes the new counter; the new row holds the request's title text stripped, which is non-empty, `completed` 1 exactly when the supplied value is truthy (otherwise 0), and `now` in both timestamps; existing rows are kept; the task returned is what `get_task_by_id` reads back |
| `TaskEffects.CreateWhenIdsExhausted` | tasks_database/api_server.py:226 | once the counter is at the largest rowid, no create succeeds and the table stays as it was |
| `TaskEffects.NewTaskListedFirst` | tasks_database/api_server.py:84-118 | a task created when no stored row has a later `created_at` than `now` is the first task of the next listing |
| `TaskEffects.UpdateBodyError` | tasks_database/api_server.py:139-152 | a body is accepted if and only if some field is supplied and a supplied title strips to non-empty text; a rejection is 500, 400 "title cannot be empty" or 400 "no fields to update" |
| `TaskEffects.UpdatedRow` | tasks_database/api_server.py:143-155 | an accepted update keeps `created_at`, sets `updated_at = now`, takes a supplied title and `completed` (as 0 or 1), and keeps the fields not supplied |
| `TaskEffects.Update` | tasks_database/api_server.py:135-166 | every outcome of an update keeps the AUTOINCREMENT invariant and the counter |
| `TaskServer.TaskStore.UpdateTask` | tasks_database/api_server.py:125-168 | the response and the new table are exactly those of `TaskEffects.Update`, and the invariant is kept |
| `TaskServer.AssignmentsOfUpdate` | tasks_database/api_server.py:136-160 | the SET list built with `append` (title if given, completed if given, then `updated_at`) turns a row into the partially updated row |
| `TaskServer.TaskStore.ExecuteUpdate` | tasks_database/api_server.py:160-161 | the matching row takes the assigned values and `rowcount` is 1; with no matching row, `rowcount` is 0 and nothing changes |
| `TaskEffects.UpdateRejectsBadBody` | tasks_database/api_server.py:139-152 | an update answers 400 if and only if a `title` key is present but strips to nothing (even when `completed` is given), or neither key is present; any answer other than 200 leaves the table unchanged |
| `TaskEffects.UpdateUnknownId` | tasks_database/api_server.py:158-163 | an accepted body on an id that is not stored gives 404 "task not found", and the rollback leaves the table unchanged |
| `TaskEffects.UpdateKnownId` | tasks_database/api_server.py:154-166 | on a stored id: status 200; the same ids and counter; other rows untouched; `created_at` kept and `updated_at = now`; a field that was not supplied keeps its value; a supplied title is the request's string stripped, and non-empty; a supplied `completed` is stored as 1 or 0 by truthiness; the answer is the row as read back |
| `TaskEffects.Toggle` | tasks_database/api_server.py:179-196 | every outcome of a toggle keeps the AUTOINCREMENT invariant and the counter |
| `TaskServer.TaskStore.ToggleTask` | tasks_database/api_server.py:173-196 | the response and the new table are exactly those of `TaskEffects.Toggle`, and the invariant is kept |
| `TaskEffects.ToggleUnknownId` | tasks_database/api_server.py:182-185 | toggling an id that is not stored answers 404 "task not found" and changes nothing |
| `TaskEffects.ToggleFlips` | tasks_database/api_server.py:187-194 | on a stored id: status 200; `completed` becomes 1 for 0 or NULL and 0 for any other value, so the reported boolean is negated; `updated_at = now`; nothing else in the row or the table changes; the answer is the row as read back |
| `TaskEffects.ToggleTwiceRestores` | tasks_database/api_server.py:187-192 | two toggles restore the reported `completed` and leave other rows alone; a stored 0 or 1 comes back exactly, with only `updated_at` changed |
| `TaskEffects.Delete` | tasks_database/api_server.py:207-216 | every outcome of a delete keeps the AUTOINCREMENT invariant and the counter |
| `TaskServer.TaskStore.DeleteTask` | tasks_database/api_server.py:201-216 | the response and the new table are exactly those of `TaskEffects.Delete`, and the invariant is kept |
| `TaskEffects.DeleteKnownId` | tasks_database/api_server.py:209-214 | deleting a stored id answers 204 with no body, removes that row only, and keeps the counter |
| `TaskEffects.DeleteUnknownId` | tasks_database/api_server.py:209-212 | deleting an id that is not stored answers 404 "task not found" and changes nothing |
| `TaskEffects.DeletedIdIsGone` | tasks_database/api_server.py:161-214 | after a successful delete the row cannot be read; a second delete, a toggle or an accepted update of that id answers 404 with no change |
| `TaskRuns.Handle` | tasks_database/api_server.py:92-216 | for any of the four state-changing routes: the invariant holds and the counter never goes down; any status other than 200, 201 or 204 leaves the table unchanged; the counter moves if and only if the answer is 201, and then it moves to the returned task's id, which was not stored before |
| `TaskRuns.Run` | tasks_database/api_server.py:92-216 | any sequence of requests keeps the invariant and never lowers the counter |
| `TaskRuns.CreatedIdsUnfold` | tasks_database/api_server.py:115 | a run's created ids are the first request's new counter value (if it moved the counter) followed by the ids created by the rest of the run; the run continues from the table the first request left |
| `TaskRuns.CreatedIdsIncrease` | tasks_database/api_server.py:226 | along any run the created ids strictly increase; each is above the counter at the start of the run, so above every id assigned before, deleted or not; each is at most the final counter |
| `TaskRuns.CreatedIdsFresh` | tasks_database/api_server.py:226 | no created id belonged to a row stored before the run, and no two creations in a run get the same id |

| `TaskEffects.CreateKeepsClean` | tasks_database/api_server.py:103-113 | a create on a clean table (every title non-empty with no whitespace at either end, every `completed` 0 or 1) leaves it clean |
| `TaskEffects.UpdateKeepsClean` | tasks_database/api_server.py:139-160 | an update on a clean table leaves it clean |
| `TaskEffects.ToggleKeepsClean` | tasks_database/api_server.py:187-191 | a toggle on a clean table leaves it clean |
| `TaskEffects.DeleteKeepsClean` | tasks_database/api_server.py:209 | a delete on a clean table leaves it clean |
| `TaskRuns.HandleKeepsClean` | tasks_database/api_server.py:92-216 | every state-changing route keeps a clean table clean |
| `TaskRuns.RunKeepsClean` | tasks_database/api_server.py:92-216 | any sequence of requests on a clean table ends in a clean table |
| `TaskRuns.FreshTableStaysClean` | tasks_database/api_server.py:219-242 | from the empty table that startup creates, any sequence of requests leaves no NULL `completed` and no empty or unstripped title |

## Left out

- Flask routing, `jsonify` and CORS set-up are framework calls. Each route is a method, and
  the JSON response is a `Response` value.
- Request parsing (`request.get_json(silent=True) or {}`) is not modelled. The body is a
  record saying, for `title` and `completed`, whether the key is present and what its JSON
  value is. A missing, unparsable or falsy body is `Body(None, None)`. A truthy body that is
  not a JSON object (such as a list or a string) is not modelled: there, `data.get` or `in`
  behaves in ways specific to lists and strings.
- JSON numbers keep only their truthiness (they are `real`). Arrays and objects keep only
  their size.
- Environment and port configuration, `get_db_path`, and the connection pragmas (WAL,
  synchronous, foreign keys) are configuration and I/O.
- The `datetime.utcnow().isoformat(...)` text is not modelled; time is the abstract `now`.
  Rows written by other programs with SQLite's `CURRENT_TIMESTAMP` format, or with NULL
  timestamps, are not modelled. Those rows would sort differently as text.
- Concurrency is not modelled: per-request connections, WAL, and the lost-update race
  between the read and the write in `toggle_task`. In the sequential model each handler is
  atomic.
- Stored `completed` values are integers or NULL. Other SQLite value types in that column
  are not modelled.
- Storage failures other than the three modelled 500 cases (disk, locking, corruption) are
  not modelled.
- `ensure_tasks_table` on an existing file is not modelled: the model starts from an empty
  table. `app.run` is not modelled.
- `tasks_database/init_db.py` is not part of this model. It is a one-shot setup script: it
  creates unrelated tables, prints, and writes connection files.
- `tasks_database/verify_tasks_table.py` is not part of this model. It is an existence
  probe with an exit code, and it is pure I/O.
- `TaskRuns.Run`: covers only the four state-changing routes, because `list_tasks` does not
  change the table.
- Titles holding lone surrogate code points are not modelled. Python's `json` module
  accepts them, and SQLite's parameter binding then raises `UnicodeEncodeError`, so the
  request answers 500. A Dafny `string` cannot hold such a character.
