# Task store of a small task-tracking backend, in Dafny

This project models the core of a task-tracking backend. Clients create, read,
list, update and delete task records. Each record has a name, an optional
description, a deadline and a completion status. The model covers:

- **`DatabaseManager`** (db_manager.py), the store the HTTP layer uses. The
  SQLite `tasks` table is a `map<int, Row>` field, and the AUTOINCREMENT
  sequence is a `nextId` field, one past the largest id ever handed out. The
  class keeps an invariant (`Valid`): every row sits under its own id below
  `nextId`, and `completed_at` is set exactly when `completed` is. Queries are
  functions: a scan in rowid order, a `WHERE completed = ?` filter, and a sort
  into `created_at DESC` or `completed_at DESC NULLS LAST`. The contracts fix
  only the order guaranteed and the set of rows returned. They leave the order
  of ties open, as SQL does. `update_task` builds its `SET` list with a loop
  over the keys of the patch dict (`UpdateFields`, `AppendValueFields`). The
  list is proved to have the same effect as a field-level merge (`Merge`)
  stated field by field.
- **`Database`** (database.py), the in-memory variant. It is a dict of tasks
  plus a counter, and its update writes every non-None key of the patch into
  the stored task, key by key (`WriteEntries`). That loop is proved equal to
  the field-level merge `Patched`. A lemma shows the two stores agree on every
  field the in-memory one keeps, for every patch without an explicit null
  `completed`. With a null `completed` they differ: the SQLite store fails and
  changes nothing, and the in-memory one skips the null and writes the rest.
- **The request and response schemas** (models/task.py). The length limits
  (name 1 to 100, description at most 500) and the not-before-today deadline
  rule are predicates with `today` as a parameter. Both schemas report the
  set of fields they reject. An update body is a record of `Slot`s (`Omitted`,
  `Null`, `Given(v)`) because `model_dump(exclude_unset=True)` keeps an
  explicit JSON null apart from an omitted field (main.py:74). `Dump` gives
  the dict form the stores iterate over, and `LoadAll` reads every dump back
  (`DumpLoadRoundTrip`).
- **The factorial utility** (factorial.py). The recursive version is a
  function. The iterative version is a method with a `for` loop, proved equal
  to the recursive one on every input, negative inputs included.

Timestamps (`datetime.utcnow().isoformat()`) and dates are integers. The
timestamp strings come in two forms, because `isoformat()` drops the
`.ffffff` part when the microsecond is 0. They still sort chronologically:
the form without a fraction is a prefix of every string from the same second,
so it sorts first. Integers therefore keep the order the queries rely on.
"Now" and "today" are parameters instead of clock reads.

Behaviour the model reproduces from the code:

- Setting `completed` re-stamps `completed_at` even on a task that is already
  completed (`MergeReStamps`).
- A patch carrying `"completed": null` makes `update_task` write SQL NULL
  into the NOT NULL `completed` column. On an existing row SQLite rejects the
  write with an integrity error and the transaction is rolled back. The model
  returns `Failure(NotNullConstraintFailed)` and leaves the table unchanged.
  On a missing id no row matches, so the result is None.
- A null `name`, `deadline` or `description` is skipped. So is a null
  `completed` in the in-memory store. A description cannot be cleared.
- A patch that writes nothing issues no UPDATE and returns `get_task(id)`.
  That is None for a missing id.
- Every id parameter is bound by the sqlite3 driver, which raises
  `OverflowError` for an int outside the signed 64-bit range. The HTTP routes
  accept any non-negative int, so `get_task`, `update_task` and `delete_task`
  can be called with such an id. The model returns `Failure(IdOutOfRange)`
  there and leaves the table unchanged.
- AUTOINCREMENT never reuses an id, including the ids of deleted rows. Once
  the largest rowid (2^63 - 1) has been handed out, inserts fail
  (`DatabaseFull`).
- The store itself does not check names. An empty or over-long name reaches
  it only if the caller skips the schema validation. Only the schemas require
  a non-empty name: `TaskCreate` always (models/task.py:7), `TaskUpdate` when
  a name is given (models/task.py:20). `create_task` and `update_task` store
  any string (db_manager.py:47-63, 103-108), and the model does the same.

## Model

| member | source | states |
|---|---|---|
| TaskSchema.CreateErrors | models/task.py:5-16 | a create body is accepted iff the name has 1 to 100 characters, the description is absent or at most 500, and the deadline is not before today |
| TaskSchema.UpdateErrors | models/task.py:18-30 | an update body is accepted iff every given name has 1 to 100 characters, every given description at most 500, and every given deadline is not before today; absent and null fields always pass |
| TaskSchema.DeadlineTodayAccepted | models/task.py:11-16 | a deadline equal to today is accepted; the day before is rejected on the deadline alone |
| TaskSchema.AcceptedCreateExpires | models/task.py:11-16 | a body accepted today is rejected, on the deadline only, on any day after its deadline |
| TaskSchema.NameBoundsInclusive | models/task.py:7 | name lengths 1 and 100 pass, 0 and 101 fail |
| TaskSchema.EmptyUpdateValid | models/task.py:18-23 | an update with no fields is valid on every day |
| TaskSchema.CreateAndUpdateAgree | models/task.py:5-30 | a create body and the update setting the same fields are rejected on exactly the same fields |
| TaskSchema.ValidCreateHasName | models/task.py:7 | every accepted create body has a non-empty name |
| TaskSchema.DumpLoadRoundTrip | main.py:74 | the dict `model_dump(exclude_unset=True)` makes of an update body reads back as the same body |
| TaskTable.SetClauseParts | db_manager.py:93-108 | the SET list is the completion pair, then name, deadline and description entries for exactly the given fields, in that order |
| TaskTable.SetClauseEmptyIffNoWrites | db_manager.py:94-111 | the SET list is empty iff the patch has no `completed` key and no other non-null field; it writes NULL into `completed` iff the patch sends `completed` as null |
| TaskTable.FieldAssignmentsAppend | db_manager.py:103-108 | walking two runs of dict keys appends their SET entries in order |
| TaskTable.ApplySetAppend | db_manager.py:114-121 | executing a SET list in two parts is executing it at once |
| TaskTable.SetClauseIsMerge | db_manager.py:93-121 | executing the SET list that update_task builds on a row gives exactly the field-level merge |
| TaskTable.MergeKeepsCompletionConsistent | db_manager.py:94-100 | after every merge `completed_at` is set iff `completed` is, and a merge that sets `completed` restores this on any row |
| TaskTable.MergeReStamps | db_manager.py:94-100 | `completed: true` sets `completed_at` to now even on an already completed row; `completed: false` clears it |
| TaskTable.MergeWithoutWritesIsIdentity | db_manager.py:103-111 | a patch with no `completed` key and no non-null field leaves the row unchanged |
| TaskTable.MergeKeepsIdentity | db_manager.py:103-108 | a merge never changes `id` or `created_at` |
| TaskTable.ResponseForgetsCompletedAt | models/task.py:32-39 | two rows have the same `Task` response iff they differ at most in `completed_at` |
| TaskOrder.PresentIds | db_manager.py:80 | the table scan lists each stored id in range exactly once, ascending |
| TaskOrder.RowsInIdOrder | db_manager.py:80 | the scan returns every row of the table once and nothing else |
| TaskOrder.Filter | db_manager.py:82-85 | the filter keeps exactly the rows whose `completed` equals the given value, and no row twice |
| TaskOrder.PrecedesTotalPreorder | db_manager.py:80-83 | both sort orders compare every pair of rows and chain transitively |
| TaskOrder.Insert | db_manager.py:80-83 | inserting into a sorted list gives a sorted permutation of the list plus the row |
| TaskOrder.Sort | db_manager.py:80-83 | the sort returns a permutation of its input in the requested descending order |
| DbManager.UpdateFields | db_manager.py:90-108 | the `update_fields` list built is the SET list of the patch; it is empty iff the patch writes nothing |
| DbManager.AppendValueFields | db_manager.py:103-108 | the loop over the remaining dict keys appends one entry per non-None value, in dict order |
| DbManager.DatabaseManager.constructor | db_manager.py:7-17 | a new manager starts with an empty table whose first id will be 1 |
| DbManager.DatabaseManager.CreateTask | db_manager.py:47-63 | inserts and returns a row under an id greater than every id handed out before, with `completed` false, no `completed_at`, `created_at` now and the input's fields; fails only when the rowid space is used up |
| DbManager.DatabaseManager.GetTask | db_manager.py:65-70 | fails with `IdOutOfRange` exactly when the id is outside the signed 64-bit range; otherwise returns the stored row for a present id and None for an absent one; a returned row has that id and satisfies the completion invariant |
| DbManager.DatabaseManager.GetAllTasks | db_manager.py:72-86 | returns every row, or exactly the rows with the requested `completed`, each once, by `created_at` non-increasing |
| DbManager.DatabaseManager.GetCompletedTasks | db_manager.py:134-142 | returns exactly the completed rows, each once, by `completed_at` non-increasing, with null `completed_at` last |
| DbManager.DatabaseManager.UpdateTask | db_manager.py:88-126 | a patch that writes nothing returns what `get_task` returns; an id outside the signed 64-bit range fails with `IdOutOfRange` and changes nothing; an absent id returns None; a null `completed` on a present row fails and changes nothing; otherwise the row becomes the merge and is returned, and all other rows and the id sequence stay |
| DbManager.DatabaseManager.DeleteTask | db_manager.py:128-132 | fails with `IdOutOfRange` exactly when the id is outside the signed 64-bit range; otherwise returns true iff the id was present; removes only that row, and does not rewind the id sequence |
| DbManager.CompletedListingsAgree | db_manager.py:72-86 | the completed filter of `get_all_tasks` and `get_completed_tasks` return the same rows |
| DbManager.ListingSplitsByCompletion | db_manager.py:72-86 | every row of the unfiltered listing is in the completed or the not-completed listing, and no row is in both |
| MemoryDatabase.PutAllAppend | database.py:38-40 | writing two runs of dict keys is writing the first, then the second |
| MemoryDatabase.PutAllIsPatched | database.py:37-41 | the key-by-key write of the dumped patch is the field-level merge: given fields overwrite, absent and null ones stay |
| MemoryDatabase.PatchedLastWriteWins | database.py:37-41 | two updates in a row equal one update carrying the later value of each field |
| MemoryDatabase.PatchedIdempotent | database.py:37-41 | applying the same update twice is applying it once |
| MemoryDatabase.StoresAgreeOnSharedFields | database.py:37-41 | for every patch without an explicit null `completed`, the in-memory merge agrees with the SQLite store's on every field the in-memory store keeps |
| MemoryDatabase.WriteEntries | database.py:38-40 | the loop writes each non-None key of the patch into the task, in dict order |
| MemoryDatabase.TasksAtIds | database.py:28-30 | the tasks under the ascending ids of the dict are all its tasks, once each, in ascending id |
| MemoryDatabase.Database.constructor | database.py:6-8 | a new store is empty with counter 1 |
| MemoryDatabase.Database.CreateTask | database.py:10-22 | stores and returns a task with id the old counter, greater than every stored id, `completed` false and `created_at` now, and increments the counter |
| MemoryDatabase.Database.GetTask | database.py:24-26 | returns the stored task for a present id and None for an absent one |
| MemoryDatabase.Database.GetAllTasks | database.py:28-30 | returns every stored task exactly once, in ascending id, which is the dict's insertion order |
| MemoryDatabase.Database.UpdateTask | database.py:32-41 | an absent id returns None and changes nothing; otherwise the task becomes the merge and is returned, and other tasks and the counter stay |
| MemoryDatabase.Database.DeleteTask | database.py:43-48 | returns true iff the id was present, removes only that entry, and leaves the counter |
| Factorial.Product | factorial.py:22-25 | the product of a range is at least 1 |
| Factorial.FactorialRecursive | factorial.py:27-48 | negative input is an error and every other input a result; 0 and 1 give 1 |
| Factorial.RecursiveStep | factorial.py:48 | for n at least 2 the result is n times the result for n - 1 |
| Factorial.RecursiveIsProduct | factorial.py:44-48 | the recursive factorial of n is the product 2 * ... * n |
| Factorial.FactorialIterative | factorial.py:1-25 | the iterative version returns what the recursive one does on every input, and n! as the product 2 * ... * n |

## Left out

- SQLite plumbing: the connection context manager, commit and close, the `PRAGMA`, and the SQL text. The table is a map and the sequence a counter.
- Deleting the database file at construction. The model starts from an empty table, which is its effect.
- Storage failures other than the NOT NULL rejection, rowid exhaustion and an id outside the 64-bit range: I/O errors, a full disk, corruption.
- Concurrency and transaction isolation. Operations run one at a time, and each is atomic in the model.
- `convert_row_to_dict`: it is never called, and it only parses dates.
- Clock reads and ISO formatting: "now" and "today" are integer parameters.
- main.py routing, JSON serialisation and HTTP status codes; `TaskList` and `total_count`.
- static/app.js (browser UI) and models.py (unused `Todo*` schemas).
- Pydantic coercion and `Config.json_encoders`. Only the constraints are modelled.
- DbManager.DatabaseManager.UpdateTask: `del task_data['completed']` removes the key from the caller's dict. The model passes the patch as a value, so that mutation is not visible.
- MemoryDatabase.Database: `create_task`, `get_task`, `get_all_tasks` and `update_task` return the stored dict itself, so a caller holding it sees later updates. The model returns values and does not capture that aliasing.
- MemoryDatabase.Database.UpdateTask: the source writes any key of the patch dict, `id` or `created_at` included. The model takes the four `TaskUpdate` keys. Nothing in the repository calls `Database`; these are the keys main.py:74 would pass.
- TaskOrder.Sort: the model sorts by insertion, which fixes one order for ties. The contracts of the listing operations do not depend on it, since SQL leaves that order unspecified.
- Factorial: the `isinstance` check (the input is a Dafny `int`), `RecursionError` on deep recursion, and the `input()`/`print` demo.
