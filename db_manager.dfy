/**
 * `DatabaseManager` of db_manager.py, the store the HTTP layer uses. The
 * SQLite `tasks` table is a map from id to row, and the AUTOINCREMENT
 * sequence is `nextId`, one past the largest id ever handed out.
 */
module DbManager {
  import opened Wrappers
  import opened TaskSchema
  import opened TaskTable
  import opened TaskOrder

  /** The largest rowid SQLite hands out; after it, AUTOINCREMENT fails with SQLITE_FULL. */
  const MAX_ROWID: int := 0x7FFF_FFFF_FFFF_FFFF

  /** The errors the store raises instead of returning. */
  datatype StoreError =
    | DatabaseFull            // AUTOINCREMENT has used the largest rowid
    | NotNullConstraintFailed // an UPDATE wrote NULL into `completed`
    | IdOutOfRange            // an id parameter does not fit a 64-bit SQLite INTEGER

  /** An int the sqlite3 driver can bind as an SQL parameter: a signed 64-bit integer. */
  predicate SqliteInteger(n: int)
  {
    -MAX_ROWID - 1 <= n <= MAX_ROWID
  }

  /**
   * The `update_fields` list `update_task` assembles: the completion pair
   * when the patch carries `completed`, then the entries for the rest of the
   * dict.
   */
  method UpdateFields(patch: TaskUpdate, now: Timestamp) returns (fields: seq<Assignment>)
    ensures fields == SetClause(patch, now)
    ensures fields == [] <==> !Writes(patch)
    ensures SetCompleted(None) in fields <==> patch.completed.Null?
  {
    fields := [];
    if !patch.completed.Omitted? {
      var completed := SentValue(patch.completed);
      fields := [SetCompleted(completed), SetCompletedAt(if completed == Some(true) then Some(now) else None)];
    }
    fields := AppendValueFields(fields, FieldEntries(patch));
    SetClauseEmptyIffNoWrites(patch, now);
  }

  /** The `for key, value in task_data.items()` loop: appends an entry for each value that is not None. */
  method AppendValueFields(fields: seq<Assignment>, items: seq<Entry>) returns (out: seq<Assignment>)
    ensures out == fields + FieldAssignments(items)
  {
    out := fields;
    assert items[..0] == [];
    for k := 0 to |items|
      invariant out == fields + FieldAssignments(items[..k])
    {
      FieldAssignmentsPrefix(items, k);
      ghost var before := out;
      match items[k] {
        case NameEntry(v) =>
          if v.Some? { out := out + [SetName(v.value)]; }
        case DeadlineEntry(v) =>
          if v.Some? { out := out + [SetDeadline(v.value)]; }
        case DescriptionEntry(v) =>
          if v.Some? { out := out + [SetDescription(v.value)]; }
        case CompletedEntry(_) =>
      }
      assert out == before + FieldAssignment(items[k]);
    }
    assert items[..|items|] == items;
  }

  class DatabaseManager {
    var rows: map<int, Row>
    var nextId: int

    /** The table invariant: every row sits under its own id below the sequence, and keeps the completion invariant. */
    ghost predicate Valid()
      reads this
    {
      && 1 <= nextId <= MAX_ROWID + 1
      && forall id :: id in rows ==>
           && 1 <= id < nextId
           && rows[id].id == id
           && CompletionConsistent(rows[id])
    }

    /** A fresh, empty table: the constructor deletes any old database file first. */
    constructor ()
      ensures Valid()
      ensures rows == map[] && nextId == 1
    {
      rows := map[];
      nextId := 1;
    }

    /**
     * `create_task`: inserts a row under the next AUTOINCREMENT id with
     * `completed` false, no `completed_at` and `created_at` now, and returns it.
     */
    method CreateTask(data: TaskCreate, now: Timestamp) returns (r: Result<Row, StoreError>)
      requires Valid()
      modifies this
      ensures Valid()
      ensures r.Success? <==> old(nextId) <= MAX_ROWID
      ensures r.Success? ==>
                && r.value == Row(old(nextId), data.name, data.description, data.deadline, now, false, None)
                && (forall id :: id in old(rows) ==> id < r.value.id)
                && nextId == old(nextId) + 1
                && rows == old(rows)[r.value.id := r.value]
                && GetTask(r.value.id) == Success(Some(r.value))
      ensures r.Failure? ==> r.error == DatabaseFull && rows == old(rows) && nextId == old(nextId)
    {
      if nextId > MAX_ROWID {
        return Failure(DatabaseFull);
      }
      var row := Row(nextId, data.name, data.description, data.deadline, now, false, None);
      rows := rows[nextId := row];
      nextId := nextId + 1;
      r := Success(row);
    }

    /**
     * `get_task`: the row stored under `id`, or None. An id the driver cannot
     * bind as a 64-bit integer raises before the query runs.
     */
    function GetTask(id: int): (r: Result<Option<Row>, StoreError>)
      reads this
      requires Valid()
      ensures r.Failure? <==> !SqliteInteger(id)
      ensures r.Failure? ==> r.error == IdOutOfRange
      ensures r.Success? ==> (r.value.Some? <==> id in rows)
      ensures r.Success? && r.value.Some? ==>
                r.value.value == rows[id] && r.value.value.id == id && CompletionConsistent(r.value.value)
    {
      if !SqliteInteger(id) then Failure(IdOutOfRange)
      else if id in rows then Success(Some(rows[id]))
      else Success(None)
    }

    /** The table in rowid order, as SQLite scans it before sorting. */
    function Scan(): (s: seq<Row>)
      reads this
      requires Valid()
      ensures DistinctIds(s)
      ensures forall r :: r in s <==> r.id in rows && rows[r.id] == r
    {
      RowsInIdOrder(rows, nextId)
    }

    /**
     * `get_all_tasks`: every row, or only those whose `completed` equals the
     * filter, newest `created_at` first.
     */
    function GetAllTasks(completed: Option<bool>): (r: seq<Row>)
      reads this
      requires Valid()
      ensures SortedBy(r, CreatedAtDesc)
      ensures DistinctIds(r)
      ensures forall id :: id in rows ==> (rows[id] in r <==> Matches(rows[id], completed))
      ensures forall t :: t in r ==> t.id in rows && rows[t.id] == t && Matches(t, completed)
    {
      var found := Filter(Scan(), completed);
      var sorted := Sort(found, CreatedAtDesc);
      assert forall t :: t in sorted <==> t in found by {
        forall t ensures t in sorted <==> t in found {
          assert t in sorted <==> t in multiset(sorted);
        }
      }
      sorted
    }

    /**
     * `get_completed_tasks`: the completed rows, latest `completed_at` first,
     * rows without `completed_at` last.
     */
    function GetCompletedTasks(): (r: seq<Row>)
      reads this
      requires Valid()
      ensures SortedBy(r, CompletedAtDescNullsLast)
      ensures DistinctIds(r)
      ensures forall id :: id in rows ==> (rows[id] in r <==> rows[id].completed)
      ensures forall t :: t in r ==> t.id in rows && rows[t.id] == t && t.completed && t.completedAt.Some?
    {
      var found := Filter(Scan(), Some(true));
      var sorted := Sort(found, CompletedAtDescNullsLast);
      assert forall t :: t in sorted <==> t in found by {
        forall t ensures t in sorted <==> t in found {
          assert t in sorted <==> t in multiset(sorted);
        }
      }
      sorted
    }

    /**
     * `update_task`: merges the patch into the row under `id`. A patch that
     * writes nothing only reads the row; an absent id gives None; a null
     * `completed` on a present row fails the NOT NULL constraint and rolls back;
     * an id the driver cannot bind fails on either path.
     */
    method UpdateTask(id: int, patch: TaskUpdate, now: Timestamp) returns (r: Result<Option<Row>, StoreError>)
      requires Valid()
      modifies this
      ensures Valid()
      ensures nextId == old(nextId)
      ensures !Writes(patch) ==> rows == old(rows) && r == old(GetTask(id))
      ensures !SqliteInteger(id) ==> rows == old(rows) && r == Failure(IdOutOfRange)
      ensures Writes(patch) && SqliteInteger(id) && id !in old(rows) ==> rows == old(rows) && r == Success(None)
      ensures Writes(patch) && id in old(rows) && patch.completed.Null? ==>
                rows == old(rows) && r == Failure(NotNullConstraintFailed)
      ensures Writes(patch) && id in old(rows) && !patch.completed.Null? ==>
                && r == Success(Some(Merge(old(rows)[id], patch, now)))
                && rows == old(rows)[id := r.value.value]
    {
      var clause := UpdateFields(patch, now);
      if clause == [] {
        return GetTask(id);
      }
      if !SqliteInteger(id) {
        return Failure(IdOutOfRange);
      }
      if id !in rows {
        return Success(None);
      }
      if patch.completed.Null? {
        return Failure(NotNullConstraintFailed);
      }
      SetClauseIsMerge(rows[id], patch, now);
      MergeKeepsCompletionConsistent(rows[id], patch, now);
      var row := ApplySet(rows[id], clause);
      rows := rows[id := row];
      r := Success(Some(row));
    }

    /**
     * `delete_task`: removes the row under `id`, reporting whether there was
     * one; the sequence is not rewound. An id the driver cannot bind fails.
     */
    method DeleteTask(id: int) returns (r: Result<bool, StoreError>)
      requires Valid()
      modifies this
      ensures Valid()
      ensures r.Failure? <==> !SqliteInteger(id)
      ensures r.Failure? ==> r.error == IdOutOfRange
      ensures r.Success? ==> (r.value <==> id in old(rows))
      ensures rows == old(rows) - {id}
      ensures nextId == old(nextId)
      ensures id !in rows
    {
      if !SqliteInteger(id) {
        return Failure(IdOutOfRange);
      }
      r := Success(id in rows);
      rows := rows - {id};
    }
  }

  /** `get_all_tasks(completed=True)` and `get_completed_tasks` return the same rows, in their own orders. */
  lemma CompletedListingsAgree(db: DatabaseManager)
    requires db.Valid()
    ensures multiset(db.GetAllTasks(Some(true))) == multiset(db.GetCompletedTasks())
  {
  }

  /** Every row of the unfiltered listing is in exactly one of the two filtered listings. */
  lemma ListingSplitsByCompletion(db: DatabaseManager)
    requires db.Valid()
    ensures forall t :: t in db.GetAllTasks(None) <==> t in db.GetAllTasks(Some(true)) || t in db.GetAllTasks(Some(false))
    ensures forall t :: !(t in db.GetAllTasks(Some(true)) && t in db.GetAllTasks(Some(false)))
  {
  }

  /** A client run: two creates, completing the first, listing the completed tasks, deleting the second. */
  method Scenario(day: Date, t0: Timestamp, t1: Timestamp, t2: Timestamp)
  {
    var db := new DatabaseManager();
    var a := db.CreateTask(TaskCreate("Write spec", day, None), t0);
    assert a == Success(Row(1, "Write spec", None, day, t0, false, None));
    var b := db.CreateTask(TaskCreate("Review", day, None), t1);
    assert b.Success? && b.value.id == 2;
    var u := db.UpdateTask(1, TaskUpdate(Omitted, Omitted, Omitted, Given(true)), t2);
    var done := Row(1, "Write spec", None, day, t0, true, Some(t2));
    assert u == Success(Some(done));
    var listed := db.GetAllTasks(Some(true));
    assert done in listed;
    assert forall t :: t in listed ==> t == done;
    var gone := db.DeleteTask(2);
    assert gone == Success(true);
    assert db.GetTask(2) == Success(None);
    var far := db.DeleteTask(MAX_ROWID + 1);
    assert far == Failure(IdOutOfRange);
  }
}
