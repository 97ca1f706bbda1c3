/**
 * `Database` of database.py, the in-memory variant of the store: a dict of
 * task dicts keyed by id and a counter for the next id. Its update writes
 * every non-None key of the patch into the stored task and keeps no
 * `completed_at`.
 */
module MemoryDatabase {
  import opened Wrappers
  import opened TaskSchema
  import opened TaskTable
  import opened TaskOrder

  /** Writes one key of the patch dict into a task when its value is not None. */
  function Put(t: Task, e: Entry): Task
  {
    match e
    case NameEntry(v) => if v.Some? then t.(name := v.value) else t
    case DeadlineEntry(v) => if v.Some? then t.(deadline := v.value) else t
    case DescriptionEntry(v) => if v.Some? then t.(description := Some(v.value)) else t
    case CompletedEntry(v) => if v.Some? then t.(completed := v.value) else t
  }

  /** Writes the keys of a patch dict into a task, in dict order. */
  function PutAll(t: Task, items: seq<Entry>): Task
  {
    if items == [] then t else Put(PutAll(t, items[..|items| - 1]), items[|items| - 1])
  }

  /**
   * The merge `update_task` performs, field by field: a field given a value
   * overwrites the stored one; an omitted or null field, `id` and `created_at`
   * are left as they are.
   */
  function Patched(t: Task, p: TaskUpdate): Task
  {
    Task(
      t.id,
      if p.name.Given? then p.name.value else t.name,
      if p.deadline.Given? then p.deadline.value else t.deadline,
      if p.description.Given? then Some(p.description.value) else t.description,
      t.createdAt,
      if p.completed.Given? then p.completed.value else t.completed)
  }

  /** Writing two runs of keys is writing the first run, then the second. */
  lemma {:induction false} PutAllAppend(t: Task, a: seq<Entry>, b: seq<Entry>)
    ensures PutAll(t, a + b) == PutAll(PutAll(t, a), b)
    decreases |b|
  {
    if b == [] {
      assert a + b == a;
    } else {
      var b' := b[..|b| - 1];
      assert (a + b)[..|a + b| - 1] == a + b';
      assert (a + b)[|a + b| - 1] == b[|b| - 1];
      PutAllAppend(t, a, b');
    }
  }

  /** One key alone is written by `Put`. */
  lemma PutAllSingle(t: Task, e: Entry)
    ensures PutAll(t, [e]) == Put(t, e)
  {
    assert [e][..0] == [];
  }

  /** The key-by-key loop over the dumped patch performs exactly the field-level merge. */
  lemma PutAllIsPatched(t: Task, p: TaskUpdate)
    ensures PutAll(t, Dump(p)) == Patched(t, p)
  {
    var n, dl, ds, c := NameEntries(p), DeadlineEntries(p), DescriptionEntries(p), CompletedEntries(p);
    PutAllAppend(t, n + dl + ds, c);
    PutAllAppend(t, n + dl, ds);
    PutAllAppend(t, n, dl);
    PutSlots(t, p, n, dl, ds, c);
  }

  /** The four runs of keys of a dump, each written by `Put`, give the merge. */
  lemma PutSlots(t: Task, p: TaskUpdate, n: seq<Entry>, dl: seq<Entry>, ds: seq<Entry>, c: seq<Entry>)
    requires n == NameEntries(p) && dl == DeadlineEntries(p)
    requires ds == DescriptionEntries(p) && c == CompletedEntries(p)
    ensures PutAll(PutAll(PutAll(PutAll(t, n), dl), ds), c) == Patched(t, p)
  {
    var t1 := PutAll(t, n);
    var t2 := PutAll(t1, dl);
    var t3 := PutAll(t2, ds);
    assert t1 == t.(name := Patched(t, p).name) by {
      if n != [] { PutAllSingle(t, n[0]); }
    }
    assert t2 == t1.(deadline := Patched(t, p).deadline) by {
      if dl != [] { PutAllSingle(t1, dl[0]); }
    }
    assert t3 == t2.(description := Patched(t, p).description) by {
      if ds != [] { PutAllSingle(t2, ds[0]); }
    }
    assert PutAll(t3, c) == t3.(completed := Patched(t, p).completed) by {
      if c != [] { PutAllSingle(t3, c[0]); }
    }
  }

  /** Later fields win: the field of `q` where `q` gives one, else that of `p`. */
  function Then(p: TaskUpdate, q: TaskUpdate): TaskUpdate
  {
    TaskUpdate(
      if q.name.Given? then q.name else p.name,
      if q.deadline.Given? then q.deadline else p.deadline,
      if q.description.Given? then q.description else p.description,
      if q.completed.Given? then q.completed else p.completed)
  }

  /** Two updates in a row are one update with the later value of each field: last write wins. */
  lemma PatchedLastWriteWins(t: Task, p: TaskUpdate, q: TaskUpdate)
    ensures Patched(Patched(t, p), q) == Patched(t, Then(p, q))
  {
  }

  /** Applying the same update twice is applying it once. */
  lemma PatchedIdempotent(t: Task, p: TaskUpdate)
    ensures Patched(Patched(t, p), p) == Patched(t, p)
  {
  }

  /**
   * For every patch without an explicit null `completed`, the two stores agree
   * on every field the in-memory one keeps: the response of a merged row is the
   * in-memory merge of the row's response. With a null `completed` the SQLite
   * store fails and changes nothing, while the in-memory one skips the null.
   */
  lemma StoresAgreeOnSharedFields(r: Row, p: TaskUpdate, now: Timestamp)
    requires !p.completed.Null?
    ensures ToResponse(Merge(r, p, now)) == Patched(ToResponse(r), p)
  {
  }

  /**
   * The `for key, value in task_data.items()` loop of `update_task`: writes
   * each key whose value is not None into the task, in dict order.
   */
  method WriteEntries(task: Task, items: seq<Entry>) returns (updated: Task)
    ensures updated == PutAll(task, items)
  {
    updated := task;
    assert items[..0] == [];
    for k := 0 to |items|
      invariant updated == PutAll(task, items[..k])
    {
      assert items[..k + 1][..k] == items[..k];
      match items[k] {
        case NameEntry(v) =>
          if v.Some? { updated := updated.(name := v.value); }
        case DeadlineEntry(v) =>
          if v.Some? { updated := updated.(deadline := v.value); }
        case DescriptionEntry(v) =>
          if v.Some? { updated := updated.(description := Some(v.value)); }
        case CompletedEntry(v) =>
          if v.Some? { updated := updated.(completed := v.value); }
      }
    }
    assert items[..|items|] == items;
  }

  /**
   * The tasks under a complete ascending list of a dict's ids are its tasks, in ascending id.
   * This is `TaskOrder.RowsAtIds` for the in-memory `Task` record: `Row` and `Task` are distinct
   * datatypes with no common supertype, so the fact about their `id` fields is stated once per type.
   */
  lemma TasksAtIds(tasks: map<int, Task>, ids: seq<int>, hi: int)
    requires forall id :: id in tasks ==> 1 <= id < hi && tasks[id].id == id
    requires forall i :: 0 <= i < |ids| ==> ids[i] in tasks
    requires forall i, j :: 0 <= i < j < |ids| ==> ids[i] < ids[j]
    requires forall id :: id in tasks && 1 <= id < hi ==> id in ids
    ensures forall i, j :: 0 <= i < j < |ValuesAt(tasks, ids)| ==> ValuesAt(tasks, ids)[i].id < ValuesAt(tasks, ids)[j].id
    ensures forall id :: id in tasks ==> tasks[id] in ValuesAt(tasks, ids)
    ensures forall t :: t in ValuesAt(tasks, ids) ==> t.id in tasks && tasks[t.id] == t
  {
    var r := ValuesAt(tasks, ids);
    forall id | id in tasks ensures tasks[id] in r {
      var k :| 0 <= k < |ids| && ids[k] == id;
      assert r[k] == tasks[id];
    }
    forall t | t in r ensures t.id in tasks && tasks[t.id] == t {
      var k :| 0 <= k < |r| && r[k] == t;
    }
    forall i, j | 0 <= i < j < |r| ensures r[i].id < r[j].id {
      assert r[i].id == ids[i] && r[j].id == ids[j];
    }
  }

  class Database {
    var tasks: map<int, Task>
    var counter: int

    /** Every task sits under its own id, below the counter. */
    ghost predicate Valid()
      reads this
    {
      && 1 <= counter
      && forall id :: id in tasks ==> 1 <= id < counter && tasks[id].id == id
    }

    /** `__init__`: no tasks, and the first id will be 1. */
    constructor ()
      ensures Valid()
      ensures tasks == map[] && counter == 1
    {
      tasks := map[];
      counter := 1;
    }

    /**
     * `create_task`: stores a task with `id` the counter, `completed` false and
     * `created_at` now under the counter, then increments the counter.
     */
    method CreateTask(data: TaskCreate, now: Timestamp) returns (task: Task)
      requires Valid()
      modifies this
      ensures Valid()
      ensures task == Task(old(counter), data.name, data.deadline, data.description, now, false)
      ensures forall id :: id in old(tasks) ==> id < task.id
      ensures tasks == old(tasks)[task.id := task]
      ensures counter == old(counter) + 1
    {
      task := Task(counter, data.name, data.deadline, data.description, now, false);
      tasks := tasks[counter := task];
      counter := counter + 1;
    }

    /** `get_task`: the task stored under `id`, or None. */
    function GetTask(id: int): (r: Option<Task>)
      reads this
      requires Valid()
      ensures r.Some? <==> id in tasks
      ensures r.Some? ==> r.value == tasks[id] && r.value.id == id
    {
      if id in tasks then Some(tasks[id]) else None
    }

    /**
     * `get_all_tasks`: every stored task once, in the dict's insertion order,
     * which is ascending id since ids are inserted in counter order.
     */
    function GetAllTasks(): (r: seq<Task>)
      reads this
      requires Valid()
      ensures forall i, j :: 0 <= i < j < |r| ==> r[i].id < r[j].id
      ensures forall id :: id in tasks ==> tasks[id] in r
      ensures forall t :: t in r ==> t.id in tasks && tasks[t.id] == t
    {
      var ids := PresentIds(tasks, 1, counter);
      TasksAtIds(tasks, ids, counter);
      ValuesAt(tasks, ids)
    }

    /**
     * `update_task`: None for an absent id; otherwise writes each non-None key
     * of the patch into the stored task, key by key, and returns it.
     */
    method UpdateTask(id: int, patch: TaskUpdate) returns (r: Option<Task>)
      requires Valid()
      modifies this
      ensures Valid()
      ensures counter == old(counter)
      ensures id !in old(tasks) ==> r == None && tasks == old(tasks)
      ensures id in old(tasks) ==>
                && r == Some(Patched(old(tasks)[id], patch))
                && tasks == old(tasks)[id := r.value]
    {
      if id !in tasks {
        return None;
      }
      var task := WriteEntries(tasks[id], Dump(patch));
      PutAllIsPatched(old(tasks)[id], patch);
      tasks := tasks[id := task];
      r := Some(task);
    }

    /** `delete_task`: removes the entry under `id`, reporting whether there was one; the counter stays. */
    method DeleteTask(id: int) returns (deleted: bool)
      requires Valid()
      modifies this
      ensures Valid()
      ensures deleted <==> id in old(tasks)
      ensures tasks == old(tasks) - {id}
      ensures counter == old(counter)
    {
      if id in tasks {
        tasks := tasks - {id};
        return true;
      }
      return false;
    }
  }
}
