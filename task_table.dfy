/**
 * The `tasks` table of db_manager.py: one row per task, and the
 * `UPDATE tasks SET ...` that `update_task` assembles from a patch.
 */
module TaskTable {
  import opened Wrappers
  import opened TaskSchema

  /** One row of the `tasks` table; `completed_at` is the only nullable timestamp. */
  datatype Row = Row(
    id: int,
    name: string,
    description: Option<string>,
    deadline: Date,
    createdAt: Timestamp,
    completed: bool,
    completedAt: Option<Timestamp>)

  /** The completion invariant: `completed_at` is set exactly when `completed` is. */
  predicate CompletionConsistent(r: Row)
  {
    r.completedAt.Some? <==> r.completed
  }

  /**
   * One `column = ?` entry of the SET list. `SetCompleted(None)` is the SQL
   * NULL that an explicit `"completed": null` produces.
   */
  datatype Assignment =
    | SetCompleted(completed: Option<bool>)
    | SetCompletedAt(completedAt: Option<Timestamp>)
    | SetName(name: string)
    | SetDeadline(deadline: Date)
    | SetDescription(description: string)

  /**
   * Whether `update_task` issues an UPDATE at all: when the patch carries the
   * `completed` key (even as null) or any other field with a non-null value.
   */
  predicate Writes(p: TaskUpdate)
  {
    !p.completed.Omitted? || p.name.Given? || p.deadline.Given? || p.description.Given?
  }

  /** The `completed = ?, completed_at = ?` pair, present exactly when the dump has a `completed` key. */
  function CompletedAssignments(p: TaskUpdate, now: Timestamp): seq<Assignment>
  {
    match p.completed
    case Omitted => []
    case Null => [SetCompleted(None), SetCompletedAt(None)]
    case Given(b) => [SetCompleted(Some(b)), SetCompletedAt(if b then Some(now) else None)]
  }

  /** The SET entry for one remaining dict key: one when its value is not None, none otherwise. */
  function FieldAssignment(e: Entry): seq<Assignment>
  {
    match e
    case NameEntry(v) => if v.Some? then [SetName(v.value)] else []
    case DeadlineEntry(v) => if v.Some? then [SetDeadline(v.value)] else []
    case DescriptionEntry(v) => if v.Some? then [SetDescription(v.value)] else []
    case CompletedEntry(_) => []
  }

  /** The SET entries for the remaining dict keys, in dict order. */
  function FieldAssignments(items: seq<Entry>): seq<Assignment>
  {
    if items == [] then []
    else FieldAssignments(items[..|items| - 1]) + FieldAssignment(items[|items| - 1])
  }

  /** The SET entries for two runs of keys are those of the first followed by those of the second. */
  lemma {:induction false} FieldAssignmentsAppend(a: seq<Entry>, b: seq<Entry>)
    ensures FieldAssignments(a + b) == FieldAssignments(a) + FieldAssignments(b)
    decreases |b|
  {
    if b == [] {
      assert a + b == a;
    } else {
      var b' := b[..|b| - 1];
      assert (a + b)[..|a + b| - 1] == a + b';
      assert (a + b)[|a + b| - 1] == b[|b| - 1];
      FieldAssignmentsAppend(a, b');
    }
  }

  /**
   * The SET list `update_task` builds: `completed` and `completed_at` first,
   * stamped with `now` when true and null otherwise, then one entry for every
   * other key of the dump whose value is not None.
   */
  function SetClause(p: TaskUpdate, now: Timestamp): seq<Assignment>
  {
    CompletedAssignments(p, now) + FieldAssignments(FieldEntries(p))
  }

  /** The SET entries of name, deadline and description, each present exactly when that field is given. */
  function FieldWrites(p: TaskUpdate): seq<Assignment>
  {
    (if p.name.Given? then [SetName(p.name.value)] else [])
    + (if p.deadline.Given? then [SetDeadline(p.deadline.value)] else [])
    + (if p.description.Given? then [SetDescription(p.description.value)] else [])
  }

  /** The SET list written field by field: the completion pair, then name, deadline, description when given. */
  function SplitSet(p: TaskUpdate, now: Timestamp): seq<Assignment>
  {
    CompletedAssignments(p, now) + FieldWrites(p)
  }

  /** The SET list the key loop builds is the field-by-field list. */
  lemma SetClauseParts(p: TaskUpdate, now: Timestamp)
    ensures SetClause(p, now) == SplitSet(p, now)
  {
    FieldEntriesAssignments(p);
  }

  /** The loop over the name, deadline and description keys yields the given fields' entries, in that order. */
  lemma FieldEntriesAssignments(p: TaskUpdate)
    ensures FieldAssignments(FieldEntries(p)) == FieldWrites(p)
  {
    var n, dl, ds := NameEntries(p), DeadlineEntries(p), DescriptionEntries(p);
    assert FieldEntries(p) == n + dl + ds;
    FieldAssignmentsAppend(n + dl, ds);
    FieldAssignmentsAppend(n, dl);
    NameAssignments(p);
    DeadlineAssignments(p);
    DescriptionAssignments(p);
  }

  /** A sent name gives `name = ?` when not null, nothing otherwise. */
  lemma NameAssignments(p: TaskUpdate)
    ensures FieldAssignments(NameEntries(p)) == if p.name.Given? then [SetName(p.name.value)] else []
  {
    if !p.name.Omitted? { FieldAssignmentsSingle(NameEntry(SentValue(p.name))); }
  }

  /** A sent deadline gives `deadline = ?` when not null, nothing otherwise. */
  lemma DeadlineAssignments(p: TaskUpdate)
    ensures FieldAssignments(DeadlineEntries(p)) == if p.deadline.Given? then [SetDeadline(p.deadline.value)] else []
  {
    if !p.deadline.Omitted? { FieldAssignmentsSingle(DeadlineEntry(SentValue(p.deadline))); }
  }

  /** A sent description gives `description = ?` when not null, nothing otherwise. */
  lemma DescriptionAssignments(p: TaskUpdate)
    ensures FieldAssignments(DescriptionEntries(p)) == if p.description.Given? then [SetDescription(p.description.value)] else []
  {
    if !p.description.Omitted? { FieldAssignmentsSingle(DescriptionEntry(SentValue(p.description))); }
  }

  /** Walking the keys one more step appends that key's SET entry. */
  lemma FieldAssignmentsPrefix(items: seq<Entry>, k: int)
    requires 0 <= k < |items|
    ensures FieldAssignments(items[..k + 1]) == FieldAssignments(items[..k]) + FieldAssignment(items[k])
  {
    assert items[..k + 1][..k] == items[..k];
  }

  /** One key alone gives its own SET entry. */
  lemma FieldAssignmentsSingle(e: Entry)
    ensures FieldAssignments([e]) == FieldAssignment(e)
  {
    assert [e][..0] == [];
  }

  /** No UPDATE is issued exactly when the patch writes nothing; a NULL `completed` is in it exactly when sent. */
  lemma SetClauseEmptyIffNoWrites(p: TaskUpdate, now: Timestamp)
    ensures SetClause(p, now) == [] <==> !Writes(p)
    ensures SetCompleted(None) in SetClause(p, now) <==> p.completed.Null?
  {
    SetClauseParts(p, now);
    var head := CompletedAssignments(p, now);
    var rest := FieldWrites(p);
    assert SetClause(p, now) == head + rest;
    assert rest == [] <==> !(p.name.Given? || p.deadline.Given? || p.description.Given?);
    assert SetCompleted(None) !in rest;
    assert SetCompleted(None) in head <==> p.completed.Null?;
  }

  /** Writes one SET entry into a row; a NULL for `completed` never reaches a row. */
  function Assign(r: Row, a: Assignment): Row
    requires a != SetCompleted(None)
  {
    match a
    case SetCompleted(b) => r.(completed := b.value)
    case SetCompletedAt(at) => r.(completedAt := at)
    case SetName(n) => r.(name := n)
    case SetDeadline(d) => r.(deadline := d)
    case SetDescription(d) => r.(description := Some(d))
  }

  /** Writes a whole SET list into a row, left to right. */
  function ApplySet(r: Row, c: seq<Assignment>): Row
    requires SetCompleted(None) !in c
    decreases |c|
  {
    if c == [] then r else ApplySet(Assign(r, c[0]), c[1..])
  }

  /**
   * The field-level merge `update_task` performs, stated field by field:
   * a given `completed` writes `completed` and re-stamps `completed_at`;
   * any other field is written only when given; `id` and `created_at` stay.
   */
  function Merge(r: Row, p: TaskUpdate, now: Timestamp): Row
    requires !p.completed.Null?
  {
    Row(
      r.id,
      if p.name.Given? then p.name.value else r.name,
      if p.description.Given? then Some(p.description.value) else r.description,
      if p.deadline.Given? then p.deadline.value else r.deadline,
      r.createdAt,
      if p.completed.Given? then p.completed.value else r.completed,
      if p.completed.Given? then (if p.completed.value then Some(now) else None) else r.completedAt)
  }

  /** The `Task` response for a row: every column but `completed_at`. */
  function ToResponse(r: Row): Task
  {
    Task(r.id, r.name, r.deadline, r.description, r.createdAt, r.completed)
  }

  /** Writing a SET list in two parts is writing it in one. */
  lemma {:induction false} ApplySetAppend(r: Row, c: seq<Assignment>, d: seq<Assignment>)
    requires SetCompleted(None) !in c && SetCompleted(None) !in d
    ensures SetCompleted(None) !in c + d
    ensures ApplySet(r, c + d) == ApplySet(ApplySet(r, c), d)
    decreases |c|
  {
    if c == [] {
      assert c + d == d;
    } else {
      assert (c + d)[0] == c[0];
      assert (c + d)[1..] == c[1..] + d;
      ApplySetAppend(Assign(r, c[0]), c[1..], d);
    }
  }

  /** The SET list `update_task` builds, executed on a row, is exactly the merge. */
  lemma SetClauseIsMerge(r: Row, p: TaskUpdate, now: Timestamp)
    requires !p.completed.Null?
    ensures SetCompleted(None) !in SetClause(p, now)
    ensures ApplySet(r, SetClause(p, now)) == Merge(r, p, now)
  {
    SetClauseParts(p, now);
    SplitSetIsMerge(r, p, now);
  }

  /** The merge, written as the completion pair followed by the three field writes. */
  lemma SplitSetIsMerge(r: Row, p: TaskUpdate, now: Timestamp)
    requires !p.completed.Null?
    ensures SetCompleted(None) !in SplitSet(p, now)
    ensures ApplySet(r, SplitSet(p, now)) == Merge(r, p, now)
  {
    var head := CompletedAssignments(p, now);
    var nameSet: seq<Assignment> := if p.name.Given? then [SetName(p.name.value)] else [];
    var deadlineSet: seq<Assignment> := if p.deadline.Given? then [SetDeadline(p.deadline.value)] else [];
    var descriptionSet: seq<Assignment> := if p.description.Given? then [SetDescription(p.description.value)] else [];
    assert SplitSet(p, now) == head + nameSet + deadlineSet + descriptionSet;
    ApplySetAppend(r, head, nameSet);
    ApplySetAppend(r, head + nameSet, deadlineSet);
    ApplySetAppend(r, head + nameSet + deadlineSet, descriptionSet);
    var r1 := ApplySet(r, head);
    CompletedPairIsMerge(r, p, now);
    var r2 := ApplySet(r1, nameSet);
    var r3 := ApplySet(r2, deadlineSet);
    assert r2 == r1.(name := Merge(r, p, now).name);
    assert r3 == r2.(deadline := Merge(r, p, now).deadline);
    assert ApplySet(r3, descriptionSet) == r3.(description := Merge(r, p, now).description);
  }

  /** The completion pair, written into a row, sets `completed` and `completed_at` as the merge does. */
  lemma CompletedPairIsMerge(r: Row, p: TaskUpdate, now: Timestamp)
    requires !p.completed.Null?
    ensures SetCompleted(None) !in CompletedAssignments(p, now)
    ensures ApplySet(r, CompletedAssignments(p, now)) ==
              r.(completed := Merge(r, p, now).completed, completedAt := Merge(r, p, now).completedAt)
  {
    var head := CompletedAssignments(p, now);
    if p.completed.Given? {
      var a0 := Assign(r, head[0]);
      assert head[1..] == [head[1]];
      assert ApplySet(a0, [head[1]]) == ApplySet(Assign(a0, head[1]), []);
    }
  }

  /** Every merge keeps the completion invariant; a merge that sets `completed` restores it outright. */
  lemma MergeKeepsCompletionConsistent(r: Row, p: TaskUpdate, now: Timestamp)
    requires !p.completed.Null?
    requires CompletionConsistent(r) || p.completed.Given?
    ensures CompletionConsistent(Merge(r, p, now))
  {
  }

  /** Setting `completed` to true stamps `now` even on a row that was already completed; false clears it. */
  lemma MergeReStamps(r: Row, p: TaskUpdate, now: Timestamp)
    requires p.completed.Given?
    ensures p.completed.value ==> Merge(r, p, now).completed && Merge(r, p, now).completedAt == Some(now)
    ensures !p.completed.value ==> !Merge(r, p, now).completed && Merge(r, p, now).completedAt == None
  {
  }

  /** A patch that writes nothing leaves the row as it was. */
  lemma MergeWithoutWritesIsIdentity(r: Row, p: TaskUpdate, now: Timestamp)
    requires !Writes(p)
    ensures Merge(r, p, now) == r
  {
  }

  /** A merge never changes `id` or `created_at`. */
  lemma MergeKeepsIdentity(r: Row, p: TaskUpdate, now: Timestamp)
    requires !p.completed.Null?
    ensures Merge(r, p, now).id == r.id && Merge(r, p, now).createdAt == r.createdAt
  {
  }

  /** Two rows have the same response exactly when they differ at most in `completed_at`. */
  lemma ResponseForgetsCompletedAt(r: Row, s: Row)
    ensures ToResponse(r) == ToResponse(s) <==> r.(completedAt := s.completedAt) == s
  {
  }
}
