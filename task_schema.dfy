/**
 * The request and response schemas of models/task.py: the field constraints
 * of `TaskCreate` and `TaskUpdate`, their `deadline_must_be_future`
 * validators, and the field set of the `Task` response.
 *
 * Dates are day numbers and timestamps are integers; both stand for the ISO
 * strings the source stores. Those compare in chronological order, including
 * a timestamp whose zero microseconds `isoformat()` leaves out, since that
 * string is a prefix of every later one from the same second.
 * "Today" and "now" are parameters instead of clock reads.
 */
module TaskSchema {
  import opened Wrappers

  /** A calendar date (`datetime.date`) as a day number: later days are larger. */
  type Date = int

  /** A UTC timestamp (`datetime.utcnow()`) as an integer: later instants are larger. */
  type Timestamp = int

  const NAME_MIN_LENGTH: nat := 1
  const NAME_MAX_LENGTH: nat := 100
  const DESCRIPTION_MAX_LENGTH: nat := 500

  /**
   * One field of a request body as `model_dump(exclude_unset=True)` hands it
   * on: left out of the body, sent as JSON null, or sent with a value.
   */
  datatype Slot<+T> = Omitted | Null | Given(value: T)

  /** The fields a validation error can name. */
  datatype Field = NameField | DeadlineField | DescriptionField

  /** The body of a create request (`TaskCreate`). */
  datatype TaskCreate = TaskCreate(name: string, deadline: Date, description: Option<string>)

  /** The body of an update request (`TaskUpdate`): every field is optional. */
  datatype TaskUpdate = TaskUpdate(
    name: Slot<string>,
    deadline: Slot<Date>,
    description: Slot<string>,
    completed: Slot<bool>)

  /** The `Task` response: the stored fields without `completed_at`. */
  datatype Task = Task(
    id: int,
    name: string,
    deadline: Date,
    description: Option<string>,
    createdAt: Timestamp,
    completed: bool)

  /**
   * One key of the dict `model_dump(exclude_unset=True)` makes of a
   * `TaskUpdate`, with its value; `None` is an explicit null.
   */
  datatype Entry =
    | NameEntry(name: Option<string>)
    | DeadlineEntry(deadline: Option<Date>)
    | DescriptionEntry(description: Option<string>)
    | CompletedEntry(completed: Option<bool>)

  /** The value a sent field carries: None for null. */
  function SentValue<T>(s: Slot<T>): Option<T>
    requires !s.Omitted?
  {
    if s.Given? then Some(s.value) else None
  }

  /** The `name` key of the dump, if the field was sent. */
  function NameEntries(p: TaskUpdate): seq<Entry>
  {
    if p.name.Omitted? then [] else [NameEntry(SentValue(p.name))]
  }

  /** The `deadline` key of the dump, if the field was sent. */
  function DeadlineEntries(p: TaskUpdate): seq<Entry>
  {
    if p.deadline.Omitted? then [] else [DeadlineEntry(SentValue(p.deadline))]
  }

  /** The `description` key of the dump, if the field was sent. */
  function DescriptionEntries(p: TaskUpdate): seq<Entry>
  {
    if p.description.Omitted? then [] else [DescriptionEntry(SentValue(p.description))]
  }

  /** The `completed` key of the dump, if the field was sent. */
  function CompletedEntries(p: TaskUpdate): seq<Entry>
  {
    if p.completed.Omitted? then [] else [CompletedEntry(SentValue(p.completed))]
  }

  /** The `name`, `deadline` and `description` keys of the dump, in field order. */
  function FieldEntries(p: TaskUpdate): seq<Entry>
  {
    NameEntries(p) + DeadlineEntries(p) + DescriptionEntries(p)
  }

  /** `model_dump(exclude_unset=True)`: one entry per field that was sent, in field order. */
  function Dump(p: TaskUpdate): seq<Entry>
  {
    FieldEntries(p) + CompletedEntries(p)
  }

  /** Reads one dict entry back into a request; `LoadAll` of a dump gives the request back. */
  function Load(p: TaskUpdate, e: Entry): TaskUpdate
  {
    match e
    case NameEntry(v) => p.(name := if v.Some? then Given(v.value) else Null)
    case DeadlineEntry(v) => p.(deadline := if v.Some? then Given(v.value) else Null)
    case DescriptionEntry(v) => p.(description := if v.Some? then Given(v.value) else Null)
    case CompletedEntry(v) => p.(completed := if v.Some? then Given(v.value) else Null)
  }

  /** `TaskUpdate(**d)`: the request a dumped dict describes, keys applied left to right. */
  function LoadAll(d: seq<Entry>): TaskUpdate
  {
    if d == [] then TaskUpdate(Omitted, Omitted, Omitted, Omitted)
    else Load(LoadAll(d[..|d| - 1]), d[|d| - 1])
  }

  /** Dumping a request and loading the dict back gives the same request: nothing sent is lost or invented. */
  lemma DumpLoadRoundTrip(p: TaskUpdate)
    ensures LoadAll(Dump(p)) == p
  {
    var n := NameEntries(p);
    var dl := DeadlineEntries(p);
    var ds := DescriptionEntries(p);
    var c := CompletedEntries(p);
    var empty := TaskUpdate(Omitted, Omitted, Omitted, Omitted);
    assert Dump(p) == n + dl + ds + c;
    var p1 := empty.(name := p.name);
    var p2 := p1.(deadline := p.deadline);
    var p3 := p2.(description := p.description);
    assert LoadAll(n) == p1 by {
      if n != [] { assert n[..0] == []; SentValueRoundTrip(p.name); }
    }
    assert LoadAll(n + dl) == p2 by {
      if dl != [] { assert (n + dl)[..|n + dl| - 1] == n; SentValueRoundTrip(p.deadline); }
      else { assert n + dl == n; }
    }
    assert LoadAll(n + dl + ds) == p3 by {
      if ds != [] { assert (n + dl + ds)[..|n + dl + ds| - 1] == n + dl; SentValueRoundTrip(p.description); }
      else { assert n + dl + ds == n + dl; }
    }
    if c != [] {
      assert (n + dl + ds + c)[..|n + dl + ds + c| - 1] == n + dl + ds;
      SentValueRoundTrip(p.completed);
    } else {
      assert n + dl + ds + c == n + dl + ds;
    }
  }

  /** A sent field's value, read back, is the field. */
  lemma SentValueRoundTrip<T>(s: Slot<T>)
    requires !s.Omitted?
    ensures (if SentValue(s).Some? then Given(SentValue(s).value) else Null) == s
  {
  }

  /** `Field(min_length=1, max_length=100)` on `name`. */
  predicate NameValid(name: string)
  {
    NAME_MIN_LENGTH <= |name| <= NAME_MAX_LENGTH
  }

  /** `Field(max_length=500)` on `description`. */
  predicate DescriptionValid(description: string)
  {
    |description| <= DESCRIPTION_MAX_LENGTH
  }

  /** `deadline_must_be_future`: rejects a deadline strictly before today. */
  predicate DeadlineNotPast(deadline: Date, today: Date)
  {
    !(deadline < today)
  }

  /** The fields of a create request that pydantic rejects. */
  function CreateErrors(req: TaskCreate, today: Date): (errs: set<Field>)
    ensures errs == {} <==>
              && 1 <= |req.name| <= 100
              && (req.description.None? || |req.description.value| <= 500)
              && req.deadline >= today
  {
    (if NameValid(req.name) then {} else {NameField})
    + (if DeadlineNotPast(req.deadline, today) then {} else {DeadlineField})
    + (if req.description.None? || DescriptionValid(req.description.value) then {} else {DescriptionField})
  }

  /** The fields of an update request that pydantic rejects; absent and null fields pass. */
  function UpdateErrors(req: TaskUpdate, today: Date): (errs: set<Field>)
    ensures errs == {} <==>
              && (req.name.Given? ==> 1 <= |req.name.value| <= 100)
              && (req.description.Given? ==> |req.description.value| <= 500)
              && (req.deadline.Given? ==> req.deadline.value >= today)
  {
    (if !req.name.Given? || NameValid(req.name.value) then {} else {NameField})
    + (if !req.deadline.Given? || DeadlineNotPast(req.deadline.value, today) then {} else {DeadlineField})
    + (if !req.description.Given? || DescriptionValid(req.description.value) then {} else {DescriptionField})
  }

  /** The update that sets every field a create request carries. */
  function UpdateFromCreate(req: TaskCreate): TaskUpdate
  {
    TaskUpdate(
      Given(req.name),
      Given(req.deadline),
      if req.description.Some? then Given(req.description.value) else Null,
      Omitted)
  }

  /** A deadline equal to today is accepted; the day before is not. */
  lemma DeadlineTodayAccepted(req: TaskCreate, today: Date)
    requires NameValid(req.name)
    requires req.description.None? || DescriptionValid(req.description.value)
    ensures req.deadline == today ==> CreateErrors(req, today) == {}
    ensures req.deadline == today - 1 ==> CreateErrors(req, today) == {DeadlineField}
  {
  }

  /** A request accepted today is rejected, for its deadline alone, once the deadline has passed. */
  lemma AcceptedCreateExpires(req: TaskCreate, today: Date, later: Date)
    requires CreateErrors(req, today) == {}
    requires later > req.deadline
    ensures CreateErrors(req, later) == {DeadlineField}
  {
  }

  /** The name bounds are inclusive: lengths 1 and 100 pass, 0 and 101 fail. */
  lemma NameBoundsInclusive(name: string)
    ensures |name| == 1 || |name| == 100 ==> NameValid(name)
    ensures |name| == 0 || |name| == 101 ==> !NameValid(name)
  {
  }

  /** An update with no fields is valid on every day. */
  lemma EmptyUpdateValid(today: Date)
    ensures UpdateErrors(TaskUpdate(Omitted, Omitted, Omitted, Omitted), today) == {}
  {
  }

  /** Both schemas apply the same rules: a create request and the update setting the same fields fail on the same fields. */
  lemma CreateAndUpdateAgree(req: TaskCreate, today: Date)
    ensures UpdateErrors(UpdateFromCreate(req), today) == CreateErrors(req, today)
  {
  }

  /** Any request that passes validation has a non-empty name. */
  lemma ValidCreateHasName(req: TaskCreate, today: Date)
    requires CreateErrors(req, today) == {}
    ensures req.name != []
  {
  }
}
