/** The task record, the record as the backing file holds it, and the load-time
    defaulting that turns the second into the first. */
module TaskRecord {
  import opened Wrappers

  /** The category a task gets when it has none. */
  const Uncategorized := "Uncategorized"

  /** A task as the store holds it once loaded or added: every field present. The
      creation time is an abstract timestamp; later is larger. */
  datatype Task = Task(
    id: string,
    description: string,
    completed: bool,
    createdAt: nat,
    category: string,
    dueDate: Option<string>)

  /** A record as read from the backing file. `None` marks a key that is absent; for the
      due date, `Some(None)` is a key holding `null`. */
  datatype StoredTask = StoredTask(
    id: Option<string>,
    description: string,
    completed: bool,
    createdAt: Option<nat>,
    category: Option<string>,
    dueDate: Option<Option<string>>)

  /** The contents of the backing file when the store starts: no file, a file that is not
      valid JSON, or the list of records it holds. */
  datatype BackingFile = Missing | Corrupt | Parsed(records: seq<StoredTask>)

  predicate HasEveryKey(r: StoredTask)
  {
    r.id.Some? && r.createdAt.Some? && r.category.Some? && r.dueDate.Some?
  }

  /** The record the store writes for a task: all six keys. */
  function Stored(t: Task): (r: StoredTask)
    ensures HasEveryKey(r)
  {
    StoredTask(Some(t.id), t.description, t.completed, Some(t.createdAt), Some(t.category), Some(t.dueDate))
  }

  /** The backing file the store writes for a list of tasks. */
  function SavedFile(tasks: seq<Task>): (f: BackingFile)
    ensures f.Parsed? && |f.records| == |tasks|
  {
    Parsed(seq(|tasks|, i requires 0 <= i < |tasks| => Stored(tasks[i])))
  }

  /** The defaulting step of loading: each key the record has keeps its value; a missing
      id becomes a fresh one, a missing creation time the current time, a missing
      category "Uncategorized" and a missing due date `None`. */
  function WithDefaults(r: StoredTask, freshId: string, now: nat): (t: Task)
    ensures t.description == r.description && t.completed == r.completed
    ensures t.id == if r.id.Some? then r.id.value else freshId
    ensures t.createdAt == if r.createdAt.Some? then r.createdAt.value else now
    ensures t.category == if r.category.Some? then r.category.value else Uncategorized
    ensures t.dueDate == if r.dueDate.Some? then r.dueDate.value else None
  {
    Task(
      if r.id.Some? then r.id.value else freshId,
      r.description,
      r.completed,
      if r.createdAt.Some? then r.createdAt.value else now,
      if r.category.Some? then r.category.value else Uncategorized,
      if r.dueDate.Some? then r.dueDate.value else None)
  }

  /** A record that already has every key comes through defaulting unchanged. */
  lemma CompleteRecordUnchanged(r: StoredTask, freshId: string, now: nat)
    requires HasEveryKey(r)
    ensures Stored(WithDefaults(r, freshId, now)) == r
  {
  }

  /** One fresh id and one clock reading per record of a parsed file. */
  predicate Supplied(file: BackingFile, freshIds: seq<string>, stamps: seq<nat>)
  {
    file.Parsed? ==> |freshIds| == |file.records| && |stamps| == |file.records|
  }

  /** The task list the store starts with: empty for a missing or corrupt file, otherwise
      one defaulted task per record, in file order; record `i` draws on `freshIds[i]` and
      `stamps[i]` only if it needs them. */
  function Loaded(file: BackingFile, freshIds: seq<string>, stamps: seq<nat>): (r: seq<Task>)
    requires Supplied(file, freshIds, stamps)
    ensures !file.Parsed? ==> r == []
    ensures file.Parsed? ==> |r| == |file.records|
    ensures file.Parsed? ==> forall i :: 0 <= i < |r| ==> r[i] == WithDefaults(file.records[i], freshIds[i], stamps[i])
  {
    match file
    case Parsed(records) =>
      seq(|records|, i requires 0 <= i < |records| => WithDefaults(records[i], freshIds[i], stamps[i]))
    case _ => []
  }

  /** Saving the tasks and loading the file again gives back exactly the same tasks, with
      the same ids and timestamps, whatever fresh ids and clock the load is offered. */
  lemma SaveLoadRoundTrip(tasks: seq<Task>, freshIds: seq<string>, stamps: seq<nat>)
    requires |freshIds| == |tasks| && |stamps| == |tasks|
    ensures Loaded(SavedFile(tasks), freshIds, stamps) == tasks
  {
    var r := Loaded(SavedFile(tasks), freshIds, stamps);
    forall i | 0 <= i < |tasks| ensures r[i] == tasks[i] {
      assert SavedFile(tasks).records[i] == Stored(tasks[i]);
    }
  }
}
