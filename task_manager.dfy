/** The task store: a list of task records kept in memory and written back to the
    backing file after every change. */
module TaskStore {
  import opened Wrappers
  import opened Seqs
  import opened Text
  import opened Dates
  import opened TaskRecord
  import opened TaskQuery

  predicate HasId(tasks: seq<Task>, id: string)
  {
    exists i :: 0 <= i < |tasks| && tasks[i].id == id
  }

  predicate UniqueIds(tasks: seq<Task>)
  {
    forall i, j :: 0 <= i < j < |tasks| ==> tasks[i].id != tasks[j].id
  }

  /** Appending a task with an unused id keeps ids unique. */
  lemma AppendKeepsIdsUnique(tasks: seq<Task>, t: Task)
    requires UniqueIds(tasks) && !HasId(tasks, t.id)
    ensures UniqueIds(tasks + [t])
  {
    forall i, j | 0 <= i < j < |tasks + [t]| ensures (tasks + [t])[i].id != (tasks + [t])[j].id {
      assert (tasks + [t])[i] == tasks[i];
    }
  }

  // ---------------------------------------------------------------- add_task

  /** The category `add_task` stores: the stripped argument when the argument is a
      non-empty string, otherwise "Uncategorized". */
  function StoredCategory(category: Option<string>): (r: string)
  {
    if category.Some? && category.value != "" then Strip(category.value) else Uncategorized
  }

  /** The stored category is "Uncategorized" exactly when no category or the empty string
      was given, or the argument strips to it. */
  lemma StoredCategoryIsDefault(category: Option<string>)
    ensures StoredCategory(category) == Uncategorized <==>
      category.None? || category.value == "" || Strip(category.value) == Uncategorized
  {
  }

  /** The stored category never begins or ends with whitespace, and a given category is
      stored in a form that stripping leaves alone. */
  lemma StoredCategoryIsTrimmed(category: Option<string>)
    ensures var c := StoredCategory(category); c != "" ==> !IsSpace(c[0]) && !IsSpace(c[|c| - 1])
    ensures category.Some? && category.value != "" ==>
      Strip(StoredCategory(category)) == StoredCategory(category)
  {
    if category.Some? && category.value != "" {
      StripIdempotent(category.value);
    }
  }

  /** A category made only of whitespace is stored as the empty string, not as
      "Uncategorized". */
  lemma BlankCategoryStoredEmpty(category: string)
    requires category != "" && AllSpace(category)
    ensures StoredCategory(Some(category)) == ""
  {
    StripEmptyIffBlank(category);
  }

  /** The due date `add_task` stores: the argument itself when it is a non-empty string
      that `strptime` accepts as `%Y-%m-%d`, and `None` otherwise. */
  function ValidatedDueDate(dueDate: Option<string>): (r: Option<string>)
    ensures r.Some? <==> dueDate.Some? && dueDate.value != "" && ParseDate(dueDate.value).Some?
    ensures r.Some? ==> r == dueDate
  {
    if dueDate.Some? && dueDate.value != "" && ParseDate(dueDate.value).Some? then dueDate else None
  }

  // ---------------------------------------------------------------- delete_task

  /** The list comprehension of `delete_task`: the tasks whose id differs, in order. */
  function Without(tasks: seq<Task>, id: string): (r: seq<Task>)
  {
    Filter((t: Task) => t.id != id, tasks)
  }

  /** Deleting keeps every copy of every task with another id, in storage order, and
      drops the rest; the list gets shorter exactly when some task had the id. */
  lemma WithoutProperties(tasks: seq<Task>, more: seq<Task>, id: string)
    ensures forall t :: multiset(Without(tasks, id))[t] == if t.id != id then multiset(tasks)[t] else 0
    ensures Without(tasks + more, id) == Without(tasks, id) + Without(more, id)
    ensures |Without(tasks, id)| < |tasks| <==> HasId(tasks, id)
    ensures !HasId(tasks, id) ==> Without(tasks, id) == tasks
  {
    var p := (t: Task) => t.id != id;
    forall t ensures multiset(Without(tasks, id))[t] == if t.id != id then multiset(tasks)[t] else 0 {
      FilterCount(p, tasks, t);
    }
    FilterAppend(p, tasks, more);
    FilterShorter(p, tasks);
  }

  /** Deleting never makes two tasks share an id. */
  lemma {:induction false} WithoutKeepsIdsUnique(tasks: seq<Task>, id: string)
    requires UniqueIds(tasks)
    ensures UniqueIds(Without(tasks, id))
  {
    if tasks != [] {
      var rest := tasks[1..];
      assert UniqueIds(rest) by {
        forall i, j | 0 <= i < j < |rest| ensures rest[i].id != rest[j].id {
          assert rest[i] == tasks[i + 1] && rest[j] == tasks[j + 1];
        }
      }
      WithoutKeepsIdsUnique(rest, id);
      var w := Without(rest, id);
      if tasks[0].id != id {
        assert Without(tasks, id) == [tasks[0]] + w;
        forall j | 0 <= j < |w| ensures tasks[0].id != w[j].id {
          assert w[j] in rest;
          var k :| 0 <= k < |rest| && rest[k] == w[j];
          assert tasks[k + 1] == w[j];
        }
        forall i, j | 0 <= i < j < |[tasks[0]] + w| ensures ([tasks[0]] + w)[i].id != ([tasks[0]] + w)[j].id {
          if i > 0 {
            assert ([tasks[0]] + w)[i] == w[i - 1];
          }
          assert ([tasks[0]] + w)[j] == w[j - 1];
        }
      }
    }
  }

  // ---------------------------------------------------------------- toggle_task_status

  function Flip(t: Task): (r: Task)
  {
    t.(completed := !t.completed)
  }

  /** `k` is the position of the first task with this id. */
  predicate FirstMatch(tasks: seq<Task>, id: string, k: int)
  {
    0 <= k < |tasks| && tasks[k].id == id && forall j :: 0 <= j < k ==> tasks[j].id != id
  }

  /** The list after `toggle_task_status(id)`: the first task with the id has its
      completion flipped; with no such task nothing changes. */
  function Toggled(tasks: seq<Task>, id: string): (r: seq<Task>)
    ensures |r| == |tasks| && forall i :: 0 <= i < |r| ==> r[i].id == tasks[i].id
    ensures !HasId(tasks, id) ==> r == tasks
  {
    if tasks == [] then []
    else if tasks[0].id == id then [Flip(tasks[0])] + tasks[1..]
    else
      assert !HasId(tasks, id) ==> !HasId(tasks[1..], id) by {
        if HasId(tasks[1..], id) {
          var i :| 0 <= i < |tasks[1..]| && tasks[1..][i].id == id;
          assert tasks[i + 1].id == id;
        }
      }
      [tasks[0]] + Toggled(tasks[1..], id)
  }

  /** Only the first task with the id changes, and only in its completion flag. */
  lemma {:induction false} ToggledAtFirstMatch(tasks: seq<Task>, id: string, k: int)
    requires FirstMatch(tasks, id, k)
    ensures Toggled(tasks, id) == tasks[k := Flip(tasks[k])]
  {
    if k > 0 {
      var rest := tasks[1..];
      assert rest[k - 1] == tasks[k];
      assert FirstMatch(rest, id, k - 1) by {
        forall j | 0 <= j < k - 1 ensures rest[j].id != id {
          assert rest[j] == tasks[j + 1];
        }
      }
      ToggledAtFirstMatch(rest, id, k - 1);
      assert Toggled(tasks, id) == [tasks[0]] + Toggled(rest, id);
      assert tasks[k := Flip(tasks[k])] == [tasks[0]] + rest[k - 1 := Flip(tasks[k])];
    } else {
      assert Toggled(tasks, id) == [Flip(tasks[0])] + tasks[1..];
      assert tasks[0 := Flip(tasks[0])] == [Flip(tasks[0])] + tasks[1..];
    }
  }

  /** Toggling the same id twice restores the list. */
  lemma {:induction false} ToggleTwice(tasks: seq<Task>, id: string)
    ensures Toggled(Toggled(tasks, id), id) == tasks
  {
    if tasks != [] && tasks[0].id != id {
      ToggleTwice(tasks[1..], id);
      var once := Toggled(tasks, id);
      assert once == [tasks[0]] + Toggled(tasks[1..], id);
      assert once[1..] == Toggled(tasks[1..], id);
    } else if tasks != [] {
      var once := Toggled(tasks, id);
      assert once == [Flip(tasks[0])] + tasks[1..];
      assert once[1..] == tasks[1..];
    }
  }

  // ---------------------------------------------------------------- the store

  class TaskManager {
    /** The task list, in storage order. */
    var tasks: seq<Task>
    /** Every list written to the backing file since the store started, oldest first. */
    ghost var saves: seq<seq<Task>>

    /** The backing file holds the current list, once anything has been written. */
    ghost predicate Synced()
      reads this
    {
      saves != [] ==> saves[|saves| - 1] == tasks
    }

    /** Starts the store from the contents of its backing file. */
    constructor (file: BackingFile, freshIds: seq<string>, stamps: seq<nat>)
      requires Supplied(file, freshIds, stamps)
      ensures tasks == Loaded(file, freshIds, stamps)
      ensures saves == []
    {
      var loaded := LoadTasks(file, freshIds, stamps);
      tasks := loaded;
      saves := [];
    }

    /** `_load_tasks`: no file or a corrupt one gives the empty list; otherwise each
        record is defaulted in turn. */
    static method LoadTasks(file: BackingFile, freshIds: seq<string>, stamps: seq<nat>) returns (loaded: seq<Task>)
      requires Supplied(file, freshIds, stamps)
      ensures loaded == Loaded(file, freshIds, stamps)
    {
      match file {
        case Missing =>
          loaded := [];
        case Corrupt =>
          loaded := [];
        case Parsed(records) =>
          loaded := [];
          for i := 0 to |records|
            invariant |loaded| == i
            invariant forall j :: 0 <= j < i ==> loaded[j] == WithDefaults(records[j], freshIds[j], stamps[j])
          {
            loaded := loaded + [WithDefaults(records[i], freshIds[i], stamps[i])];
          }
      }
    }

    /** `_save_tasks`: the whole list is written to the backing file. */
    method SaveTasks()
      modifies this
      ensures tasks == old(tasks)
      ensures saves == old(saves) + [tasks]
      ensures Synced()
    {
      saves := saves + [tasks];
    }

    /** `add_task`, with the new id and the current time given by the caller. */
    method AddTask(description: string, category: Option<string>, dueDate: Option<string>, freshId: string, now: nat)
      returns (ok: bool)
      requires !HasId(tasks, freshId)
      modifies this
      ensures ok <==> Strip(description) != ""
      ensures !ok ==> tasks == old(tasks) && saves == old(saves)
      ensures ok ==> tasks == old(tasks) + [Task(freshId, Strip(description), false, now, StoredCategory(category), ValidatedDueDate(dueDate))]
      ensures ok ==> saves == old(saves) + [tasks] && Synced()
      ensures old(UniqueIds(tasks)) ==> UniqueIds(tasks)
    {
      if Strip(description) != "" {
        var validated: Option<string> := None;
        if dueDate.Some? && dueDate.value != "" {
          if ParseDate(dueDate.value).Some? {
            validated := dueDate;
          }
        }
        var storedCategory := if category.Some? && category.value != "" then Strip(category.value) else Uncategorized;
        assert validated == ValidatedDueDate(dueDate);
        assert storedCategory == StoredCategory(category);
        var task := Task(freshId, Strip(description), false, now, storedCategory, validated);
        if UniqueIds(tasks) {
          AppendKeepsIdsUnique(tasks, task);
        }
        tasks := tasks + [task];
        SaveTasks();
        ok := true;
      } else {
        ok := false;
      }
    }

    /** `delete_task`. */
    method DeleteTask(id: string) returns (ok: bool)
      modifies this
      ensures tasks == Without(old(tasks), id)
      ensures ok <==> HasId(old(tasks), id)
      ensures ok <==> |tasks| < |old(tasks)|
      ensures !ok ==> tasks == old(tasks) && saves == old(saves)
      ensures ok ==> saves == old(saves) + [tasks] && Synced()
      ensures old(UniqueIds(tasks)) ==> UniqueIds(tasks)
    {
      var initialLength := |tasks|;
      WithoutProperties(tasks, [], id);
      if UniqueIds(tasks) {
        WithoutKeepsIdsUnique(tasks, id);
      }
      tasks := Without(tasks, id);
      if |tasks| < initialLength {
        SaveTasks();
        ok := true;
      } else {
        ok := false;
      }
    }

    /** `toggle_task_status`. */
    method ToggleTaskStatus(id: string) returns (ok: bool)
      modifies this
      ensures tasks == Toggled(old(tasks), id)
      ensures ok <==> HasId(old(tasks), id)
      ensures !ok ==> saves == old(saves)
      ensures ok ==> saves == old(saves) + [tasks] && Synced()
      ensures old(UniqueIds(tasks)) ==> UniqueIds(tasks)
    {
      var i := 0;
      while i < |tasks|
        invariant 0 <= i <= |tasks|
        invariant forall j :: 0 <= j < i ==> tasks[j].id != id
        invariant tasks == old(tasks) && saves == old(saves)
      {
        if tasks[i].id == id {
          ToggledAtFirstMatch(tasks, id, i);
          tasks := tasks[i := Flip(tasks[i])];
          SaveTasks();
          return true;
        }
        i := i + 1;
      }
      return false;
    }

    /** `get_tasks`: the tasks passing the filter, in storage order, then sorted by the
        key `sortBy` names; sorting by due date raises on a stored due date that does not
        parse, which only a record loaded from the file can have. */
    method GetTasks(category: Option<string>, includeCompleted: bool, sortBy: string)
      returns (r: Result<seq<Task>, string>)
      ensures r.Success? ==> forall t :: t in r.value ==> t in tasks && Matches(category, includeCompleted, t)
      ensures r.Success? ==> multiset(r.value) == multiset(Filtered(tasks, category, includeCompleted))
      ensures SortModeOf(sortBy).None? ==> r == Success(Filtered(tasks, category, includeCompleted))
      ensures r.Failure? <==>
        SortModeOf(sortBy) == Some(ByDueDate) && !Keyed(ByDueDate, Filtered(tasks, category, includeCompleted))
      ensures r.Failure? ==>
        ParseDate(r.error).None?
        && exists t :: t in tasks && Matches(category, includeCompleted, t) && HasDueDate(t) && t.dueDate.value == r.error
      ensures r.Failure? ==>
        var filtered := Filtered(tasks, category, includeCompleted);
        exists i :: 0 <= i < |filtered| && FirstUnkeyed(filtered, i) && filtered[i].dueDate.value == r.error
      ensures r.Success? && SortModeOf(sortBy).Some? ==>
        var mode, filtered := SortModeOf(sortBy).value, Filtered(tasks, category, includeCompleted);
        && SortedBy(mode, r.value)
        && (forall k :: WithKey(mode, r.value, k) == WithKey(mode, filtered, k))
        && r.value == Sort(mode, filtered)
    {
      var filtered: seq<Task> := [];
      for i := 0 to |tasks|
        invariant filtered == Filtered(tasks[..i], category, includeCompleted)
      {
        FilteredSnoc(tasks[..i], tasks[i], category, includeCompleted);
        assert tasks[..i + 1] == tasks[..i] + [tasks[i]];
        if category.None? || tasks[i].category == category.value {
          if includeCompleted || !tasks[i].completed {
            filtered := filtered + [tasks[i]];
          }
        }
      }
      assert tasks[..|tasks|] == tasks;
      FilteredIsSelection(tasks, [], category, includeCompleted);
      assert forall t :: t in filtered ==> t in tasks && Matches(category, includeCompleted, t);
      var mode := SortModeOf(sortBy);
      if mode.None? {
        return Success(filtered);
      }
      var m := mode.value;
      if m == ByDueDate {
        var unparsable := FirstUnparsableDueDate(filtered);
        if unparsable.Some? {
          UnparsableDueDateIsStored(tasks, category, includeCompleted);
          return Failure(unparsable.value);
        }
      }
      var sorted := Sort(m, filtered);
      SortSorted(m, filtered);
      forall k ensures WithKey(m, sorted, k) == WithKey(m, filtered, k) {
        SortStable(m, filtered, k);
      }
      assert forall t :: t in sorted ==> t in filtered by {
        forall t | t in sorted ensures t in filtered {
          assert t in multiset(sorted);
        }
      }
      r := Success(sorted);
    }

    /** `get_categories`: the distinct categories of all stored tasks, sorted. */
    method GetCategories() returns (r: seq<string>)
      ensures StrictlyAscending(r)
      ensures forall c :: c in r <==> c in Categories(tasks)
    {
      var categories: set<string> := {};
      for i := 0 to |tasks|
        invariant forall c :: c in categories <==> exists j :: 0 <= j < i && tasks[j].category == c
      {
        categories := categories + {tasks[i].category};
      }
      r := [];
      var rest := categories;
      while rest != {}
        invariant rest <= categories
        invariant StrictlyAscending(r)
        invariant forall c :: c in categories <==> c in r || c in rest
        invariant forall c :: c in r ==> c !in rest
        invariant forall i, c :: 0 <= i < |r| && c in rest ==> Lex.StrLess(r[i], c)
        decreases rest
      {
        LeastExists(rest);
        var least :| IsLeast(least, rest);
        r := r + [least];
        rest := rest - {least};
      }
      forall c ensures c in Categories(tasks) <==> exists j :: 0 <= j < |tasks| && tasks[j].category == c {
        if c in Categories(tasks) {
          var t :| t in tasks && t.category == c;
          var j :| 0 <= j < |tasks| && tasks[j] == t;
        }
      }
    }
  }
}
