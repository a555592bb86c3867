/** What `get_tasks` and `get_categories` compute: the filter, the four sort orders
    and Python's stable sort, and the sorted list of distinct categories. */
module TaskQuery {
  import opened Wrappers
  import opened Seqs
  import opened Lex
  import opened Text
  import opened Dates
  import opened TaskRecord

  // ---------------------------------------------------------------- filtering

  /** The filter of `get_tasks`: the category is not asked for or is the task's, and
      completed tasks are included or the task is not completed. */
  predicate Matches(category: Option<string>, includeCompleted: bool, t: Task)
  {
    (category.None? || t.category == category.value) && (includeCompleted || !t.completed)
  }

  /** The tasks that pass the filter, in storage order. */
  function Filtered(tasks: seq<Task>, category: Option<string>, includeCompleted: bool): (r: seq<Task>)
  {
    Filter((t: Task) => Matches(category, includeCompleted, t), tasks)
  }

  /** The filtered list holds every copy of each matching task and nothing else, and it
      keeps storage order: filtering a concatenation filters each part. */
  lemma FilteredIsSelection(tasks: seq<Task>, more: seq<Task>, category: Option<string>, includeCompleted: bool)
    ensures forall t ::
      t in Filtered(tasks, category, includeCompleted) <==> t in tasks && Matches(category, includeCompleted, t)
    ensures forall t ::
      multiset(Filtered(tasks, category, includeCompleted))[t] == if Matches(category, includeCompleted, t) then multiset(tasks)[t] else 0
    ensures Filtered(tasks + more, category, includeCompleted)
      == Filtered(tasks, category, includeCompleted) + Filtered(more, category, includeCompleted)
  {
    var p := (t: Task) => Matches(category, includeCompleted, t);
    forall t ensures multiset(Filtered(tasks, category, includeCompleted))[t]
      == if Matches(category, includeCompleted, t) then multiset(tasks)[t] else 0
    {
      FilterCount(p, tasks, t);
    }
    FilterAppend(p, tasks, more);
  }

  /** One more task passes the filter or does not. */
  lemma FilteredSnoc(tasks: seq<Task>, t: Task, category: Option<string>, includeCompleted: bool)
    ensures Filtered(tasks + [t], category, includeCompleted)
      == Filtered(tasks, category, includeCompleted) + if Matches(category, includeCompleted, t) then [t] else []
  {
    FilteredIsSelection(tasks, [t], category, includeCompleted);
    assert [t][1..] == [];
  }

  // ---------------------------------------------------------------- sort keys

  /** The values of `sort_by` that `get_tasks` recognises. */
  datatype SortMode = ByCreation | ByDueDate | ByDescription | ByCompletion

  /** The sort `sort_by` selects; `None` for any other string, which leaves the
      filtered list in storage order. */
  function SortModeOf(sortBy: string): (m: Option<SortMode>)
    ensures m == Some(ByCreation) <==> sortBy == "created_at"
    ensures m == Some(ByDueDate) <==> sortBy == "due_date"
    ensures m == Some(ByDescription) <==> sortBy == "description"
    ensures m == Some(ByCompletion) <==> sortBy == "completed"
  {
    if sortBy == "created_at" then Some(ByCreation)
    else if sortBy == "due_date" then Some(ByDueDate)
    else if sortBy == "description" then Some(ByDescription)
    else if sortBy == "completed" then Some(ByCompletion)
    else None
  }

  /** Python's truth test on the due date: present and not the empty string. */
  predicate HasDueDate(t: Task)
  {
    t.dueDate.Some? && t.dueDate.value != ""
  }

  /** The key function does not raise. In this model only the due-date key can, on a
      due date that does not parse (possible for a record loaded from the file); the
      timestamp is abstract here, so the creation key never raises. */
  predicate KeyDefined(mode: SortMode, t: Task)
  {
    mode == ByDueDate && HasDueDate(t) ==> ParseDate(t.dueDate.value).Some?
  }

  /** The sort key of a task, encoded so that `Lex.Less` is Python's comparison of keys:
      the timestamp; the parsed date (year, month, day) before `datetime.max`, which
      stands in for no due date; the code points of the lower-cased description; False
      before True. */
  function Key(mode: SortMode, t: Task): (k: seq<int>)
    requires KeyDefined(mode, t)
  {
    match mode
    case ByCreation => [t.createdAt]
    case ByDueDate =>
      if HasDueDate(t) then
        var d := ParseDate(t.dueDate.value).value;
        [0, d.year, d.month, d.day]
      else [1]
    case ByDescription => Codes(Lower(t.description))
    case ByCompletion => if t.completed then [1] else [0]
  }

  /** Oldest first. */
  lemma CreationOrder(a: Task, b: Task)
    ensures Less(Key(ByCreation, a), Key(ByCreation, b)) <==> a.createdAt < b.createdAt
  {
  }

  /** Incomplete tasks first. */
  lemma CompletionOrder(a: Task, b: Task)
    ensures Less(Key(ByCompletion, a), Key(ByCompletion, b)) <==> !a.completed && b.completed
  {
  }

  /** Case-insensitive string order. */
  lemma DescriptionOrder(a: Task, b: Task)
    ensures Less(Key(ByDescription, a), Key(ByDescription, b)) <==> StrLess(Lower(a.description), Lower(b.description))
    ensures Key(ByDescription, a) == Key(ByDescription, b) <==> Lower(a.description) == Lower(b.description)
  {
    if Key(ByDescription, a) == Key(ByDescription, b) {
      CodesInjective(Lower(a.description), Lower(b.description));
    }
  }

  /** Calendar order of year, month and day. */
  predicate DateBefore(a: Date, b: Date)
  {
    a.year < b.year
    || (a.year == b.year && a.month < b.month)
    || (a.year == b.year && a.month == b.month && a.day < b.day)
  }

  /** Tasks with a due date come first, ordered by the calendar, not by the text of the
      date; tasks without one come last, all with the same key. */
  lemma DueDateOrder(a: Task, b: Task)
    requires KeyDefined(ByDueDate, a) && KeyDefined(ByDueDate, b)
    ensures HasDueDate(a) && HasDueDate(b) ==>
      var x, y := ParseDate(a.dueDate.value).value, ParseDate(b.dueDate.value).value;
      Less(Key(ByDueDate, a), Key(ByDueDate, b)) <==> DateBefore(x, y)
    ensures HasDueDate(a) && !HasDueDate(b) ==> Less(Key(ByDueDate, a), Key(ByDueDate, b))
    ensures !HasDueDate(a) && !HasDueDate(b) ==> Key(ByDueDate, a) == Key(ByDueDate, b)
  {
    if HasDueDate(a) && HasDueDate(b) {
      var x, y := ParseDate(a.dueDate.value).value, ParseDate(b.dueDate.value).value;
      LessCons(0, [x.year, x.month, x.day], 0, [y.year, y.month, y.day]);
      LessCons(x.year, [x.month, x.day], y.year, [y.month, y.day]);
      LessCons(x.month, [x.day], y.month, [y.day]);
      LessCons(x.day, [], y.day, []);
    }
  }

  /** The due-date order is not the order of the stored strings: "2025-7-5" is the
      earlier date but the later string. */
  lemma DueDateOrderIsNotTextOrder(a: Task, b: Task)
    requires a.dueDate == Some("2025-7-5") && b.dueDate == Some("2025-10-01")
    ensures Less(Key(ByDueDate, a), Key(ByDueDate, b))
    ensures StrLess(b.dueDate.value, a.dueDate.value)
  {
    assert ParseDate("2025-7-5") == Some(Date(2025, 7, 5));
    assert ParseDate("2025-10-01") == Some(Date(2025, 10, 1));
    DueDateOrder(a, b);
    assert Codes("2025-10-01") == [50, 48, 50, 53, 45, 49, 48, 45, 48, 49];
    assert Codes("2025-7-5") == [50, 48, 50, 53, 45, 55, 45, 53];
  }

  // ---------------------------------------------------------------- stable sort

  predicate Keyed(mode: SortMode, s: seq<Task>)
  {
    forall t :: t in s ==> KeyDefined(mode, t)
  }

  /** Ascending by key. */
  predicate SortedBy(mode: SortMode, s: seq<Task>)
  {
    forall i, j :: 0 <= i < j < |s| ==>
      KeyDefined(mode, s[i]) && KeyDefined(mode, s[j]) && LessEq(Key(mode, s[i]), Key(mode, s[j]))
  }

  /** The tasks of `s` whose key is `k`, in their order in `s`. A sort is stable when it
      keeps each of these subsequences as it is. */
  function WithKey(mode: SortMode, s: seq<Task>, k: seq<int>): (r: seq<Task>)
  {
    Filter((t: Task) => KeyDefined(mode, t) && Key(mode, t) == k, s)
  }

  /** `x` placed before the first task whose key is not below its own. */
  function Insert(mode: SortMode, x: Task, s: seq<Task>): (r: seq<Task>)
    requires KeyDefined(mode, x) && Keyed(mode, s)
    ensures multiset(r) == multiset(s) + multiset{x}
    ensures Keyed(mode, r)
  {
    if s == [] || LessEq(Key(mode, x), Key(mode, s[0])) then [x] + s
    else
      assert s == [s[0]] + s[1..];
      [s[0]] + Insert(mode, x, s[1..])
  }

  /** Python's `list.sort(key=...)`: a stable sort by key, here as insertion sort. */
  function Sort(mode: SortMode, s: seq<Task>): (r: seq<Task>)
    requires Keyed(mode, s)
    ensures multiset(r) == multiset(s)
    ensures Keyed(mode, r)
  {
    if s == [] then []
    else
      assert s == [s[0]] + s[1..];
      Insert(mode, s[0], Sort(mode, s[1..]))
  }

  lemma SortedCons(mode: SortMode, x: Task, s: seq<Task>)
    requires KeyDefined(mode, x) && Keyed(mode, s) && SortedBy(mode, s)
    requires forall j :: 0 <= j < |s| ==> LessEq(Key(mode, x), Key(mode, s[j]))
    ensures SortedBy(mode, [x] + s)
  {
    var r := [x] + s;
    forall i, j | 0 <= i < j < |r|
      ensures KeyDefined(mode, r[i]) && KeyDefined(mode, r[j]) && LessEq(Key(mode, r[i]), Key(mode, r[j]))
    {
      assert r[j] == s[j - 1];
      if i > 0 {
        assert r[i] == s[i - 1];
      }
    }
  }

  lemma {:induction false} InsertSorted(mode: SortMode, x: Task, s: seq<Task>)
    requires KeyDefined(mode, x) && Keyed(mode, s) && SortedBy(mode, s)
    ensures SortedBy(mode, Insert(mode, x, s))
  {
    if s == [] {
    } else if LessEq(Key(mode, x), Key(mode, s[0])) {
      forall j | 0 <= j < |s| ensures LessEq(Key(mode, x), Key(mode, s[j])) {
        if j > 0 {
          LessEqTransitive(Key(mode, x), Key(mode, s[0]), Key(mode, s[j]));
        }
      }
      SortedCons(mode, x, s);
    } else {
      LessTotal(Key(mode, x), Key(mode, s[0]));
      var tail := Insert(mode, x, s[1..]);
      InsertSorted(mode, x, s[1..]);
      forall j | 0 <= j < |tail| ensures LessEq(Key(mode, s[0]), Key(mode, tail[j])) {
        assert tail[j] in multiset(tail);
        if tail[j] != x {
          assert tail[j] in multiset(s[1..]);
          var k :| 0 <= k < |s[1..]| && s[1..][k] == tail[j];
          assert s[k + 1] == tail[j];
        }
      }
      SortedCons(mode, s[0], tail);
    }
  }

  /** The sort's result is ascending by key. */
  lemma {:induction false} SortSorted(mode: SortMode, s: seq<Task>)
    requires Keyed(mode, s)
    ensures SortedBy(mode, Sort(mode, s))
  {
    if s != [] {
      SortSorted(mode, s[1..]);
      InsertSorted(mode, s[0], Sort(mode, s[1..]));
    }
  }

  lemma WithKeyCons(mode: SortMode, x: Task, s: seq<Task>, k: seq<int>)
    ensures WithKey(mode, [x] + s, k)
      == (if KeyDefined(mode, x) && Key(mode, x) == k then [x] else []) + WithKey(mode, s, k)
  {
    assert ([x] + s)[1..] == s;
  }

  lemma {:induction false} InsertWithKey(mode: SortMode, x: Task, s: seq<Task>, k: seq<int>)
    requires KeyDefined(mode, x) && Keyed(mode, s)
    ensures WithKey(mode, Insert(mode, x, s), k) == WithKey(mode, [x] + s, k)
  {
    if s != [] && !LessEq(Key(mode, x), Key(mode, s[0])) {
      LessTotal(Key(mode, x), Key(mode, s[0]));
      LessIrreflexive(Key(mode, x));
      InsertWithKey(mode, x, s[1..], k);
      WithKeyCons(mode, s[0], Insert(mode, x, s[1..]), k);
      WithKeyCons(mode, x, s[1..], k);
      WithKeyCons(mode, s[0], s[1..], k);
      WithKeyCons(mode, x, s, k);
      assert [s[0]] + s[1..] == s;
    }
  }

  /** The sort is stable: the tasks with any one key appear in the result in the order
      they had in the input. */
  lemma {:induction false} SortStable(mode: SortMode, s: seq<Task>, k: seq<int>)
    requires Keyed(mode, s)
    ensures WithKey(mode, Sort(mode, s), k) == WithKey(mode, s, k)
  {
    if s != [] {
      SortStable(mode, s[1..], k);
      InsertWithKey(mode, s[0], Sort(mode, s[1..]), k);
      WithKeyCons(mode, s[0], Sort(mode, s[1..]), k);
      WithKeyCons(mode, s[0], s[1..], k);
      assert [s[0]] + s[1..] == s;
    }
  }

  lemma SortedLeast(mode: SortMode, s: seq<Task>, i: int)
    requires SortedBy(mode, s) && Keyed(mode, s) && 0 <= i < |s|
    ensures LessEq(Key(mode, s[0]), Key(mode, s[i]))
  {
    if i > 0 {
      assert LessEq(Key(mode, s[0]), Key(mode, s[i]));
    }
  }

  /** A task of `a` is a task of every list with the same subsequences per key. */
  lemma SameKeysSameTasks(mode: SortMode, a: seq<Task>, b: seq<Task>, t: Task)
    requires Keyed(mode, a) && t in a
    requires forall k :: WithKey(mode, a, k) == WithKey(mode, b, k)
    ensures t in b
  {
    assert t in WithKey(mode, a, Key(mode, t));
  }

  /** Ascending order and stability fix the result: any list with both properties is the
      one `Sort` returns, so `Sort` is Python's stable sort and no other. */
  lemma {:induction false} StableSortUnique(mode: SortMode, a: seq<Task>, b: seq<Task>)
    requires Keyed(mode, a) && Keyed(mode, b) && SortedBy(mode, a) && SortedBy(mode, b)
    requires forall k :: WithKey(mode, a, k) == WithKey(mode, b, k)
    ensures a == b
    decreases |a|
  {
    if a != [] {
      SameKeysSameTasks(mode, a, b, a[0]);
    }
    if b != [] {
      SameKeysSameTasks(mode, b, a, b[0]);
    }
    if a != [] {
      SameHead(mode, a, b);
      SameTails(mode, a, b);
      StableSortUnique(mode, a[1..], b[1..]);
      assert a == [a[0]] + a[1..] && b == [b[0]] + b[1..];
    }
  }

  /** Two ascending lists with the same subsequences per key start with the same task. */
  lemma SameHead(mode: SortMode, a: seq<Task>, b: seq<Task>)
    requires Keyed(mode, a) && Keyed(mode, b) && SortedBy(mode, a) && SortedBy(mode, b)
    requires forall k :: WithKey(mode, a, k) == WithKey(mode, b, k)
    requires a != [] && b != []
    ensures a[0] == b[0]
  {
    var ka := Key(mode, a[0]);
    SameHeadKey(mode, a, b);
    WithKeyCons(mode, a[0], a[1..], ka);
    WithKeyCons(mode, b[0], b[1..], ka);
    assert a == [a[0]] + a[1..] && b == [b[0]] + b[1..];
    assert WithKey(mode, a, ka)[0] == a[0] && WithKey(mode, b, ka)[0] == b[0];
  }

  /** Two ascending lists with the same subsequences per key start with equal keys. */
  lemma SameHeadKey(mode: SortMode, a: seq<Task>, b: seq<Task>)
    requires Keyed(mode, a) && Keyed(mode, b) && SortedBy(mode, a) && SortedBy(mode, b)
    requires forall k :: WithKey(mode, a, k) == WithKey(mode, b, k)
    requires a != [] && b != []
    ensures Key(mode, a[0]) == Key(mode, b[0])
  {
    var ka, kb := Key(mode, a[0]), Key(mode, b[0]);
    SameKeysSameTasks(mode, a, b, a[0]);
    var i :| 0 <= i < |b| && b[i] == a[0];
    SortedLeast(mode, b, i);
    SameKeysSameTasks(mode, b, a, b[0]);
    var j :| 0 <= j < |a| && a[j] == b[0];
    SortedLeast(mode, a, j);
    LessAsymmetric(ka, kb);
  }

  /** Dropping a common first task keeps the subsequences per key equal. */
  lemma SameTails(mode: SortMode, a: seq<Task>, b: seq<Task>)
    requires a != [] && b != [] && a[0] == b[0]
    requires forall k :: WithKey(mode, a, k) == WithKey(mode, b, k)
    ensures forall k :: WithKey(mode, a[1..], k) == WithKey(mode, b[1..], k)
  {
    forall k ensures WithKey(mode, a[1..], k) == WithKey(mode, b[1..], k) {
      WithKeyCons(mode, a[0], a[1..], k);
      WithKeyCons(mode, b[0], b[1..], k);
      assert a == [a[0]] + a[1..] && b == [b[0]] + b[1..];
      var n := if KeyDefined(mode, a[0]) && Key(mode, a[0]) == k then 1 else 0;
      assert WithKey(mode, a[1..], k) == WithKey(mode, a, k)[n..];
      assert WithKey(mode, b[1..], k) == WithKey(mode, b, k)[n..];
    }
  }

  /** `s[i]` is the first task whose due-date key raises: list.sort computes the keys
      front to back and stops at the first that fails. */
  predicate FirstUnkeyed(s: seq<Task>, i: int)
  {
    0 <= i < |s| && !KeyDefined(ByDueDate, s[i]) && forall j :: 0 <= j < i ==> KeyDefined(ByDueDate, s[j])
  }

  /** The first due date among `s` that Python's key function would fail to parse. */
  function FirstUnparsableDueDate(s: seq<Task>): (r: Option<string>)
    ensures r.None? <==> Keyed(ByDueDate, s)
    ensures r.Some? ==> exists t :: t in s && HasDueDate(t) && t.dueDate.value == r.value && ParseDate(r.value).None?
    ensures r.Some? ==> exists i :: 0 <= i < |s| && FirstUnkeyed(s, i) && s[i].dueDate.value == r.value
  {
    if s == [] then None
    else if !KeyDefined(ByDueDate, s[0]) then
      assert FirstUnkeyed(s, 0);
      Some(s[0].dueDate.value)
    else
      var r := FirstUnparsableDueDate(s[1..]);
      assert r.Some? ==> exists i :: 0 <= i < |s| && FirstUnkeyed(s, i) && s[i].dueDate.value == r.value by {
        if r.Some? {
          var i :| 0 <= i < |s[1..]| && FirstUnkeyed(s[1..], i) && s[1..][i].dueDate.value == r.value;
          assert FirstUnkeyed(s, i + 1) by {
            forall j | 0 <= j < i + 1 ensures KeyDefined(ByDueDate, s[j]) {
              if j > 0 { assert s[j] == s[1..][j - 1]; }
            }
          }
        }
      }
      r
  }

  /** The due date that makes the due-date sort of the filtered tasks raise belongs to
      a stored task that passes the filter, and to the first filtered task whose key
      cannot be computed. */
  lemma UnparsableDueDateIsStored(tasks: seq<Task>, category: Option<string>, includeCompleted: bool)
    requires FirstUnparsableDueDate(Filtered(tasks, category, includeCompleted)).Some?
    ensures var e := FirstUnparsableDueDate(Filtered(tasks, category, includeCompleted)).value;
      ParseDate(e).None?
      && exists t :: t in tasks && Matches(category, includeCompleted, t) && HasDueDate(t) && t.dueDate.value == e
    ensures var filtered := Filtered(tasks, category, includeCompleted);
      exists i :: 0 <= i < |filtered| && FirstUnkeyed(filtered, i)
        && filtered[i].dueDate.value == FirstUnparsableDueDate(filtered).value
  {
    FilteredIsSelection(tasks, [], category, includeCompleted);
  }

  // ---------------------------------------------------------------- categories

  /** The categories of the stored tasks. */
  function Categories(tasks: seq<Task>): (r: set<string>)
  {
    set t | t in tasks :: t.category
  }

  /** Strictly ascending in Python's string order, so also free of duplicates. */
  predicate StrictlyAscending(s: seq<string>)
  {
    forall i, j :: 0 <= i < j < |s| ==> StrLess(s[i], s[j])
  }

  predicate IsLeast(m: string, s: set<string>)
  {
    m in s && forall x :: x in s ==> m == x || StrLess(m, x)
  }

  /** Every non-empty finite set of strings has a least element. */
  lemma LeastExists(s: set<string>)
    requires s != {}
    ensures exists m :: IsLeast(m, s)
    decreases |s|
  {
    var y :| y in s;
    if s != {y} {
      LeastExists(s - {y});
      var m :| IsLeast(m, s - {y});
      StrLessTotal(m, y);
      if StrLess(y, m) {
        forall x | x in s ensures y == x || StrLess(y, x) {
          if x != y && x != m { StrLessTransitive(y, m, x); }
        }
        assert IsLeast(y, s);
      } else {
        assert IsLeast(m, s);
      }
    } else {
      assert IsLeast(y, s);
    }
  }

  /** Two strictly ascending lists with the same elements are equal: the result of
      `sorted()` on a set is determined by the set. */
  lemma {:induction false} AscendingUnique(a: seq<string>, b: seq<string>)
    requires StrictlyAscending(a) && StrictlyAscending(b)
    requires forall x :: x in a <==> x in b
    ensures a == b
    decreases |a|
  {
    if a != [] {
      assert a[0] in b;
    }
    if b != [] {
      assert b[0] in a;
    }
    if a != [] {
      var i :| 0 <= i < |b| && b[i] == a[0];
      var j :| 0 <= j < |a| && a[j] == b[0];
      if i > 0 {
        assert StrLess(b[0], a[0]);
      }
      if j > 0 {
        assert StrLess(a[0], b[0]);
      }
      StrLessTotal(a[0], b[0]);
      assert a[0] == b[0];
      forall x ensures x in a[1..] <==> x in b[1..] {
        if x in a[1..] {
          var k :| 0 <= k < |a[1..]| && a[1..][k] == x;
          assert StrLess(a[0], a[k + 1]);
          StrLessTotal(a[0], x);
          assert x in b;
          var l :| 0 <= l < |b| && b[l] == x;
          assert x == b[1..][l - 1];
        }
        if x in b[1..] {
          var k :| 0 <= k < |b[1..]| && b[1..][k] == x;
          assert StrLess(b[0], b[k + 1]);
          StrLessTotal(b[0], x);
          assert x in a;
          var l :| 0 <= l < |a| && a[l] == x;
          assert x == a[1..][l - 1];
        }
      }
      AscendingUnique(a[1..], b[1..]);
      assert a == [a[0]] + a[1..] && b == [b[0]] + b[1..];
    }
  }
}
