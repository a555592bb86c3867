/** Two worked sessions with the store, stated on the model's functions. */
module TaskScenarios {
  import opened Wrappers
  import opened Lex
  import opened Dates
  import opened TaskRecord
  import opened TaskQuery

  /** Two tasks already in key order stay as they are. */
  lemma SortTwo(mode: SortMode, b: Task, c: Task)
    requires KeyDefined(mode, b) && KeyDefined(mode, c)
    requires Less(Key(mode, b), Key(mode, c))
    ensures Sort(mode, [b, c]) == [b, c]
  {
    assert [c][1..] == [];
    assert Sort(mode, [c]) == [c] by {
      assert Sort(mode, []) == [];
      assert Insert(mode, c, []) == [c];
    }
    assert [b, c][0] == b && [b, c][1..] == [c];
    assert LessEq(Key(mode, b), Key(mode, [c][0]));
    assert Insert(mode, b, [c]) == [b, c];
  }

  /** A task whose key lies between those of `b` and `c` is inserted between them. */
  lemma InsertBetween(mode: SortMode, a: Task, b: Task, c: Task)
    requires KeyDefined(mode, a) && KeyDefined(mode, b) && KeyDefined(mode, c)
    requires Less(Key(mode, b), Key(mode, a)) && Less(Key(mode, a), Key(mode, c))
    ensures Insert(mode, a, [b, c]) == [b, a, c]
  {
    LessAsymmetric(Key(mode, b), Key(mode, a));
    LessIrreflexive(Key(mode, b));
    assert [b, c][0] == b && [b, c][1..] == [c];
    assert Insert(mode, a, [c]) == [a, c];
  }

  /** Three tasks whose keys are ordered second, first, third are sorted into that
      order. */
  lemma SortThree(mode: SortMode, a: Task, b: Task, c: Task)
    requires KeyDefined(mode, a) && KeyDefined(mode, b) && KeyDefined(mode, c)
    requires Less(Key(mode, b), Key(mode, a)) && Less(Key(mode, a), Key(mode, c))
    ensures Sort(mode, [a, b, c]) == [b, a, c]
  {
    LessTransitive(Key(mode, b), Key(mode, a), Key(mode, c));
    SortTwo(mode, b, c);
    InsertBetween(mode, a, b, c);
    assert [a, b, c][0] == a && [a, b, c][1..] == [b, c];
  }

  /** Tasks due 2025-07-25, 2025-07-23 and never, added in that order, come out of the
      due-date sort as the second, the first, then the third. */
  lemma DueDateScenario(milk: Task, report: Task, mom: Task)
    requires milk.dueDate == Some("2025-07-25")
    requires report.dueDate == Some("2025-07-23")
    requires mom.dueDate == None
    ensures Keyed(ByDueDate, [milk, report, mom])
    ensures Sort(ByDueDate, [milk, report, mom]) == [report, milk, mom]
  {
    AcceptedExamples();
    assert Key(ByDueDate, milk) == [0, 2025, 7, 25];
    assert Key(ByDueDate, report) == [0, 2025, 7, 23];
    LessCons(0, [2025, 7, 23], 0, [2025, 7, 25]);
    LessCons(2025, [7, 23], 2025, [7, 25]);
    LessCons(7, [23], 7, [25]);
    LessCons(0, [2025, 7, 25], 1, []);
    SortThree(ByDueDate, milk, report, mom);
  }

  /** Whatever list `get_categories` returns for tasks filed under "Work", "Personal",
      "Personal" and "Uncategorized" is the sorted list of the three names. */
  lemma CategoriesScenario(tasks: seq<Task>, r: seq<string>)
    requires |tasks| == 4
    requires tasks[0].category == "Work" && tasks[1].category == "Personal"
    requires tasks[2].category == "Personal" && tasks[3].category == Uncategorized
    requires StrictlyAscending(r) && forall c :: c in r <==> c in Categories(tasks)
    ensures r == ["Personal", "Uncategorized", "Work"]
  {
    var expected := ["Personal", "Uncategorized", "Work"];
    assert Codes("Personal")[0] == 'P' as int;
    assert Codes("Uncategorized")[0] == 'U' as int;
    assert Codes("Work")[0] == 'W' as int;
    assert StrictlyAscending(expected);
    forall c ensures c in expected <==> c in Categories(tasks) {
      assert tasks[0] in tasks && tasks[1] in tasks && tasks[3] in tasks;
    }
    AscendingUnique(r, expected);
  }
}
