# Task store model

This project models `TaskManager`, the task store of a small to-do application, and
proves properties of that model.

The store keeps an ordered in-memory list of task records and writes the whole list
back to its JSON backing file after every change. Each record has:

- an id;
- a description;
- a completion flag;
- a creation timestamp;
- a category;
- an optional `YYYY-MM-DD` due date.

The store offers five operations: adding, deleting, toggling, querying (filter, then
sort by one of four keys) and listing the distinct categories. When the backing file
is loaded, missing fields are filled in with defaults.

## Files

- wrappers.dfy: `Option` (Python's `None`, or a missing key) and `Result` (an operation
  that can raise).
- seqs.dfy: `Filter`, the list comprehension `[x for x in s if p(x)]`, with its
  append, count and length lemmas.
- lex.dfy: the lexicographic order `Lex.Less` on integer sequences, proved to be a
  strict total order. Each sort key is encoded as an integer sequence, so that
  `Lex.Less` on the encodings agrees with Python's `<` on the original keys:
  - the creation timestamp becomes `[n]`;
  - a parsed due date becomes `[0, year, month, day]`, and `datetime.max` (no due
    date) becomes `[1]`;
  - the lower-cased description becomes its code points;
  - the completion flag becomes `[0]` for `False` and `[1]` for `True`.
- text.dfy: `str.strip()`, using Python's whitespace set, and `str.lower()`.
- dates.dfy: `datetime.strptime(s, '%Y-%m-%d')` as a validator `ParseDate`. It follows
  the regular expressions of CPython's `_strptime`:
  - the year is exactly four digits;
  - the month is `1[0-2]`, `0[1-9]` or `[1-9]`, the first alternative that matches being
    taken;
  - the day is `3[01]`, `[12]\d`, `0[1-9]`, `[1-9]` or a space followed by `[1-9]`;
  - no characters may be left over;
  - the result must be a real date in years 1 to 9999, with Gregorian leap years.
  The file also has `Format`, an inverse of `ParseDate`, and round trips in both
  directions.
- records.dfy: tasks in memory and as stored in the file. Defaulting on load, and the
  save/load round trip.
- query.dfy: the `get_tasks` filter and sort keys, the stable sort, and the category
  order.
- task_manager.dfy: the `TaskManager` class.
  - Its field `tasks` is the list in storage order.
  - The ghost field `saves` logs every list written to the backing file. A call that
    "does not save" leaves this log unchanged. A call that saves appends the new list
    to it.
- scenarios.dfy: two worked sessions. One sorts by due date. The other lists the
  categories.

## Where the code and its description differ

The model follows the code in both cases.

- An unrecognised `sort_by` returns the filtered list in storage order. It does not
  fall back to creation order (task_manager.py:96-111 has no `else` branch).
- A category made only of whitespace is stored as the empty string, not as
  "Uncategorized" (task_manager.py:59). The truthiness test runs before the strip.

## Model

| member | source | states |
|---|---|---|
| TaskStore.TaskManager.constructor | task_manager.py:6-8 | the store starts with exactly the loaded list and nothing saved |
| TaskStore.TaskManager.LoadTasks | task_manager.py:10-29 | a missing or corrupt file gives the empty list; otherwise it gives record `i` defaulted, for each `i` in file order |
| TaskStore.TaskManager.SaveTasks | task_manager.py:31-33 | the current list is written, and the file then holds the list |
| TaskStore.TaskManager.AddTask | task_manager.py:35-64 | it succeeds exactly when the stripped description is non-empty. On failure nothing changes and nothing is saved. On success exactly one record is appended and the earlier records are untouched. That record has the fresh id, the stripped description, `completed = false`, the given timestamp, the stored category and the validated due date. The list is then saved, and ids stay unique |
| TaskStore.TaskManager.DeleteTask | task_manager.py:66-73 | the new list is the tasks with another id, in order. It returns true exactly when some task had the id, which is exactly when the list got shorter, and only then saves. Ids stay unique |
| TaskStore.TaskManager.ToggleTaskStatus | task_manager.py:75-82 | the new list is `Toggled(old list, id)`. It returns true and saves exactly when some task has the id; otherwise nothing is saved |
| TaskStore.TaskManager.GetTasks | task_manager.py:84-113 | see the detail below this table |
| TaskStore.TaskManager.GetCategories | task_manager.py:115-120 | the result is strictly ascending in code-point order (so it has no duplicates) and holds exactly the categories of all stored tasks |
| TaskStore.StoredCategoryIsDefault | task_manager.py:59 | the stored category is "Uncategorized" exactly when the argument is `None`, empty, or strips to "Uncategorized" |
| TaskStore.StoredCategoryIsTrimmed | task_manager.py:59 | the stored category never begins or ends with whitespace, and a given category is stored in a form that stripping leaves alone |
| TaskStore.BlankCategoryStoredEmpty | task_manager.py:59 | a non-empty, whitespace-only category is stored as "" |
| TaskStore.ValidatedDueDate | task_manager.py:45-52 | the stored due date is present exactly when the argument is a non-empty string that `strptime('%Y-%m-%d')` accepts, and is then the argument unchanged |
| TaskStore.WithoutProperties | task_manager.py:69-73 | deleting keeps every occurrence of tasks with another id and drops the rest. It distributes over concatenation. The list gets shorter exactly when some task has the id, and is unchanged otherwise |
| TaskStore.WithoutKeepsIdsUnique | task_manager.py:69 | deleting keeps ids unique |
| TaskStore.AppendKeepsIdsUnique | task_manager.py:41-54 | appending a task with an unused id keeps ids unique |
| TaskStore.Toggled | task_manager.py:77-82 | toggling keeps the length and every id, and without a matching task changes nothing |
| TaskStore.ToggledAtFirstMatch | task_manager.py:77-79 | only the first task with the id changes, and only in its completion flag |
| TaskStore.ToggleTwice | task_manager.py:75-82 | toggling the same id twice restores the list |
| TaskRecord.Stored | task_manager.py:31-33 | a saved record carries every key |
| TaskRecord.SavedFile | task_manager.py:31-33 | a saved file parses, with one record per task |
| TaskRecord.WithDefaults | task_manager.py:15-23 | each missing key is filled in: the fresh id, the current time, "Uncategorized" or `None`. Each present key is kept |
| TaskRecord.CompleteRecordUnchanged | task_manager.py:15-23 | defaulting leaves a record that has every key as it is |
| TaskRecord.Loaded | task_manager.py:10-29 | the loaded list is empty for a missing or corrupt file, and otherwise is the defaulted records in file order |
| TaskRecord.SaveLoadRoundTrip | task_manager.py:15-24 | loading a saved list gives back exactly that list, and no default is used |
| TaskQuery.FilteredIsSelection | task_manager.py:89-93 | the filtered list holds exactly the tasks that pass the category and completion tests, each as often as it is stored. Filtering distributes over concatenation |
| TaskQuery.FilteredSnoc | task_manager.py:90-93 | filtering one more task appends it exactly when it passes both tests |
| TaskQuery.SortModeOf | task_manager.py:96-111 | each of the four recognised names selects its own sort, and any other name selects none |
| TaskQuery.CreationOrder | task_manager.py:98 | the creation key orders tasks by timestamp |
| TaskQuery.CompletionOrder | task_manager.py:110 | the completion key puts incomplete tasks before completed ones |
| TaskQuery.DescriptionOrder | task_manager.py:107 | the description key orders tasks by lower-cased description in code-point order, and ties exactly on equal lower-cased descriptions |
| TaskQuery.DueDateOrder | task_manager.py:101-105 | with two due dates, the order is by calendar date (year, month, day) of the parsed dates. A task with a due date comes before one without. Two tasks without one tie |
| TaskQuery.DueDateOrderIsNotTextOrder | task_manager.py:103 | "2025-7-5" sorts before "2025-10-01" although it is greater as text |
| TaskQuery.Insert | task_manager.py:98-110 | inserting adds exactly the one task, and every key stays defined |
| TaskQuery.Sort | task_manager.py:98-110 | sorting permutes the list |
| TaskQuery.SortSorted | task_manager.py:98-110 | the sorted list is ascending by key |
| TaskQuery.InsertSorted | task_manager.py:98-110 | inserting into an ascending list keeps it ascending |
| TaskQuery.SortStable | task_manager.py:98-110 | the sort is stable: the tasks sharing any one key keep their storage order |
| TaskQuery.InsertWithKey | task_manager.py:98-110 | the inserted task comes before every task of the list that shares its key, so inserting the earliest input task first keeps storage order |
| TaskQuery.StableSortUnique | task_manager.py:98-110 | two ascending lists with the same per-key subsequences are equal, so any stable sort gives this result |
| TaskQuery.SameKeysSameTasks | task_manager.py:98-110 | lists with the same per-key subsequences hold the same tasks |
| TaskQuery.FirstUnparsableDueDate | task_manager.py:102-105 | the due-date key raises exactly when some task has a non-empty due date that does not parse. It names the due date of the first such task, the one on which `list.sort` stops |
| TaskQuery.UnparsableDueDateIsStored | task_manager.py:89-105 | the due date that makes the due-date sort raise belongs to a stored task that passes the filter, and to the first filtered task whose key cannot be computed |
| TaskQuery.LeastExists | task_manager.py:120 | every non-empty set of categories has a least element |
| TaskQuery.AscendingUnique | task_manager.py:120 | two strictly ascending lists with the same elements are equal, so the sorted category list is determined by the set |
| Lex.StrLessTotal | task_manager.py:107 | string order is total, asymmetric and irreflexive |
| Lex.StrLessTransitive | task_manager.py:107 | string order is transitive |
| Lex.LessTotal | task_manager.py:96-111 | the key order is total |
| Lex.LessTransitive | task_manager.py:96-111 | the key order is transitive |
| Lex.LessCons | task_manager.py:101-105 | keys compare on their first element, then on the rest, as tuples do |
| Text.StripIsTrimmedSlice | task_manager.py:40 | a stripped string is a contiguous slice of the input with only whitespace around it |
| Text.StripEmptyIffBlank | task_manager.py:40 | a description strips to nothing exactly when it is empty or all whitespace |
| Text.StripIdempotent | task_manager.py:56 | a stripped description is its own strip |
| Text.StripUntrimmed | task_manager.py:56 | a string with no surrounding whitespace is unchanged by stripping |
| Text.LowerProperties | task_manager.py:107 | lower-casing keeps the length, maps each character on its own, leaves no ASCII capital and is idempotent |
| Dates.ParseDate | task_manager.py:49 | an accepted string always denotes a real calendar date |
| Dates.FormatParses | task_manager.py:49 | every real date, with a zero-padded or unpadded month and a zero-padded, unpadded or space-padded day, is accepted as exactly that date |
| Dates.ParseIsFormat | task_manager.py:49 | every accepted string is such a rendering of the date it denotes |
| Dates.AcceptedExamples | task_manager.py:49 | "2025-07-25", "2024-02-29", "2025-7-5" and "2025-07- 5" are accepted as the expected dates |
| Dates.RejectedDateExamples | task_manager.py:49-52 | February 29 of 2023 and of 1900, February 30 and year 0 are rejected |
| Dates.RejectedShapeExamples | task_manager.py:49-52 | month 13, day 32, trailing characters and non-dates are rejected |
| TaskScenarios.DueDateScenario | task_manager.py:99-105 | tasks due 2025-07-25, 2025-07-23 and never, in that storage order, sort as the second, the first, the third |
| TaskScenarios.SortTwo | task_manager.py:98-110 | two tasks already in strict key order are left as they are |
| TaskScenarios.InsertBetween | task_manager.py:98-110 | a task whose key lies strictly between those of two ordered tasks is inserted between them |
| TaskScenarios.SortThree | task_manager.py:98-110 | three tasks whose keys rank second, first, third are sorted into that order |
| TaskScenarios.CategoriesScenario | task_manager.py:115-120 | the categories "Work", "Personal", "Personal", "Uncategorized" are listed as "Personal", "Uncategorized", "Work" |
| Seqs.FilterAppend | task_manager.py:69 | a comprehension over a concatenation is the concatenation of the comprehensions |
| Seqs.FilterCount | task_manager.py:69 | a comprehension keeps every occurrence of each element that passes, and drops every occurrence of each one that fails |
| Seqs.FilterShorter | task_manager.py:70 | a comprehension is shorter exactly when some element fails the test, and is otherwise the input itself |

`TaskStore.TaskManager.GetTasks` states the following:

- On success, every task returned is stored and passes the filter.
- On success, the result is a permutation of the filtered tasks.
- An unrecognised `sort_by` returns the filtered tasks in storage order.
- The call fails exactly when it sorts by due date and a filtered task has a non-empty
  due date that does not parse. It then names the due date of the first such filtered
  task, where `list.sort` stops computing keys.
- With a recognised `sort_by`, the result:
  - is ascending by that key;
  - is stable;
  - equals the stable sort of the filtered list.
- The stored list is not modified.

## Left out

- gui.py, styles.py and main.py: they are the tkinter interface, its style constants,
  and process start-up. gui.py's overdue colouring depends on today's date. gui.py,
  styles.py and main.py are not part of this model.
- File I/O and JSON: the backing file is a value. It is either missing, corrupt
  (`json.JSONDecodeError`, including an empty file) or a parsed list of records.
  Writing it is a ghost log entry. The file name is not modelled.
- JSON content outside the model: a file whose JSON is not a list, records without
  `description` or `completed`, and fields of the wrong type.
- `uuid.uuid4()`: the caller supplies fresh ids. `add_task` requires that its id is
  not in use. When loading, one id per record is supplied and used only if the record
  lacks one.
- `datetime.now().isoformat()` and `datetime.fromisoformat`: a timestamp is an
  abstract natural number, which the caller supplies, ordered as the parsed timestamps
  are.
- A failing `created_at` sort: `datetime.fromisoformat` raises `ValueError` on a loaded
  `created_at` that is not ISO text (loading fills in only a missing one), and the sort
  raises `TypeError` when it compares timestamps with and without a UTC offset. The
  model's timestamps are natural numbers, so its `created_at` sort never fails, and
  `GetTasks` fails only on an unparsable due date.
- The warnings `print`ed for a corrupt file and an invalid due date: output only.
- The demonstration block under `if __name__ == "__main__"`: not part of the store.
- `list.sort` is modelled as insertion sort, not Timsort. `TaskQuery.StableSortUnique`
  shows that every stable sort by the same key gives the same list.
- `get_categories` reads a record's category with the default "Uncategorized". In the
  model every task has a category, because loading fills one in.
- Mutation of shared record dictionaries: `get_tasks` returns the same records the
  store holds. In the model records are values.
- Text.Lower: maps only ASCII capitals. Python's `str.lower()` also maps non-ASCII
  letters, and some of them become several characters.
- Dates.ParseDate: accepts only the ASCII digits 0-9. Python's `\d` in `_strptime`
  also matches other Unicode decimal digits.
