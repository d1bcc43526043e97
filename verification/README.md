# Student Productivity Dashboard: task store and views in Dafny

This project models the task logic of the dashboard's `script.js`. That
logic is a list of task records `{id, title, priority, deadline, completed}`
with four handlers that change the list: add, toggle completion, edit and
delete. From the list the page derives a view (filter by completion, then a
stable sort by deadline or priority) and a summary (total, completed,
pending, percent done).

Module layout:

- `wrappers.dfy` (`Wrappers`): `Option`. It stands for a lookup that finds nothing and for a cancelled prompt.
- `seqs.dfy` (`Seqs`): `Keep`, which is `Array.prototype.filter`, and the order-preserving subsequence relation.
- `text.dfy` (`Text`): `trim`, ASCII `toLowerCase`, and the lexicographic order of `YYYY-MM-DD` deadlines.
- `tasks.dfy` (`Tasks`): the `Task` record, with the five fields of the object built at script.js:47-53. It also holds the effect of find, toggle, edit and delete as functions on a list, with their lemmas.
- `sorting.dfy` (`Sorting`): `Array.prototype.sort(comparefn)` as a stable insertion sort. It has an in-place array method and a specification function, and the lemmas say the result is sorted, a permutation and stable.
- `views.dfy` (`Views`): the filter predicate, the comparator, and the stats arithmetic.
- `store.dfy` (`Store`): class `TaskStore`. Its `tasks` field is the global list and its handlers are methods. A ghost `saved` field is the snapshot written to `localStorage`.

Modelling choices:

- Ids are passed in by the caller; the source takes them from `Date.now()`.
- Deadlines are `YYYY-MM-DD` strings compared lexicographically. For such strings this gives the same order as subtracting the parsed dates.
- Priority is a string. The rank table (script.js:82) and the edit prompt's hint "(low/medium/high)" (script.js:145) name three priorities, but an edit stores any lowercased answer. `Rank` gives 1, 2 and 3 to the known priorities and 0 to any other.
- The percentage is `(200 * completed + total) / (2 * total)` in integers. This rounds half up, as `Math.round` does.

Behaviour of the code worth knowing:

- Edit tests the title for emptiness before trimming it. A title of only spaces is therefore accepted and becomes empty. `Tasks.EditCanBlankTitle` shows this on a concrete list.
- Delete removes every task with the id. It removes exactly one task only when ids are unique, which `Tasks.DeleteRemovesOne` proves.
- Add does not check that the new id is unused. The store methods keep ids unique only when the caller supplies a fresh id.
- Loading treats a missing entry as an empty list. Malformed stored text makes `JSON.parse` throw: the script stops at script.js:27 and no handler is attached. Parsing is not part of this model.

## Model

| member | source | states |
|---|---|---|
| `Text.IsWhitespace` | script.js:42 | on ASCII, exactly space, tab, line feed, vertical tab, form feed and carriage return are whitespace; the rest of the set is ECMAScript's WhiteSpace and LineTerminator |
| `Text.Trim` | script.js:42 | the trimmed title is the contiguous slice of the input after its leading whitespace, everything cut off on either side is whitespace, it is empty exactly when the input is all whitespace, and otherwise it starts and ends with a non-whitespace character |
| `Text.Lead` | script.js:42 | the leading run counted is all whitespace and is followed by a non-whitespace character or the end |
| `Text.Trail` | script.js:42 | the trailing run counted is all whitespace and is preceded by a non-whitespace character or the start |
| `Text.ToLower` | script.js:150 | lowering keeps the length, maps each character independently and leaves no ASCII capital |
| `Text.ToLowerIdempotent` | script.js:150 | lowering an already lowered priority changes nothing |
| `Text.LexLess` | script.js:80 | the deadline order never holds between equal strings, and a proper prefix comes before the longer string |
| `Text.LexTrichotomy` | script.js:80 | any two deadlines are ordered one way, the other way, or equal, and exactly one of these holds |
| `Text.LexTransitive` | script.js:80 | the deadline order is transitive |
| `Text.LexLessAt` | script.js:80 | two deadlines that agree up to some position and differ there are ordered by the characters at that position |
| `Seqs.Keep` | script.js:71-75 | `filter` returns only elements of the input that satisfy the predicate, and every satisfying element is returned |
| `Seqs.KeepIsSubsequence` | script.js:71-75 | `filter` keeps the relative order of what it keeps |
| `Seqs.KeepCounts` | script.js:71-75 | `filter` keeps every accepted element exactly as often as it occurs and nothing else |
| `Tasks.Rank` | script.js:82-83 | low < medium < high as 1, 2, 3, and only those three priorities have a positive rank |
| `Tasks.FirstWithId` | script.js:130 | `find` yields the first position whose task has the id, or nothing exactly when no task has it |
| `Tasks.Toggled` | script.js:130-132 | toggling keeps the length and every field except `completed`, and `completed` changes exactly at the first task with the id |
| `Tasks.ToggleTwice` | script.js:130-132 | toggling the same id twice restores the original list |
| `Tasks.ToggleAbsent` | script.js:130-131 | toggling an id no task has leaves the list unchanged |
| `Tasks.EditAccepted` | script.js:148 | definition only: the test `newTitle && newPriority && newDeadline`, where a cancelled prompt or an empty answer fails; its effect is stated by `Tasks.Edited` and `Store.TaskStore.EditTask` |
| `Tasks.Edited` | script.js:142-151 | a rejected edit changes nothing. An accepted edit of the first task with the id sets the trimmed title, the lowercased priority and the new deadline, and keeps that task's id and completion. All other tasks are unchanged |
| `Tasks.EditCanBlankTitle` | script.js:148-149 | a title answer of only spaces passes the check and leaves the task with an empty title |
| `Tasks.EditKeepsIds` | script.js:149-151 | an edit never changes any task's id or completion |
| `Tasks.Without` | script.js:162 | deletion leaves no task with the id, keeps every other task, and shortens the list by the number of tasks with the id |
| `Tasks.WithoutKeepsOrder` | script.js:162 | the remaining tasks keep their relative order |
| `Tasks.UniqueCountId` | script.js:48 | with unique ids an id occurs once when present and not at all otherwise |
| `Tasks.DeleteRemovesOne` | script.js:162 | with unique ids, deleting a present id removes exactly one task and the id is gone |
| `Tasks.DeleteKeepsUnique` | script.js:162 | deletion keeps ids unique |
| `Tasks.AppendFreshKeepsUnique` | script.js:47-54 | appending a task whose id is unused keeps ids unique |
| `Views.Shown` | script.js:72-74 | definition only: the filter callback, completed tasks for "completed", the others for "pending", every task otherwise; its effect is stated by `Views.FilterTasks` and `Views.FilterModes` |
| `Views.FilterTasks` | script.js:71-75 | the view holds only tasks of the list that the filter shows, and every shown task of the list |
| `Views.CountCompleted` | script.js:172 | the completed count never exceeds the list length and is zero exactly when no task is completed |
| `Views.FilterModes` | script.js:71-75 | each view is an order-preserving subsequence. "completed" has as many tasks as are completed, "pending" as many as are not, and any other mode returns the whole list |
| `Views.Percent` | script.js:174 | 0 for an empty list. Otherwise it is the whole number nearest to 100·completed/total, with halves rounded up, and it never exceeds 100 |
| `Views.ComputeStats` | script.js:171-174 | total is the list length, completed never exceeds it, pending is their difference, and percent is the rounded share |
| `Views.StatsMatchViews` | script.js:172-173 | the completed and pending counts equal the sizes of the "completed" and "pending" views |
| `Views.StatsExamples` | script.js:171-174 | an empty list gives zeros; a list of three tasks with one completed gives total 3, completed 1, pending 2 and 33 percent; one of eight gives 13 percent |
| `Views.DeadlineCompare` | script.js:79-80 | the deadline comparison is zero exactly for equal deadlines and negative exactly when the first is earlier |
| `Views.Compare` | script.js:78-86 | by deadline, earlier goes first. By priority, higher rank goes first. Any other key compares every pair as equal |
| `Views.CompareAntisymmetric` | script.js:78-86 | swapping the compared tasks negates the comparison |
| `Views.CompareTransitive` | script.js:78-86 | "goes no later than" is transitive for every key |
| `Views.ComparatorConsistent` | script.js:78-86 | the comparator meets what a stable sort needs, for every key |
| `Views.SortKeys` | script.js:78-86 | the sorted view is a permutation. By deadline the deadlines never decrease and by priority the ranks never increase. Any other key keeps the order |
| `Views.SortKeepsTies` | script.js:78-86 | tasks that compare equal keep their relative order in the sorted view |
| `Views.SortByPriorityExample` | script.js:81-83 | tasks of priority low, high and medium sort by priority to high, medium, low |
| `Views.SortByDeadlineExample` | script.js:79-80 | tasks due 2024-03-01, 2024-01-15 and 2024-02-10 sort by deadline into ascending order |
| `Views.View` | script.js:71-86 | the displayed list is a permutation of the filtered list, in comparator order for the chosen key (stability: `Views.SortKeepsTies`) |
| `Sorting.Insert` | script.js:78 | inserting one element into a sorted prefix lengthens it by one; its other properties are `Sorting.InsertPermutes`, `Sorting.InsertSorted` and `Sorting.InsertStable` |
| `Sorting.InsertPermutes` | script.js:78 | insertion adds exactly the inserted element to the multiset |
| `Sorting.InsertSorted` | script.js:78 | inserting into a sorted sequence with a consistent comparator gives a sorted sequence |
| `Sorting.InsertStable` | script.js:78 | for a consistent comparator and any `t`, the elements tying with `t` after insertion are those of the prefix in their order, followed by the inserted element if it ties |
| `Sorting.Sort` | script.js:78 | `filteredTasks.sort(...)` keeps the length; that the result is a permutation, in order and stable is stated by `Sorting.SortPermutes`, `Sorting.SortSorted` and `Sorting.SortStable` |
| `Sorting.SortPermutes` | script.js:78 | the sort returns a permutation of its input |
| `Sorting.SortSorted` | script.js:78 | for a consistent comparator, every pair of the result is in comparator order |
| `Sorting.SortStable` | script.js:78 | for a consistent comparator, elements that compare equal keep their input order |
| `Sorting.SortAllEqual` | script.js:85 | a comparator that answers 0 for every pair leaves the order unchanged |
| `Sorting.SortInPlace` | script.js:78 | sorting the array in place leaves exactly the stable sort of its old contents |
| `Sorting.InsertLast` | script.js:78 | one pass moves the last element of the prefix into place and leaves the rest of the array alone |
| `Store.TaskStore.constructor` | script.js:27 | the store starts with the stored list, or an empty list when nothing is stored, and that list counts as saved |
| `Store.TaskStore.Add` | script.js:40-60 | a task is appended exactly when the trimmed title, the priority and the deadline are all non-empty. The new task has the trimmed title, the given fields and `completed` false. Otherwise the list is unchanged. Both cases keep the list saved, and a fresh id keeps ids unique |
| `Store.TaskStore.Find` | script.js:130 | the scan returns the first position of a task with the id, or nothing |
| `Store.TaskStore.ToggleComplete` | script.js:128-137 | reports whether the id is present, leaves the list as `Toggled` describes, saves it and keeps ids unique |
| `Store.TaskStore.EditTask` | script.js:140-156 | reports whether the id was found and the answers accepted, leaves the list as `Edited` describes, saves it and keeps ids unique |
| `Store.TaskStore.DeleteTask` | script.js:159-167 | after confirmation the list is `Without` the id; without confirmation nothing changes. The list is saved and ids stay unique |
| `Store.TaskStore.Render` | script.js:67-86 | the displayed array is fresh and holds the stable sort of the filtered list |

## Left out

- DOM lookups, `innerHTML` rendering, event-listener wiring, the empty-state message and the progress bar width (script.js:12-24, 88-124, 176-180). They are presentation only.
- The motivational quote and its `Math.random` choice (script.js:3-9, 32). They are randomness and presentation.
- `localStorage` and JSON. The ghost field `saved` stands for the stored snapshot, and the constructor receives the already parsed value. Malformed stored text, on which `JSON.parse` throws, is not modelled.
- `Date.now()` ids and `parseInt` of the button's `data-id`. Ids are integer parameters.
- Date parsing with `new Date(...)` and `toLocaleDateString`. Deadlines are compared as text. This matches the date order only for well-formed `YYYY-MM-DD` strings. Invalid dates, for which the source compares `NaN`, are not modelled.
- Sorting with priorities outside low/medium/high. The source's comparator yields `NaN` there, and `sort` treats that as "equal". Such a comparator is inconsistent and the engine's order is then unspecified. The model ranks such priorities 0, below low.
- `Views.Percent`: does not model floating point. When `completed / total * 100` is exactly a half, the float product can fall just below it, and `Math.round` would then round down where the integer formula rounds up.
- `Text.ToLower`: lowers ASCII capitals only; `toLowerCase` also maps non-ASCII letters.
- `prompt` and `confirm` (script.js:144-146, 161). Their answers are parameters.
- Task records are values. In the source, toggle and edit change the found record object in place, and the rendered array shares those objects with the list. That aliasing is not modelled, since the view is rebuilt after every change.
