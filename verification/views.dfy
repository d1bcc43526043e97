/** What `renderTasks` and `updateStats` derive from the task list
    (script.js): the filtered view, its sort order, and the summary
    counts. */
module Views {
  import opened Seqs
  import opened Text
  import opened Tasks
  import opened Sorting

  // ----- Filtering (script.js:71-75) -----

  /** Whether a task is shown under the filter selection. */
  predicate Shown(mode: string, t: Task) {
    if mode == "completed" then t.completed
    else if mode == "pending" then !t.completed
    else true
  }

  function ShownIn(mode: string): Task -> bool {
    (t: Task) => Shown(mode, t)
  }

  function FilterTasks(s: seq<Task>, mode: string): (r: seq<Task>)
    ensures forall i :: 0 <= i < |r| ==> r[i] in s && Shown(mode, r[i])
    ensures forall i :: 0 <= i < |s| && Shown(mode, s[i]) ==> s[i] in r
  {
    Keep(s, ShownIn(mode))
  }

  function IsDone(t: Task): bool {
    t.completed
  }

  /** `tasks.filter(t => t.completed).length`. */
  function CountCompleted(s: seq<Task>): (n: nat)
    ensures n <= |s|
    ensures n == 0 <==> forall i :: 0 <= i < |s| ==> !s[i].completed
  {
    var r := Keep(s, IsDone);
    assert r != [] ==> r[0] in s && r[0].completed;
    assert forall i :: 0 <= i < |s| && s[i].completed ==> s[i] in r;
    |r|
  }

  /** The three filter modes: "completed" keeps exactly the completed tasks,
      "pending" exactly the others, and any other selection keeps the whole
      list; every view keeps the list's order. */
  lemma {:induction false} FilterModes(s: seq<Task>, mode: string)
    ensures IsSubsequence(FilterTasks(s, mode), s)
    ensures mode == "completed" ==> |FilterTasks(s, mode)| == CountCompleted(s)
    ensures mode == "pending" ==> |FilterTasks(s, mode)| == |s| - CountCompleted(s)
    ensures mode != "completed" && mode != "pending" ==> FilterTasks(s, mode) == s
  {
    KeepIsSubsequence(s, ShownIn(mode));
    if mode == "completed" {
      KeepSameFilter(s, ShownIn(mode), IsDone);
    } else if mode == "pending" {
      KeepComplement(s, IsDone, ShownIn(mode));
    } else {
      KeepAll(s, ShownIn(mode));
    }
  }

  // ----- Statistics (script.js:170-174) -----

  datatype Stats = Stats(total: nat, completed: nat, pending: nat, percent: nat)

  /** `Math.round(completed / total * 100)` in integers: the nearest whole
      percent, halves rounded up; 0 for an empty list. */
  function Percent(completed: nat, total: nat): (p: nat)
    requires completed <= total
    ensures total == 0 ==> p == 0
    ensures total > 0 ==> 2 * total * p <= 200 * completed + total < 2 * total * (p + 1)
    ensures p <= 100
  {
    if total == 0 then 0
    else
      var d, n := 2 * total, 200 * completed + total;
      DivBounds(n, d);
      MulCancel(d, n / d, 101);
      n / d
  }

  lemma DivBounds(n: nat, d: nat)
    requires d > 0
    ensures d * (n / d) <= n < d * (n / d + 1)
  {
  }

  lemma MulCancel(d: nat, x: nat, y: nat)
    requires d > 0 && d * x < d * y
    ensures x < y
  {
  }

  function ComputeStats(s: seq<Task>): (r: Stats)
    ensures r.total == |s| && r.completed <= r.total
    ensures r.pending == r.total - r.completed
    ensures r.percent <= 100
    ensures r.total == 0 ==> r.percent == 0
    ensures r.total > 0 ==>
              2 * r.total * r.percent <= 200 * r.completed + r.total < 2 * r.total * (r.percent + 1)
  {
    var total := |s|;
    var completed := CountCompleted(s);
    Stats(total, completed, total - completed, Percent(completed, total))
  }

  /** The counts shown agree with the filtered views. */
  lemma {:induction false} StatsMatchViews(s: seq<Task>)
    ensures ComputeStats(s).completed == |FilterTasks(s, "completed")|
    ensures ComputeStats(s).pending == |FilterTasks(s, "pending")|
  {
    FilterModes(s, "completed");
    FilterModes(s, "pending");
  }

  /** Three tasks with one completed give 33 percent; no tasks give zeros. */
  lemma {:induction false} StatsExamples()
    ensures ComputeStats([]) == Stats(0, 0, 0, 0)
    ensures Percent(1, 3) == 33
    ensures Percent(1, 8) == 13
    ensures ComputeStats([Task(1, "a", "low", "2024-03-01", true),
                          Task(2, "b", "high", "2024-01-15", false),
                          Task(3, "c", "medium", "2024-02-10", false)]) == Stats(3, 1, 2, 33)
  {
  }

  // ----- Sorting (script.js:78-86) -----

  /** The deadline comparison: the sign of the difference of the dates,
      which for `YYYY-MM-DD` text is their lexicographic order. */
  function DeadlineCompare(a: string, b: string): (c: int)
    ensures c == 0 <==> a == b
    ensures c < 0 <==> LexLess(a, b)
    ensures c > 0 <==> LexLess(b, a)
  {
    LexTrichotomy(a, b);
    if LexLess(a, b) then -1 else if a == b then 0 else 1
  }

  /** The comparator passed to `sort`: negative when `a` goes first. */
  function Compare(sortBy: string, a: Task, b: Task): (c: int)
    ensures sortBy == "deadline" ==>
              (c == 0 <==> a.deadline == b.deadline) && (c < 0 <==> LexLess(a.deadline, b.deadline))
    ensures sortBy == "priority" ==>
              (c == 0 <==> Rank(a.priority) == Rank(b.priority)) &&
              (c < 0 <==> Rank(a.priority) > Rank(b.priority))
    ensures sortBy != "deadline" && sortBy != "priority" ==> c == 0
  {
    if sortBy == "deadline" then DeadlineCompare(a.deadline, b.deadline)
    else if sortBy == "priority" then Rank(b.priority) - Rank(a.priority)
    else 0
  }

  /** The comparator is consistent: swapping the arguments negates it. */
  lemma {:induction false} CompareAntisymmetric(sortBy: string, a: Task, b: Task)
    ensures Compare(sortBy, a, b) == -Compare(sortBy, b, a)
  {
    LexTrichotomy(a.deadline, b.deadline);
  }

  /** "Goes no later than" is transitive. */
  lemma {:induction false} CompareTransitive(sortBy: string, a: Task, b: Task, c: Task)
    requires Compare(sortBy, a, b) <= 0 && Compare(sortBy, b, c) <= 0
    ensures Compare(sortBy, a, c) <= 0
  {
    if sortBy == "deadline" {
      LexTrichotomy(a.deadline, c.deadline);
      if LexLess(a.deadline, b.deadline) && LexLess(b.deadline, c.deadline) {
        LexTransitive(a.deadline, b.deadline, c.deadline);
      }
    }
  }

  /** The comparator function handed to `sort`. */
  function Comparator(sortBy: string): (Task, Task) -> int {
    (a: Task, b: Task) => Compare(sortBy, a, b)
  }

  /** The dashboard's comparator orders consistently for every sort key, so
      the stable sort's guarantees apply to it. */
  lemma {:induction false} ComparatorConsistent(sortBy: string)
    ensures Consistent(Comparator(sortBy))
  {
    var cmp := Comparator(sortBy);
    forall a, b ensures cmp(a, b) == -cmp(b, a) {
      CompareAntisymmetric(sortBy, a, b);
    }
    forall a, b, c | cmp(a, b) <= 0 && cmp(b, c) <= 0 ensures cmp(a, c) <= 0 {
      CompareTransitive(sortBy, a, b, c);
    }
  }

  /** The sorted view: a permutation of the filtered tasks; by deadline the
      deadlines never decrease, by priority the ranks never increase, and any
      other key keeps the input order. */
  lemma {:induction false} SortKeys(sortBy: string, s: seq<Task>)
    ensures multiset(Sort(Comparator(sortBy), s)) == multiset(s)
    ensures sortBy == "deadline" ==>
              forall i, j :: 0 <= i < j < |s| ==>
                !LexLess(Sort(Comparator(sortBy), s)[j].deadline, Sort(Comparator(sortBy), s)[i].deadline)
    ensures sortBy == "priority" ==>
              forall i, j :: 0 <= i < j < |s| ==>
                Rank(Sort(Comparator(sortBy), s)[i].priority) >= Rank(Sort(Comparator(sortBy), s)[j].priority)
    ensures sortBy != "deadline" && sortBy != "priority" ==> Sort(Comparator(sortBy), s) == s
  {
    var cmp := Comparator(sortBy);
    ComparatorConsistent(sortBy);
    SortPermutes(cmp, s);
    SortSorted(cmp, s);
    var r := Sort(cmp, s);
    if sortBy == "deadline" {
      forall i, j | 0 <= i < j < |s| ensures !LexLess(r[j].deadline, r[i].deadline) {
        assert cmp(r[i], r[j]) <= 0;
        LexTrichotomy(r[i].deadline, r[j].deadline);
      }
    } else if sortBy == "priority" {
      forall i, j | 0 <= i < j < |s| ensures Rank(r[i].priority) >= Rank(r[j].priority) {
        assert cmp(r[i], r[j]) <= 0;
      }
    } else {
      SortAllEqual(cmp, s);
    }
  }

  /** Ties keep their order: for every task `t`, the tasks that compare equal
      to `t` appear in the sorted view in their filtered order. */
  lemma {:induction false} SortKeepsTies(sortBy: string, s: seq<Task>, t: Task)
    ensures Keep(Sort(Comparator(sortBy), s), TiesWith(Comparator(sortBy), t)) ==
            Keep(s, TiesWith(Comparator(sortBy), t))
  {
    ComparatorConsistent(sortBy);
    SortStable(Comparator(sortBy), s, t);
  }

  /** Sorting three tasks whose priority and deadline orders agree. */
  lemma {:induction false} SortThree(sortBy: string, t1: Task, t2: Task, t3: Task)
    requires Compare(sortBy, t1, t2) > 0 && Compare(sortBy, t1, t3) > 0 && Compare(sortBy, t2, t3) <= 0
    ensures Sort(Comparator(sortBy), [t1, t2, t3]) == [t2, t3, t1]
  {
    var cmp := Comparator(sortBy);
    var s := [t1, t2, t3];
    assert s[..2] == [t1, t2] && [t1, t2][..1] == [t1] && [t1][..0] == [];
    assert Sort(cmp, [t1]) == [t1];
    assert Insert(cmp, [t1], t2) == Insert(cmp, [], t2) + [t1];
    assert Sort(cmp, [t1, t2]) == [t2, t1];
    assert [t2, t1][..1] == [t2];
    assert Insert(cmp, [t2, t1], t3) == Insert(cmp, [t2], t3) + [t1];
  }

  /** Priorities low, high, medium sort to high, medium, low. */
  lemma {:induction false} SortByPriorityExample(t1: Task, t2: Task, t3: Task)
    requires t1.priority == "low" && t2.priority == "high" && t3.priority == "medium"
    ensures Sort(Comparator("priority"), [t1, t2, t3]) == [t2, t3, t1]
  {
    SortThree("priority", t1, t2, t3);
  }

  /** Deadlines 2024-03-01, 2024-01-15, 2024-02-10 sort to ascending order. */
  lemma {:induction false} SortByDeadlineExample(t1: Task, t2: Task, t3: Task)
    requires t1.deadline == "2024-03-01" && t2.deadline == "2024-01-15" && t3.deadline == "2024-02-10"
    ensures Sort(Comparator("deadline"), [t1, t2, t3]) == [t2, t3, t1]
  {
    LexLessAt(t2.deadline, t1.deadline, 6);
    LexLessAt(t3.deadline, t1.deadline, 6);
    LexLessAt(t2.deadline, t3.deadline, 6);
    SortThree("deadline", t1, t2, t3);
  }

  /** The list `renderTasks` displays. */
  function View(s: seq<Task>, mode: string, sortBy: string): (r: seq<Task>)
    ensures multiset(r) == multiset(FilterTasks(s, mode))
    ensures Sorted(Comparator(sortBy), r)
  {
    var shown := FilterTasks(s, mode);
    SortPermutes(Comparator(sortBy), shown);
    ComparatorConsistent(sortBy);
    SortSorted(Comparator(sortBy), shown);
    Sort(Comparator(sortBy), shown)
  }
}
