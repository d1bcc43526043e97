/** The task record and the pure effect of each store operation on the
    ordered list of tasks (script.js). The `TaskStore` class applies these
    to its list; here they are stated and proved as functions of a list. */
module Tasks {
  import opened Wrappers
  import opened Seqs
  import opened Text

  /** One task as the dashboard stores it. The deadline is the date input's
      `YYYY-MM-DD` text; the priority is free text because an edit may set
      any lowercased word. */
  datatype Task = Task(id: int, title: string, priority: string, deadline: string, completed: bool)

  /** The priorities the form offers and the sort ranks. */
  predicate ValidPriority(p: string) {
    p == "low" || p == "medium" || p == "high"
  }

  /** The sort rank of a priority: low 1, medium 2, high 3. A priority
      outside the table has rank 0. */
  function Rank(p: string): (r: nat)
    ensures r <= 3
    ensures r > 0 <==> ValidPriority(p)
    ensures p == "low" ==> r == 1
    ensures p == "medium" ==> r == 2
    ensures p == "high" ==> r == 3
  {
    if p == "low" then 1 else if p == "medium" then 2 else if p == "high" then 3 else 0
  }

  predicate HasId(s: seq<Task>, id: int) {
    exists i :: 0 <= i < |s| && s[i].id == id
  }

  /** No two tasks share an id, as ids drawn from the clock are meant to be. */
  predicate UniqueIds(s: seq<Task>) {
    forall i, j :: 0 <= i < j < |s| ==> s[i].id != s[j].id
  }

  /** `tasks.find(t => t.id === id)`: the position of the first task with
      the id, or nothing when no task has it. */
  function FirstWithId(s: seq<Task>, id: int): (r: Option<nat>)
    ensures r.None? <==> !HasId(s, id)
    ensures r.Some? ==> r.value < |s| && s[r.value].id == id
    ensures r.Some? ==> forall i :: 0 <= i < r.value ==> s[i].id != id
    decreases |s|
  {
    if s == [] then None
    else if s[0].id == id then Some(0)
    else match FirstWithId(s[1..], id)
      case None => None
      case Some(k) => Some(k + 1)
  }

  /** Two lists with the same ids at the same positions find the same task. */
  lemma {:induction false} SameIdsSameFirst(s: seq<Task>, t: seq<Task>, id: int)
    requires |s| == |t|
    requires forall i :: 0 <= i < |s| ==> s[i].id == t[i].id
    ensures FirstWithId(s, id) == FirstWithId(t, id)
  {
    if FirstWithId(s, id).Some? {
      assert t[FirstWithId(s, id).value].id == id;
    }
  }

  /** `toggleComplete`: flip `completed` on the first task with the id. */
  function Toggled(s: seq<Task>, id: int): (r: seq<Task>)
    ensures |r| == |s|
    ensures forall i :: 0 <= i < |s| ==> r[i].(completed := s[i].completed) == s[i]
    ensures forall i :: 0 <= i < |s| ==>
              (r[i].completed != s[i].completed <==> FirstWithId(s, id) == Some(i))
  {
    match FirstWithId(s, id)
    case None => s
    case Some(k) => s[k := s[k].(completed := !s[k].completed)]
  }

  /** Toggling the same id twice restores the list. */
  lemma {:induction false} ToggleTwice(s: seq<Task>, id: int)
    ensures Toggled(Toggled(s, id), id) == s
  {
    var t := Toggled(s, id);
    SameIdsSameFirst(s, t, id);
    var u := Toggled(t, id);
    assert forall i :: 0 <= i < |s| ==> u[i] == s[i] by {
      forall i | 0 <= i < |s| ensures u[i] == s[i] {
        assert u[i].(completed := s[i].completed) == s[i];
      }
    }
  }

  /** Toggling an id no task has changes nothing. */
  lemma {:induction false} ToggleAbsent(s: seq<Task>, id: int)
    requires !HasId(s, id)
    ensures Toggled(s, id) == s
  {
    assert forall i :: 0 <= i < |s| ==> Toggled(s, id)[i] == s[i] by {
      forall i | 0 <= i < |s| ensures Toggled(s, id)[i] == s[i] {
        assert Toggled(s, id)[i].(completed := s[i].completed) == s[i];
      }
    }
  }

  /** Whether the three answers to the edit prompts are accepted: each
      prompt must return text (not be cancelled) and that text must be
      non-empty. The title is tested before it is trimmed. */
  predicate EditAccepted(newTitle: Option<string>, newPriority: Option<string>, newDeadline: Option<string>) {
    newTitle.Some? && newTitle.value != [] &&
    newPriority.Some? && newPriority.value != [] &&
    newDeadline.Some? && newDeadline.value != []
  }

  /** `editTask`: overwrite title, priority and deadline of the first task
      with the id, when the answers are accepted. */
  function Edited(s: seq<Task>, id: int,
                  newTitle: Option<string>, newPriority: Option<string>, newDeadline: Option<string>): (r: seq<Task>)
    ensures |r| == |s|
    ensures forall i :: 0 <= i < |s| && FirstWithId(s, id) != Some(i) ==> r[i] == s[i]
    ensures !EditAccepted(newTitle, newPriority, newDeadline) ==> r == s
    ensures EditAccepted(newTitle, newPriority, newDeadline) && FirstWithId(s, id).Some? ==>
              var k := FirstWithId(s, id).value;
              r[k].id == s[k].id && r[k].completed == s[k].completed &&
              r[k].title == Trim(newTitle.value) &&
              r[k].priority == ToLower(newPriority.value) &&
              r[k].deadline == newDeadline.value
  {
    match FirstWithId(s, id)
    case None => s
    case Some(k) =>
      if EditAccepted(newTitle, newPriority, newDeadline) then
        s[k := s[k].(title := Trim(newTitle.value),
                     priority := ToLower(newPriority.value),
                     deadline := newDeadline.value)]
      else s
  }

  /** The edit tests the title before trimming it, so a title of spaces is
      accepted and leaves the task with an empty title. */
  lemma {:induction false} EditCanBlankTitle()
    ensures Edited([Task(1, "Read", "low", "2024-01-15", false)], 1, Some("  "), Some("High"), Some("2024-02-10"))
            == [Task(1, "", "high", "2024-02-10", false)]
  {
    var s := [Task(1, "Read", "low", "2024-01-15", false)];
    assert FirstWithId(s, 1) == Some(0);
    assert AllWhitespace("  ");
    assert ToLower("High") == "high";
  }

  /** An edit keeps every task's id and completion, so it keeps ids unique. */
  lemma {:induction false} EditKeepsIds(s: seq<Task>, id: int,
                     newTitle: Option<string>, newPriority: Option<string>, newDeadline: Option<string>)
    ensures var r := Edited(s, id, newTitle, newPriority, newDeadline);
            forall i :: 0 <= i < |s| ==> r[i].id == s[i].id && r[i].completed == s[i].completed
  {
  }

  /** The callback of the deletion filter. */
  function OtherThan(id: int): Task -> bool {
    (t: Task) => t.id != id
  }

  function WithId(id: int): Task -> bool {
    (t: Task) => t.id == id
  }

  /** How many tasks carry the id. */
  function CountId(s: seq<Task>, id: int): nat {
    |Keep(s, WithId(id))|
  }

  /** `tasks.filter(t => t.id !== id)` in `deleteTask`: the tasks without
      the id, all of them, one fewer for each task that carried it. */
  function Without(s: seq<Task>, id: int): (r: seq<Task>)
    ensures forall i :: 0 <= i < |r| ==> r[i].id != id && r[i] in s
    ensures forall i :: 0 <= i < |s| && s[i].id != id ==> s[i] in r
    ensures |r| == |s| - CountId(s, id)
  {
    KeepComplement(s, OtherThan(id), WithId(id));
    Keep(s, OtherThan(id))
  }

  /** Deletion keeps the surviving tasks in their original order. */
  lemma {:induction false} WithoutKeepsOrder(s: seq<Task>, id: int)
    ensures IsSubsequence(Without(s, id), s)
  {
    KeepIsSubsequence(s, OtherThan(id));
  }

  /** With unique ids an id occurs at most once. */
  lemma {:induction false} UniqueCountId(s: seq<Task>, id: int)
    requires UniqueIds(s)
    ensures CountId(s, id) == if HasId(s, id) then 1 else 0
    decreases |s|
  {
    if s != [] {
      var t := s[1..];
      assert UniqueIds(t);
      UniqueCountId(t, id);
      assert HasId(s, id) <==> s[0].id == id || HasId(t, id) by {
        if HasId(t, id) {
          var i :| 0 <= i < |t| && t[i].id == id;
          assert s[i + 1].id == id;
        }
        if HasId(s, id) && s[0].id != id {
          var i :| 0 <= i < |s| && s[i].id == id;
          assert t[i - 1].id == id;
        }
      }
    }
  }

  /** Deleting a present id from a list with unique ids removes exactly one
      task, and the id is gone. */
  lemma {:induction false} DeleteRemovesOne(s: seq<Task>, id: int)
    requires UniqueIds(s) && HasId(s, id)
    ensures |Without(s, id)| == |s| - 1
    ensures !HasId(Without(s, id), id)
  {
    UniqueCountId(s, id);
  }

  /** A subsequence of a list with unique ids has unique ids. */
  lemma {:induction false} SubsequenceKeepsUnique(a: seq<Task>, b: seq<Task>)
    requires IsSubsequence(a, b) && UniqueIds(b)
    ensures UniqueIds(a)
    decreases |b|
  {
    if a != [] {
      assert UniqueIds(b[1..]);
      if a[0] == b[0] && IsSubsequence(a[1..], b[1..]) {
        SubsequenceKeepsUnique(a[1..], b[1..]);
        SubsequenceMembers(a[1..], b[1..]);
        forall j | 0 < j < |a| ensures a[0].id != a[j].id {
          var k :| 0 <= k < |b| - 1 && b[1..][k] == a[1..][j - 1];
          assert b[k + 1] == a[j];
        }
      } else {
        SubsequenceKeepsUnique(a, b[1..]);
      }
    }
  }

  lemma {:induction false} SubsequenceMembers(a: seq<Task>, b: seq<Task>)
    requires IsSubsequence(a, b)
    ensures forall i :: 0 <= i < |a| ==> exists k :: 0 <= k < |b| && b[k] == a[i]
    decreases |b|
  {
    if a != [] {
      if a[0] == b[0] && IsSubsequence(a[1..], b[1..]) {
        SubsequenceMembers(a[1..], b[1..]);
        forall i | 0 < i < |a| ensures exists k :: 0 <= k < |b| && b[k] == a[i] {
          var k :| 0 <= k < |b| - 1 && b[1..][k] == a[1..][i - 1];
          assert b[k + 1] == a[i];
        }
        assert b[0] == a[0];
      } else {
        SubsequenceMembers(a, b[1..]);
        forall i | 0 <= i < |a| ensures exists k :: 0 <= k < |b| && b[k] == a[i] {
          var k :| 0 <= k < |b| - 1 && b[1..][k] == a[i];
          assert b[k + 1] == a[i];
        }
      }
    }
  }

  /** Deletion keeps ids unique. */
  lemma {:induction false} DeleteKeepsUnique(s: seq<Task>, id: int)
    requires UniqueIds(s)
    ensures UniqueIds(Without(s, id))
  {
    WithoutKeepsOrder(s, id);
    SubsequenceKeepsUnique(Without(s, id), s);
  }

  /** Appending a task whose id is new keeps ids unique. */
  lemma {:induction false} AppendFreshKeepsUnique(s: seq<Task>, t: Task)
    requires UniqueIds(s) && !HasId(s, t.id)
    ensures UniqueIds(s + [t])
  {
    assert forall i :: 0 <= i < |s| ==> (s + [t])[i] == s[i];
  }
}
