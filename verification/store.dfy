/** The dashboard's task list and the handlers that change it (script.js).
    The global `tasks` array becomes the `tasks` field of a `TaskStore`;
    `localStorage` becomes the ghost field `saved`, the snapshot that
    `saveTasks` last wrote. */
module Store {
  import opened Wrappers
  import opened Text
  import opened Tasks
  import opened Sorting
  import opened Views

  class TaskStore {
    /** The tasks in insertion order. */
    var tasks: seq<Task>
    /** The list as last written to storage under the key "tasks". */
    ghost var saved: seq<Task>

    /** Every change is written to storage before the handler returns. */
    ghost predicate Valid()
      reads this
    {
      saved == tasks
    }

    /** Startup: the stored list, or an empty list when nothing is stored
        (`JSON.parse(null) || []`). Loading what was saved gives it back. */
    constructor (stored: Option<seq<Task>>)
      ensures Valid()
      ensures stored.Some? ==> tasks == stored.value
      ensures stored.None? ==> tasks == []
    {
      tasks := if stored.Some? then stored.value else [];
      saved := tasks;
    }

    /** The submit handler: trims the title and appends a new, uncompleted
        task when title, priority and deadline are all non-empty; the id is
        supplied by the caller in place of the clock. */
    method Add(id: int, rawTitle: string, priority: string, deadline: string) returns (added: bool)
      requires Valid()
      modifies this
      ensures Valid()
      ensures added <==> !AllWhitespace(rawTitle) && priority != [] && deadline != []
      ensures added ==> tasks == old(tasks) + [Task(id, Trim(rawTitle), priority, deadline, false)]
      ensures !added ==> tasks == old(tasks)
      ensures UniqueIds(old(tasks)) && !HasId(old(tasks), id) ==> UniqueIds(tasks)
    {
      var title := Trim(rawTitle);
      added := title != [] && priority != [] && deadline != [];
      if added {
        if UniqueIds(tasks) && !HasId(tasks, id) {
          AppendFreshKeepsUnique(tasks, Task(id, title, priority, deadline, false));
        }
        tasks := tasks + [Task(id, title, priority, deadline, false)];
        saved := tasks;
      }
    }

    /** `tasks.find(t => t.id === id)`: a linear scan for the first task
        with the id. */
    method Find(id: int) returns (k: Option<nat>)
      ensures k == FirstWithId(tasks, id)
    {
      var i := 0;
      while i < |tasks|
        invariant 0 <= i <= |tasks|
        invariant forall j :: 0 <= j < i ==> tasks[j].id != id
      {
        if tasks[i].id == id {
          return Some(i);
        }
        i := i + 1;
      }
      return None;
    }

    /** `toggleComplete`: flips `completed` on the first task with the id;
        an id no task has changes nothing. */
    method ToggleComplete(id: int) returns (found: bool)
      requires Valid()
      modifies this
      ensures Valid()
      ensures found <==> HasId(old(tasks), id)
      ensures tasks == Toggled(old(tasks), id)
      ensures UniqueIds(old(tasks)) ==> UniqueIds(tasks)
    {
      var k := Find(id);
      found := k.Some?;
      if k.Some? {
        var t := tasks[k.value];
        tasks := tasks[k.value := t.(completed := !t.completed)];
        saved := tasks;
      }
    }

    /** `editTask` with the three prompt answers already collected (`None`
        for a cancelled prompt): when the id is found and every answer is
        non-empty, sets the trimmed title, the lowercased priority and the
        deadline, keeping the task's id and completion. */
    method EditTask(id: int, newTitle: Option<string>, newPriority: Option<string>, newDeadline: Option<string>)
      returns (edited: bool)
      requires Valid()
      modifies this
      ensures Valid()
      ensures edited <==> HasId(old(tasks), id) && EditAccepted(newTitle, newPriority, newDeadline)
      ensures tasks == Edited(old(tasks), id, newTitle, newPriority, newDeadline)
      ensures UniqueIds(old(tasks)) ==> UniqueIds(tasks)
    {
      var k := Find(id);
      edited := k.Some? && EditAccepted(newTitle, newPriority, newDeadline);
      if edited {
        var t := tasks[k.value];
        tasks := tasks[k.value := t.(title := Trim(newTitle.value),
                                     priority := ToLower(newPriority.value),
                                     deadline := newDeadline.value)];
        saved := tasks;
      }
    }

    /** `deleteTask`: once the user confirms, keeps only the tasks whose id
        differs, in their order. */
    method DeleteTask(id: int, confirmed: bool)
      requires Valid()
      modifies this
      ensures Valid()
      ensures confirmed ==> tasks == Without(old(tasks), id)
      ensures !confirmed ==> tasks == old(tasks)
      ensures UniqueIds(old(tasks)) ==> UniqueIds(tasks)
    {
      if confirmed {
        if UniqueIds(tasks) {
          DeleteKeepsUnique(tasks, id);
        }
        tasks := Without(tasks, id);
        saved := tasks;
      }
    }

    /** `renderTasks`: the filtered list, copied into a fresh array and
        sorted there in place. */
    method Render(mode: string, sortBy: string) returns (view: array<Task>)
      ensures fresh(view)
      ensures view[..] == View(tasks, mode, sortBy)
    {
      var shown := FilterTasks(tasks, mode);
      view := new Task[|shown|](i requires 0 <= i < |shown| => shown[i]);
      assert view[..] == shown;
      SortInPlace(view, Comparator(sortBy));
    }
  }
}
