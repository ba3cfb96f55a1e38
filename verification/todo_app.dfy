/**
 The to-do store: an ordered list of tasks and the current filter, changed in
 place by its operations. Persisting to browser storage and re-rendering after
 each operation are not part of this model.
 */
module App {
  import opened Sequences
  import opened Tasks

  datatype Option<T> = None | Some(value: T)

  class TodoApp {
    var tasks: seq<Task>
    var filter: string

    /**
     Starts from the task list decoded from storage, or from the empty list when
     storage holds nothing; the filter starts at "all".
     */
    constructor (stored: Option<seq<Task>>)
      ensures tasks == (if stored.Some? then stored.value else [])
      ensures filter == AllFilter
    {
      tasks := if stored.Some? then stored.value else [];
      filter := AllFilter;
    }

    /** Appends a new, not yet completed task; the id is supplied by the caller. */
    method AddTask(id: int, description: string)
      modifies this
      ensures tasks == old(tasks) + [Task(id, description, false)]
      ensures filter == old(filter)
      ensures UniqueIds(old(tasks)) && !HasId(old(tasks), id) ==> UniqueIds(tasks)
    {
      if UniqueIds(tasks) && !HasId(tasks, id) {
        AddFreshKeepsUnique(tasks, Task(id, description, false));
      }
      tasks := tasks + [Task(id, description, false)];
    }

    /** Removes every task whose id is `id`; the others keep their order. */
    method DeleteTask(id: int)
      modifies this
      ensures tasks == Without(old(tasks), id)
      ensures !HasId(tasks, id)
      ensures !HasId(old(tasks), id) ==> tasks == old(tasks)
      ensures UniqueIds(old(tasks)) ==> UniqueIds(tasks)
      ensures filter == old(filter)
    {
      if !HasId(tasks, id) {
        DeleteAbsentIsNoop(tasks, id);
      }
      if UniqueIds(tasks) {
        DeleteKeepsUnique(tasks, id);
      }
      tasks := Without(tasks, id);
    }

    /** Flips the completion flag of every task whose id is `id`, in place. */
    method ToggleTask(id: int)
      modifies this
      ensures tasks == Toggled(old(tasks), id)
      ensures UniqueIds(old(tasks)) ==> UniqueIds(tasks)
      ensures filter == old(filter)
    {
      UpdateMatching(id, Flip);
    }

    /** Sets the description of every task whose id is `id`, in place. */
    method EditTask(id: int, newDescription: string)
      modifies this
      ensures tasks == Edited(old(tasks), id, newDescription)
      ensures UniqueIds(old(tasks)) ==> UniqueIds(tasks)
      ensures filter == old(filter)
    {
      UpdateMatching(id, Describe(newDescription));
    }

    /** Walks the list once, replacing each task whose id matches by `change` of it. */
    method UpdateMatching(id: int, change: Task -> Task)
      modifies this
      ensures tasks == Modify(old(tasks), id, change)
      ensures filter == old(filter)
    {
      var i := 0;
      while i < |tasks|
        invariant i <= |tasks| == |old(tasks)|
        invariant forall k :: 0 <= k < i ==>
          tasks[k] == (if old(tasks)[k].id == id then change(old(tasks)[k]) else old(tasks)[k])
        invariant forall k :: i <= k < |tasks| ==> tasks[k] == old(tasks)[k]
        invariant filter == old(filter)
      {
        if tasks[i].id == id {
          tasks := tasks[i := change(tasks[i])];
        }
        i := i + 1;
      }
    }

    /** Stores the filter as given; no value is rejected. */
    method SetFilter(f: string)
      modifies this
      ensures filter == f
      ensures tasks == old(tasks)
    {
      filter := f;
    }

    /**
     The tasks the current filter shows, in list order: under "completed" the
     completed ones, under "pending" the others, under any other value all of them.
     */
    function GetFilteredTasks(): (r: seq<Task>)
      reads this
      ensures IsSubsequence(r, tasks)
      ensures forall t :: multiset(r)[t] == (if Shows(filter, t) then multiset(tasks)[t] else 0)
      ensures r == Select(tasks, filter)
    {
      Select(tasks, filter)
    }
  }

  /**
   A client of the store: add two tasks, toggle the first, and read both views.
   The completed view holds just the first task and the pending view just the second.
   */
  method ToggleScenario(a: int, b: int) returns (completed: seq<Task>, pending: seq<Task>)
    requires a != b
    ensures completed == [Task(a, "Buy milk", true)]
    ensures pending == [Task(b, "Walk dog", false)]
  {
    var done, open := Task(a, "Buy milk", true), Task(b, "Walk dog", false);
    var app := new TodoApp(None);
    app.AddTask(a, "Buy milk");
    app.AddTask(b, "Walk dog");
    ghost var added := app.tasks;
    app.ToggleTask(a);
    assert app.tasks == [done, open] by {
      assert added == [open.(id := a, description := "Buy milk"), open];
      assert app.tasks[0] == done && app.tasks[1] == open;
    }
    app.SetFilter(CompletedFilter);
    completed := app.GetFilteredTasks();
    assert IsSubsequence([done], app.tasks) by {
      assert [done][1..] == [];
    }
    SelectIsExact(app.tasks, CompletedFilter, [done]);
    app.SetFilter(PendingFilter);
    pending := app.GetFilteredTasks();
    assert IsSubsequence([open], app.tasks) by {
      assert [open][1..] == [] && app.tasks[1..] == [open];
    }
    SelectIsExact(app.tasks, PendingFilter, [open]);
  }
}
