# To-do list store

A model of the task store behind the browser to-do list in `slow.js`. The
`TodoApp` object holds an ordered list of tasks and a filter string. Each task
is an id, a description and a completion flag. Five operations change the
store:

- `addTask` appends a new pending task.
- `deleteTask` drops every task with a given id.
- `toggleTask` flips the completion flag of every task with a given id.
- `editTask` replaces the description of every task with a given id.
- `setFilter` stores a filter string.

`getFilteredTasks` returns the tasks the filter shows. Under `"completed"` these
are the completed tasks, under `"pending"` the others, and under any other
string all of them.

The project has three files:

- `sequences.dfy` (module `Sequences`): an order-preserving `Filter`, which is
  how JavaScript's `Array.prototype.filter` behaves. `FilterSpec` proves it against an
  independent definition of "subsequence" and against element counts
  (multisets).
- `tasks.dfy` (module `Tasks`): the `Task` record and pure functions over task
  lists. These are what deleting, toggling, editing and filtering compute.
  The lemmas prove no-op, involution, partition and uniqueness facts about
  them.
- `todo_app.dfy` (module `App`): the `TodoApp` class. Its fields `tasks` and
  `filter` are updated in place. Every method's `ensures` ties the new state
  to those functions of the old state. `UpdateMatching` is the in-place walk
  that toggling and editing share. It is a loop whose invariants say which
  part of the list is already done.

The store's inputs that come from outside are parameters. The new task's id
(a clock reading in the source) is a parameter of `AddTask`. The list decoded
from browser storage is a parameter of the constructor: `None` when storage
holds nothing.

What the store does and does not check:

- Any filter string is accepted, and one other than "completed" or
  "pending" shows every task (slow.js:55-56, 61-66).
- Ids are not guaranteed unique. Every task whose id matches is deleted,
  toggled or edited, not just the first (slow.js:28, 35, 44). Uniqueness is
  proved only as a property that is kept when it holds before: by every
  operation, and by `AddTask` when the new id is not yet used.
- Empty descriptions are accepted by `addTask` and `editTask` (slow.js:19-22,
  42-46).

## Model

| member | source | states |
|---|---|---|
| `Sequences.FilterSpec` | slow.js:28 | the result of `Filter` is a subsequence of the input and holds each element that passes the test exactly as often as the input does, and no element that fails it |
| `Sequences.FilterUnique` | slow.js:28 | any subsequence with those element counts is the filter's result, so the two facts above determine it |
| `Sequences.FilterPartition` | slow.js:61-64 | filtering by a test and by its negation splits the list: the element counts add up to the list's, and so do the lengths |
| `Tasks.Without` | slow.js:28 | deleting keeps, in their original order, exactly the tasks whose id differs (each as often as before) and leaves no task with that id |
| `Tasks.DeleteAbsentIsNoop` | slow.js:27-28 | deleting an id that no task has leaves the list unchanged |
| `Tasks.DeleteIsExact` | slow.js:28 | the survivors of a delete are exactly the non-matching tasks in order: any subsequence with the same contents is that list |
| `Tasks.DeleteUniqueRemovesOne` | slow.js:27-28 | when ids are unique, deleting the id of the task at position i removes exactly that task and keeps the rest in order |
| `Tasks.DeleteKeepsUnique` | slow.js:27-28 | deleting keeps ids unique if they were unique |
| `Tasks.Modify` | slow.js:34-45 | the in-place per-task update keeps the length and position of every task; each task with a matching id is replaced by the change applied to it, and every other task is unchanged |
| `Tasks.Toggled` | slow.js:33-37 | toggling keeps the length, order, ids and descriptions and flips `completed` on exactly the tasks with the given id; for an absent id the list is unchanged |
| `Tasks.Edited` | slow.js:42-46 | editing keeps the length, order, ids and `completed` flags and sets the description on exactly the tasks with the given id; for an absent id the list is unchanged |
| `Tasks.ToggleTwiceRestores` | slow.js:33-37 | toggling the same id twice restores the original list |
| `Tasks.LaterEditWins` | slow.js:42-46 | editing an id twice gives the same list as the second edit alone, so repeating an edit changes nothing |
| `Tasks.Select` | slow.js:60-67 | the shown tasks are a subsequence of the list: under "completed" exactly the completed tasks, under "pending" exactly the others, under any other filter the whole list |
| `Tasks.SelectIsExact` | slow.js:60-67 | any subsequence holding exactly the shown tasks equals the selection, so the selection is determined by its contents and the list's order |
| `Tasks.CompletedPendingPartition` | slow.js:61-64 | the "completed" and "pending" views together hold every task exactly once: their sizes add up to the list's size and each listed task is in exactly one of them |
| `Tasks.AddFreshKeepsUnique` | slow.js:19-22 | appending a task whose id is not yet used keeps ids unique |
| `App.TodoApp.constructor` | slow.js:13-15 | the store starts with the stored list, or the empty list when storage holds nothing, and with the filter "all" |
| `App.TodoApp.AddTask` | slow.js:19-22 | appends exactly one task with the given id and description and `completed` false, and changes no earlier task or the filter; a fresh id keeps ids unique |
| `App.TodoApp.DeleteTask` | slow.js:27-28 | the new list is `Without` of the old one: no task with the id remains; an absent id is a no-op; unique ids stay unique; the filter is unchanged |
| `App.TodoApp.ToggleTask` | slow.js:33-37 | the new list is `Toggled` of the old one; unique ids stay unique; the filter is unchanged |
| `App.TodoApp.EditTask` | slow.js:42-46 | the new list is `Edited` of the old one; unique ids stay unique; the filter is unchanged |
| `App.TodoApp.UpdateMatching` | slow.js:34-45 | the in-place walk over the list leaves it equal to `Modify` of the old list; the filter is unchanged |
| `App.TodoApp.SetFilter` | slow.js:55-56 | stores the given filter string without checking it and leaves the tasks unchanged |
| `App.TodoApp.GetFilteredTasks` | slow.js:60-67 | returns a subsequence of the current tasks holding exactly those the current filter shows, each as often as in the list; it equals `Select` of the tasks and filter, so under any other filter it is the whole list |
| `App.ToggleScenario` | slow.js:19-67 | starting empty, adding A and B and then toggling A gives a completed view of `[A]` (now completed) and a pending view of `[B]` |

## Left out

- Persistence: `saveTasks` (slow.js:51-53) and the load in the constructor (slow.js:14) go through `localStorage` and `JSON.stringify`/`JSON.parse`. The constructor takes the decoded list as a parameter instead. A storage write that throws is not modelled, and neither is stored text that is not valid JSON (which makes `JSON.parse` throw). A stored value that decodes to something other than a task list is not modelled either.
- Rendering and event wiring: `render`, `attachEventListeners`, the form-submit handler and the page markup (slow.js:69-152) only build the page and bind handlers. The trim and non-empty checks on user input (slow.js:110, 128-129), the `prompt` call and the `parseInt` of element ids belong to that view layer too.
- Id generation: `Date.now()` (slow.js:20) reads the clock, so the id is an argument of `AddTask`.
- Object identity: the source's tasks are shared objects. `getFilteredTasks` returns the store's own array under an unrecognised filter. `toggleTask`/`editTask` mutate task objects that the previous array also held. The model uses value semantics: a task is a record and lists are sequences, so this aliasing is not captured.
- App.TodoApp.GetFilteredTasks: its result is a new sequence value, not the store's own array, because of the value semantics above.
- Number semantics: ids are unbounded integers. JavaScript's floating-point numbers (and a `NaN` id from a failed `parseInt`, which matches no task) are not modelled.
