# GoalPro goal tracker — Dafny model of the in-memory document

GoalPro keeps a list of goals in memory. Each goal is `{id, title, deadline, tasks}` and each task is
`{text, done}`. Four handlers change that list:

- `createGoal` appends a goal unless the title is empty or the prompt was cancelled.
- `addTask` appends an undone task to the first goal with a given id unless the text is blank.
- `toggleTask` flips the `done` flag of one task.
- `deleteGoal` filters out every goal with a given id.

A pure function, `calculateProgress`, turns a goal's checklist into a whole percentage.

The model has three modules:

- `JsText` (`js_text.dfy`) models JavaScript's `String.prototype.trim` and the blank test `!value.trim()`.
- `Goals` (`goals.dfy`) holds the records and `goals.find`. It also gives each handler's effect as a function on the list (`Created`, `TaskAdded`, `Toggled`, `RemoveId`), defines the progress computation, and proves the lemmas relating them.
- `Store` (`store.dfy`) is the stateful side. The class `GoalList` holds the `goals` array as a `seq<Goal>` field. Each handler is a method that updates the field. `createGoal`, `addTask` and `toggleTask` update it in place; `deleteGoal` rebinds it to a filtered copy. Each method's `ensures` ties the new list to the matching function of the old list. The client method `Session` walks through create → add → toggle → delete and checks the progress shown at each step.

Modelling choices:

- What `prompt()` returns is a parameter `title: Option<string>`. `None` is the cancel button, which returns `null`.
- What `Date.now()` returns is a parameter `now: int`.
- Ids are `int`. The source compares them with `==`, but they are always numbers.
- `addTask` and `toggleTask` throw when `find` yields `undefined` or when the task index is out of range. These cases are preconditions (`CanAddTask`, `CanToggle`) taken from the code.
- A blank task text is checked before the goal lookup. So `addTask` with a blank text and an unknown id is allowed, and it does nothing.
- `Math.round(done / n * 100)` is modelled on exact rationals with ties rounded up. `IsRoundedPercent(p, k, n)` states `p - 1/2 <= 100k/n < p + 1/2`, and `RoundedPercent` computes it as `(200k + n) / (2n)`.

Later iterations of GoalPro in the same repository look goals and tasks up by id, silently ignore missing ids, and return deleted goals so that a delete can be undone. This model follows `app.js`, which differs:

- tasks are addressed by position;
- a missing goal or task is an error;
- a deleted goal is discarded.

## Model

| member | source | states |
|---|---|---|
| `JsText.TrimStart` | app.js:22 | the result is the suffix of the input that starts at its first non-space character; everything dropped is white space |
| `JsText.TrimEnd` | app.js:22 | the result is the prefix of the input that ends at its last non-space character; everything dropped is white space |
| `JsText.Trim` | app.js:22 | `value.trim()` is no longer than the input, and neither end of a non-empty result is white space |
| `JsText.TrimIsMiddle` | app.js:22 | `value.trim()` is the contiguous middle of the value; everything dropped before and after it is white space |
| `JsText.BlankIffAllSpace` | app.js:22 | `!value.trim()` holds exactly when every character of the value is ECMAScript white space or a line terminator (the empty string included) |
| `Goals.FindGoal` | app.js:23 | `goals.find(g => g.id == goalId)` yields nothing exactly when no goal has the id; otherwise it yields the position of a goal with the id, and no earlier goal has it |
| `Goals.FindGoalSameIds` | app.js:23 | two lists with the same ids at every position find the same goal for every id |
| `Goals.Created` | app.js:9-16 | a cancelled or empty title leaves the list unchanged; otherwise exactly one goal `{now, title, "No deadline", []}` is appended and every earlier goal is unchanged |
| `Goals.CreatedIsFound` | app.js:11-16 | a goal created under an id no goal had is the one that id finds afterwards, and its progress is 0 |
| `Goals.CreatedUnderTakenId` | app.js:12 | a goal created under an id that is already taken is never found by that id: the lookup still yields the older goal |
| `Goals.TaskAdded` | app.js:21-24 | a blank value changes nothing; otherwise the first goal with the id gets `{value, false}` appended with the untrimmed value, its earlier tasks, title, id and deadline stay as they were, and every other goal is unchanged |
| `Goals.AddUndoneKeepsDoneCount` | app.js:24 | appending an undone task does not change a goal's count of done tasks |
| `Goals.RoundedPercentMoreTasks` | app.js:45 | with the same number of done tasks, one more task never gives a higher rounded percentage |
| `Goals.TaskAddedProgressDrops` | app.js:21-45 | adding a task to a goal never raises that goal's progress |
| `Goals.TaskAddedKeepsFind` | app.js:23-24 | after `addTask`, every id finds the same goal as before |
| `Goals.Toggled` | app.js:29-31 | task `index` of the first goal with the id has `done` negated and keeps its text; the other tasks of that goal, its title, id and deadline, and every other goal are unchanged |
| `Goals.ToggleTwice` | app.js:29-31 | toggling the same task twice is allowed and gives back the original list |
| `Goals.DoneCountUpdate` | app.js:31 | replacing one task changes the done count by the difference between the new and old `done` flags |
| `Goals.ToggleMovesDoneCount` | app.js:31 | a toggle raises the goal's done count by one if the task was undone, and lowers it by one if the task was done |
| `Goals.RemoveId` | app.js:37 | `goals.filter(g => g.id != id)` leaves no goal with the id and never lengthens the list |
| `Goals.RemoveIdKeepsOthers` | app.js:37 | every goal without the id is kept exactly as often as it occurred, and nothing else is in the result |
| `Goals.RemoveIdKeepsOrder` | app.js:37 | the goals kept by the filter are in their original relative order |
| `Goals.RemoveAbsentId` | app.js:37 | deleting an id that no goal has leaves the list unchanged |
| `Goals.RemoveIdTwice` | app.js:36-37 | deleting the same id a second time is a no-op |
| `Goals.DoneCount` | app.js:44 | `tasks.filter(t => t.done).length` is at most the number of tasks; it is 0 exactly when no task is done, and equals the task count exactly when all tasks are done |
| `Goals.RoundedPercent` | app.js:45 | the result is in 0..100 and is `100k/n` rounded to the nearest integer, with halves rounded up |
| `Goals.RoundedPercentUnique` | app.js:45 | at most one integer satisfies the rounding condition, so the rounding is well defined |
| `Goals.Progress` | app.js:42-45 | `calculateProgress` is 0 for a goal with no tasks, always lies in 0..100, and otherwise equals `round(100 * done / n)` with halves rounded up |
| `Goals.ProgressExtremes` | app.js:42-45 | progress is 0 when no task is done, and 100 when the goal has tasks and all of them are done |
| `Store.GoalList.constructor` | app.js:2 | the list starts out as the loaded document |
| `Store.GoalList.CreateGoal` | app.js:8-19 | the new list is `Created(old list, title, now)` |
| `Store.GoalList.AddTask` | app.js:21-27 | the method is callable when the value is blank or a goal has the id; the new list is `TaskAdded(old list, goalId, value)` |
| `Store.GoalList.ToggleTask` | app.js:29-34 | the method is callable when a goal has the id and the index is within its tasks; the new list is `Toggled(old list, goalId, index)` |
| `Store.GoalList.DeleteGoal` | app.js:36-40 | the new list is `RemoveId(old list, id)` |

## Left out

- `render` (app.js:48-88) builds DOM elements and HTML strings. It has no logic beyond calling `calculateProgress`, which is modelled.
- `save` (app.js:4-6) writes the list to `localStorage` as JSON. It does not change the list, so the methods do not model it.
- The start-up load with its `|| []` fallback (app.js:2) parses JSON from `localStorage`. The constructor takes the loaded list as a parameter.
- `prompt()` (app.js:9) and `Date.now()` (app.js:12) are user input and the clock. Their results are parameters.
- `Goals.Progress`: the model uses exact rational rounding, not the floating-point `done / n * 100` that is evaluated before `Math.round`. A quotient that lands just below a half in binary floating point could round down in the browser where the model rounds up.
- Loose equality `g.id == goalId` between a number and a string is not modelled. Ids are integers throughout.
- Goals and tasks are modelled as values, not shared objects. Each record is created once, either by an object literal (app.js:11-16, app.js:24) or by `JSON.parse` at load (app.js:2), which never shares objects. It is reachable only through the list, so no aliasing is lost.
- JavaScript strings are sequences of UTF-16 code units, and Dafny's `string` is a sequence of Unicode scalar values. Every character that `trim` strips is a single code unit, so trimming is unaffected.
- The thrown `TypeError`s of `addTask` and `toggleTask` are not modelled as outcomes. A call that would throw is excluded by the method's precondition.
