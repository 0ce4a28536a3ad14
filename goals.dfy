/** The goal tracker's document: a list of goals, each holding a checklist of
    tasks, with the transitions `createGoal`, `addTask`, `toggleTask` and
    `deleteGoal` perform on it and the progress figure shown for each goal. */
module Goals {
  import opened JsText

  datatype Option<T> = None | Some(value: T)

  /** A checklist entry `{text, done}`. */
  datatype Task = Task(text: string, done: bool)

  /** A goal record `{id, title, deadline, tasks}`. The id is the creation
      time in milliseconds; nothing makes it unique. */
  datatype Goal = Goal(id: int, title: string, deadline: string, tasks: seq<Task>)

  /** The deadline text every new goal gets. */
  const NoDeadline: string := "No deadline"

  predicate HasGoal(gs: seq<Goal>, id: int)
  {
    exists j :: 0 <= j < |gs| && gs[j].id == id
  }

  /** `goals.find(g => g.id == id)`, as the index of the goal it yields:
      the first goal carrying the id, or None (JavaScript's `undefined`). */
  function FindGoal(gs: seq<Goal>, id: int): (r: Option<nat>)
    ensures r.None? <==> !HasGoal(gs, id)
    ensures r.Some? ==> r.value < |gs| && gs[r.value].id == id
    ensures r.Some? ==> forall j :: 0 <= j < r.value ==> gs[j].id != id
  {
    if gs == [] then None
    else if gs[0].id == id then Some(0)
    else match FindGoal(gs[1..], id)
      case None =>
        assert forall j :: 1 <= j < |gs| ==> gs[j] == gs[1..][j - 1];
        None
      case Some(i) => Some(i + 1)
  }

  /** Finding depends on nothing but the ids, position by position. */
  lemma FindGoalSameIds(gs: seq<Goal>, hs: seq<Goal>, id: int)
    requires |gs| == |hs|
    requires forall j :: 0 <= j < |gs| ==> gs[j].id == hs[j].id
    ensures FindGoal(gs, id) == FindGoal(hs, id)
  {
  }

  // ---------------------------------------------------------------- createGoal

  /** `if (!title) return;` lets a goal through only when `prompt()` gave a
      string (not null, the cancel button) and that string is not empty.
      A title of spaces is accepted. */
  predicate Accepts(title: Option<string>)
  {
    title.Some? && title.value != ""
  }

  /** The goals after `createGoal` with the title `prompt()` returned and the
      id `Date.now()` returned. */
  function Created(gs: seq<Goal>, title: Option<string>, id: int): (r: seq<Goal>)
    ensures !Accepts(title) ==> r == gs
    ensures Accepts(title) ==> |r| == |gs| + 1 && r[..|gs|] == gs
    ensures Accepts(title) ==> r[|gs|] == Goal(id, title.value, NoDeadline, [])
  {
    if Accepts(title) then gs + [Goal(id, title.value, NoDeadline, [])] else gs
  }

  /** A goal created under an id no goal had is the one that id now finds,
      and it starts at 0% progress. */
  lemma CreatedIsFound(gs: seq<Goal>, title: Option<string>, id: int)
    requires Accepts(title) && !HasGoal(gs, id)
    ensures FindGoal(Created(gs, title, id), id) == Some(|gs|)
    ensures Progress(Created(gs, title, id)[|gs|]) == 0
  {
  }

  /** A goal created under an id some goal already has (two creations in the
      same millisecond) is never the one `find` yields: every later `addTask`
      or `toggleTask` on that id reaches the older goal. */
  lemma CreatedUnderTakenId(gs: seq<Goal>, title: Option<string>, id: int)
    requires HasGoal(gs, id)
    ensures FindGoal(Created(gs, title, id), id) == FindGoal(gs, id)
  {
  }

  // ------------------------------------------------------------------- addTask

  /** `addTask` throws when the value is not blank and no goal has the id:
      `find` yields `undefined` and `.tasks` is read from it. */
  predicate CanAddTask(gs: seq<Goal>, goalId: int, value: string)
  {
    IsBlank(value) || HasGoal(gs, goalId)
  }

  /** The goals after `addTask(goalId, value)`: nothing changes for a blank
      value; otherwise the first goal with the id gets the untrimmed value
      as a new undone task at the end of its list, and nothing else changes. */
  function TaskAdded(gs: seq<Goal>, goalId: int, value: string): (r: seq<Goal>)
    requires CanAddTask(gs, goalId, value)
    ensures IsBlank(value) ==> r == gs
    ensures |r| == |gs|
    ensures !IsBlank(value) ==>
      var i := FindGoal(gs, goalId).value;
      && r[i].id == gs[i].id && r[i].title == gs[i].title && r[i].deadline == gs[i].deadline
      && |r[i].tasks| == |gs[i].tasks| + 1
      && r[i].tasks[..|gs[i].tasks|] == gs[i].tasks
      && r[i].tasks[|gs[i].tasks|] == Task(value, false)
      && forall j :: 0 <= j < |gs| && j != i ==> r[j] == gs[j]
  {
    if IsBlank(value) then gs
    else
      var i := FindGoal(gs, goalId).value;
      gs[i := gs[i].(tasks := gs[i].tasks + [Task(value, false)])]
  }

  /** Appending an undone task leaves the done count as it was. */
  lemma {:induction false} AddUndoneKeepsDoneCount(ts: seq<Task>, text: string)
    ensures DoneCount(ts + [Task(text, false)]) == DoneCount(ts)
  {
    if ts != [] {
      assert (ts + [Task(text, false)])[1..] == ts[1..] + [Task(text, false)];
      AddUndoneKeepsDoneCount(ts[1..], text);
    }
  }

  /** With the same number of done tasks, one more task never rounds to a
      higher percentage. */
  lemma RoundedPercentMoreTasks(p: int, q: int, k: nat, n: nat)
    requires n > 0 && IsRoundedPercent(p, k, n) && IsRoundedPercent(q, k, n + 1)
    ensures q <= p
  {
    if q > 0 {
      assert (n + 1) * (2 * q - 1) == n * (2 * q - 1) + (2 * q - 1);
      MulCancelStrict(n, 2 * q - 1, 2 * p + 1);
    }
  }

  /** Adding a task never raises the progress of the goal it is added to. */
  lemma TaskAddedProgressDrops(gs: seq<Goal>, goalId: int, value: string)
    requires !IsBlank(value) && HasGoal(gs, goalId)
    ensures
      var i := FindGoal(gs, goalId).value;
      Progress(TaskAdded(gs, goalId, value)[i]) <= Progress(gs[i])
  {
    var i := FindGoal(gs, goalId).value;
    var ts := gs[i].tasks;
    var us := TaskAdded(gs, goalId, value)[i].tasks;
    assert us == ts + [Task(value, false)];
    AddUndoneKeepsDoneCount(ts, value);
    if |ts| > 0 {
      RoundedPercentMoreTasks(Progress(gs[i]), Progress(TaskAdded(gs, goalId, value)[i]), DoneCount(ts), |ts|);
    } else {
      assert DoneCount(us) == 0;
      ProgressExtremes(TaskAdded(gs, goalId, value)[i]);
    }
  }

  /** After a successful `addTask` the same id still finds the same goal. */
  lemma TaskAddedKeepsFind(gs: seq<Goal>, goalId: int, value: string, id: int)
    requires CanAddTask(gs, goalId, value)
    ensures FindGoal(TaskAdded(gs, goalId, value), id) == FindGoal(gs, id)
  {
  }

  // ---------------------------------------------------------------- toggleTask

  /** `toggleTask` throws unless a goal has the id and the index names one of
      that goal's tasks (`goal.tasks[index]` is otherwise `undefined`). */
  predicate CanToggle(gs: seq<Goal>, goalId: int, index: int)
  {
    FindGoal(gs, goalId).Some? && 0 <= index < |gs[FindGoal(gs, goalId).value].tasks|
  }

  /** The goals after `toggleTask(goalId, index)`: task `index` of the first
      goal with the id has its `done` flag negated and keeps its text; every
      other task and every other goal is untouched. */
  function Toggled(gs: seq<Goal>, goalId: int, index: int): (r: seq<Goal>)
    requires CanToggle(gs, goalId, index)
    ensures |r| == |gs|
    ensures
      var i := FindGoal(gs, goalId).value;
      && r[i].id == gs[i].id && r[i].title == gs[i].title && r[i].deadline == gs[i].deadline
      && |r[i].tasks| == |gs[i].tasks|
      && r[i].tasks[index].text == gs[i].tasks[index].text
      && r[i].tasks[index].done == !gs[i].tasks[index].done
      && (forall k :: 0 <= k < |gs[i].tasks| && k != index ==> r[i].tasks[k] == gs[i].tasks[k])
      && forall j :: 0 <= j < |gs| && j != i ==> r[j] == gs[j]
  {
    var i := FindGoal(gs, goalId).value;
    var t := gs[i].tasks[index];
    gs[i := gs[i].(tasks := gs[i].tasks[index := t.(done := !t.done)])]
  }

  /** Toggling the same task twice gives back the goals as they were. */
  lemma ToggleTwice(gs: seq<Goal>, goalId: int, index: int)
    requires CanToggle(gs, goalId, index)
    ensures CanToggle(Toggled(gs, goalId, index), goalId, index)
    ensures Toggled(Toggled(gs, goalId, index), goalId, index) == gs
  {
    var r := Toggled(gs, goalId, index);
    FindGoalSameIds(gs, r, goalId);
    var i := FindGoal(gs, goalId).value;
    var rr := Toggled(r, goalId, index);
    assert rr[i].tasks == gs[i].tasks;
    assert rr[i] == gs[i];
  }

  /** Replacing one task moves the done count by the difference of the two
      tasks' flags. */
  lemma {:induction false} DoneCountUpdate(ts: seq<Task>, k: nat, t: Task)
    requires k < |ts|
    ensures DoneCount(ts[k := t]) == DoneCount(ts) - Flag(ts[k]) + Flag(t)
  {
    if k > 0 {
      assert ts[k := t][1..] == ts[1..][k - 1 := t];
      DoneCountUpdate(ts[1..], k - 1, t);
    } else {
      assert ts[k := t][1..] == ts[1..];
    }
  }

  /** Toggling a task moves its goal's done count by exactly one: up when
      the task was undone, down when it was done. */
  lemma ToggleMovesDoneCount(gs: seq<Goal>, goalId: int, index: int)
    requires CanToggle(gs, goalId, index)
    ensures
      var i := FindGoal(gs, goalId).value;
      var before := DoneCount(gs[i].tasks);
      var after := DoneCount(Toggled(gs, goalId, index)[i].tasks);
      if gs[i].tasks[index].done then after == before - 1 else after == before + 1
  {
    var i := FindGoal(gs, goalId).value;
    var t := gs[i].tasks[index];
    DoneCountUpdate(gs[i].tasks, index, t.(done := !t.done));
  }

  // ---------------------------------------------------------------- deleteGoal

  /** `goals.filter(g => g.id != id)`: no goal with the id is left. */
  function RemoveId(gs: seq<Goal>, id: int): (r: seq<Goal>)
    ensures |r| <= |gs|
    ensures !HasGoal(r, id)
  {
    if gs == [] then []
    else if gs[0].id == id then RemoveId(gs[1..], id)
    else [gs[0]] + RemoveId(gs[1..], id)
  }

  /** Every goal without the id is kept, as often as it occurred; nothing
      else is. */
  lemma {:induction false} RemoveIdKeepsOthers(gs: seq<Goal>, id: int)
    ensures forall g :: multiset(RemoveId(gs, id))[g] == if g.id == id then 0 else multiset(gs)[g]
  {
    if gs != [] {
      RemoveIdKeepsOthers(gs[1..], id);
      assert gs == [gs[0]] + gs[1..];
    }
  }

  /** `a` can be obtained from `b` by dropping elements: the relative order
      of what is kept is the order in `b`. */
  predicate IsSubsequence<T(==)>(a: seq<T>, b: seq<T>)
    decreases |b|
  {
    a == [] || (b != [] && ((a[0] == b[0] && IsSubsequence(a[1..], b[1..])) || IsSubsequence(a, b[1..])))
  }

  /** Deleting keeps the remaining goals in their original relative order. */
  lemma {:induction false} RemoveIdKeepsOrder(gs: seq<Goal>, id: int)
    ensures IsSubsequence(RemoveId(gs, id), gs)
  {
    if gs != [] {
      RemoveIdKeepsOrder(gs[1..], id);
      var r := RemoveId(gs, id);
      if gs[0].id != id {
        assert r[0] == gs[0] && r[1..] == RemoveId(gs[1..], id);
      }
    }
  }

  /** Deleting an id no goal has leaves the list as it was. */
  lemma {:induction false} RemoveAbsentId(gs: seq<Goal>, id: int)
    requires !HasGoal(gs, id)
    ensures RemoveId(gs, id) == gs
  {
    if gs != [] {
      assert gs[0].id != id;
      assert !HasGoal(gs[1..], id) by {
        assert forall j :: 0 <= j < |gs| - 1 ==> gs[1..][j] == gs[j + 1];
      }
      RemoveAbsentId(gs[1..], id);
      assert gs == [gs[0]] + gs[1..];
    }
  }

  /** Deleting the same id a second time changes nothing. */
  lemma RemoveIdTwice(gs: seq<Goal>, id: int)
    ensures RemoveId(RemoveId(gs, id), id) == RemoveId(gs, id)
  {
    RemoveAbsentId(RemoveId(gs, id), id);
  }

  // --------------------------------------------------------- calculateProgress

  function Flag(t: Task): nat
  {
    if t.done then 1 else 0
  }

  /** `tasks.filter(t => t.done).length`. */
  function DoneCount(ts: seq<Task>): (k: nat)
    ensures k <= |ts|
    ensures k == 0 <==> forall j :: 0 <= j < |ts| ==> !ts[j].done
    ensures k == |ts| <==> forall j :: 0 <= j < |ts| ==> ts[j].done
  {
    if ts == [] then 0
    else
      assert forall j :: 1 <= j < |ts| ==> ts[j] == ts[1..][j - 1];
      Flag(ts[0]) + DoneCount(ts[1..])
  }

  /** `p` is `100 * k / n` rounded to the nearest integer, halves upward
      (JavaScript's `Math.round` on a non-negative number):
      p - 1/2 <= 100 * k / n < p + 1/2. */
  predicate IsRoundedPercent(p: int, k: nat, n: nat)
  {
    n * (2 * p - 1) <= 200 * k < n * (2 * p + 1)
  }

  /** Cancelling a positive factor in a strict inequality. */
  lemma MulCancelStrict(b: int, x: int, y: int)
    requires b > 0 && b * x < b * y
    ensures x < y
  {
  }

  /** Euclidean division brackets the dividend. */
  lemma DivBounds(a: nat, b: nat)
    requires b > 0
    ensures b * (a / b) <= a < b * (a / b) + b
  {
  }

  /** At most one integer is the rounded percentage. */
  lemma RoundedPercentUnique(p: int, q: int, k: nat, n: nat)
    requires n > 0 && IsRoundedPercent(p, k, n) && IsRoundedPercent(q, k, n)
    ensures p == q
  {
  }

  /** Integer round-half-up of `100 * k / n`; it lies in 0..100. */
  function RoundedPercent(k: nat, n: nat): (p: nat)
    requires 0 < n && k <= n
    ensures p <= 100
    ensures IsRoundedPercent(p, k, n)
  {
    var a, b := 200 * k + n, 2 * n;
    var q := a / b;
    DivBounds(a, b);
    assert n * (2 * q - 1) == b * q - n && n * (2 * q + 1) == b * q + n;
    MulCancelStrict(b, q, 101);
    q
  }

  /** `calculateProgress(goal)`: 0 for a goal without tasks, otherwise the
      share of done tasks as a whole percentage. */
  function Progress(g: Goal): (p: nat)
    ensures p <= 100
    ensures |g.tasks| == 0 ==> p == 0
    ensures |g.tasks| > 0 ==> IsRoundedPercent(p, DoneCount(g.tasks), |g.tasks|)
  {
    if |g.tasks| == 0 then 0 else RoundedPercent(DoneCount(g.tasks), |g.tasks|)
  }

  /** No task done gives 0%; every task done (and at least one task) gives
      100%. */
  lemma ProgressExtremes(g: Goal)
    ensures (forall j :: 0 <= j < |g.tasks| ==> !g.tasks[j].done) ==> Progress(g) == 0
    ensures |g.tasks| > 0 && (forall j :: 0 <= j < |g.tasks| ==> g.tasks[j].done) ==> Progress(g) == 100
  {
    var n, k := |g.tasks|, DoneCount(g.tasks);
    if n > 0 {
      if k == 0 {
        RoundedPercentUnique(Progress(g), 0, k, n);
      }
      if k == n {
        RoundedPercentUnique(Progress(g), 100, k, n);
      }
    }
  }
}
