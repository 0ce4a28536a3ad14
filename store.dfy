/** The module-level `goals` array and the four handlers that change it:
    three in place, `deleteGoal` by rebinding it to a filtered copy.
    Persisting (`save`) and redrawing (`render`) after each change do not
    touch the array and are not modelled; what `prompt()` and `Date.now()`
    would supply is passed in. */
module Store {
  import opened JsText
  import opened Goals

  class GoalList {
    var goals: seq<Goal>

    /** The list as loaded at start-up. */
    constructor (loaded: seq<Goal>)
      ensures goals == loaded
    {
      goals := loaded;
    }

    /** `createGoal()`, given the title the user typed (None when the prompt
        was cancelled) and the current time as the id. */
    method CreateGoal(title: Option<string>, now: int)
      modifies this
      ensures goals == Created(old(goals), title, now)
    {
      if !Accepts(title) {
        return;
      }
      goals := goals + [Goal(now, title.value, NoDeadline, [])];
    }

    /** `addTask(goalId, value)`. */
    method AddTask(goalId: int, value: string)
      requires CanAddTask(goals, goalId, value)
      modifies this
      ensures goals == TaskAdded(old(goals), goalId, value)
    {
      if IsBlank(value) {
        return;
      }
      var i := FindGoal(goals, goalId).value;
      var goal := goals[i];
      goals := goals[i := goal.(tasks := goal.tasks + [Task(value, false)])];
    }

    /** `toggleTask(goalId, index)`. */
    method ToggleTask(goalId: int, index: int)
      requires CanToggle(goals, goalId, index)
      modifies this
      ensures goals == Toggled(old(goals), goalId, index)
    {
      var i := FindGoal(goals, goalId).value;
      var goal := goals[i];
      var task := goal.tasks[index];
      goals := goals[i := goal.(tasks := goal.tasks[index := task.(done := !task.done)])];
    }

    /** `deleteGoal(id)`: the list is replaced by its filtered copy. */
    method DeleteGoal(id: int)
      modifies this
      ensures goals == RemoveId(old(goals), id)
    {
      goals := RemoveId(goals, id);
    }
  }

  /** A session on a fresh list: a goal with no tasks shows 0%, still 0%
      after one task is added, 100% once that task is ticked, and is gone
      after it is deleted. */
  method Session(now: int, text: string)
    requires |text| > 0 && !IsJsSpace(text[0])
  {
    var list := new GoalList([]);
    list.CreateGoal(Some("Learn X"), now);
    assert list.goals == [Goal(now, "Learn X", NoDeadline, [])];
    assert FindGoal(list.goals, now) == Some(0);
    assert Progress(list.goals[0]) == 0;
    BlankIffAllSpace(text);
    list.AddTask(now, text);
    assert list.goals[0].tasks == [Task(text, false)];
    ProgressExtremes(list.goals[0]);
    assert Progress(list.goals[0]) == 0;
    list.ToggleTask(now, 0);
    assert list.goals[0].tasks == [Task(text, true)];
    ProgressExtremes(list.goals[0]);
    assert Progress(list.goals[0]) == 100;
    list.DeleteGoal(now);
    assert list.goals == [];
  }
}
