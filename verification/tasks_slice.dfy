/** The tasks slice (src/redux/slices/tasksSlice.ts): the task list of the selected goal and its fetch status. */
module TasksSlice {
  import opened Wrappers
  import opened FetchStatus

  datatype Task = Task(id: string, name: string, goalId: string)

  datatype TasksState = TasksState(tasks: seq<Task>, status: Status, error: Option<string>)

  const InitialState: TasksState := TasksState([], Idle, None)

  const FetchTasksFallback: string := "Failed to fetch tasks"

  /**
   * `fetchTasks` has pending, fulfilled and rejected cases; `fetchTasksByGoalId`
   * only a fulfilled one.
   */
  datatype Action =
    | FetchPending
    | FetchFulfilled(payload: seq<Task>)
    | FetchRejected(message: Option<string>)
    | FetchByGoalFulfilled(goalTasks: seq<Task>)

  /** The list the `fetchTasks` thunk resolves with. */
  const MockTasks: seq<Task> := [
    Task("1", "AI based agents", "3"),
    Task("2", "MLE", "3"),
    Task("3", "DE related", "3"),
    Task("4", "Basics", "3")
  ]

  predicate DistinctIds(tasks: seq<Task>) {
    forall i, j :: 0 <= i < j < |tasks| ==> tasks[i].id != tasks[j].id
  }

  /** The `fetchTasksByGoalId` thunk: a fixed list per known goal, the empty list otherwise. */
  function TasksForGoal(goalId: string): (tasks: seq<Task>)
    ensures forall i :: 0 <= i < |tasks| ==> tasks[i].goalId == goalId
    ensures DistinctIds(tasks)
    ensures goalId != "1" && goalId != "2" && goalId != "3" && goalId != "4" ==> tasks == []
  {
    if goalId == "1" then
      [Task("5", "Morning run", "1"), Task("6", "Gym workout", "1")]
    else if goalId == "2" then
      [Task("7", "Math homework", "2"), Task("8", "Science project", "2"),
       Task("9", "Literature essay", "2")]
    else if goalId == "3" then
      MockTasks
    else if goalId == "4" then
      [Task("10", "Basketball practice", "4"), Task("11", "Swimming", "4")]
    else []
  }

  function Reduce(s: TasksState, a: Action): (r: TasksState)
    ensures a.FetchPending? ==> r.status == Loading && r.tasks == s.tasks && r.error == s.error
    ensures a.FetchFulfilled? ==> r.status == Succeeded && r.tasks == a.payload && r.error == s.error
    ensures a.FetchRejected? ==>
              (r.status == Failed && r.tasks == s.tasks
               && r.error == Some(OrElse(a.message, FetchTasksFallback)))
    ensures a.FetchByGoalFulfilled? ==> r.status == Succeeded && r.tasks == a.goalTasks && r.error == s.error
  {
    match a
    case FetchPending => s.(status := Loading)
    case FetchFulfilled(tasks) => s.(status := Succeeded, tasks := tasks)
    case FetchRejected(message) => s.(status := Failed, error := Some(OrElse(message, FetchTasksFallback)))
    case FetchByGoalFulfilled(tasks) => s.(status := Succeeded, tasks := tasks)
  }

  /**
   * Selecting a goal loads only that goal's tasks, and never leaves the
   * slice loading or failed, since the by-goal fetch has no such cases.
   */
  lemma ByGoalLoadsOnlyThatGoal(s: TasksState, goalId: string)
    ensures var r := Reduce(s, FetchByGoalFulfilled(TasksForGoal(goalId)));
            r.status == Succeeded && DistinctIds(r.tasks)
            && forall i :: 0 <= i < |r.tasks| ==> r.tasks[i].goalId == goalId
  {
  }
}
