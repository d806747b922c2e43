/** The goals slice (src/redux/slices/goalsSlice.ts): the goal list, the one selected goal, the fetch status. */
module GoalsSlice {
  import opened Wrappers
  import opened FetchStatus

  datatype Goal = Goal(id: string, name: string, color: string)

  datatype GoalsState = GoalsState(
    goals: seq<Goal>,
    selectedGoalId: Option<string>,
    status: Status,
    error: Option<string>)

  const InitialState: GoalsState := GoalsState([], None, Idle, None)

  const FetchGoalsFallback: string := "Failed to fetch goals"

  datatype Action =
    | SetSelectedGoal(goalId: string)
    | ClearSelectedGoal
    | FetchPending
    | FetchFulfilled(payload: seq<Goal>)
    | FetchRejected(message: Option<string>)

  /** The list the `fetchGoals` thunk resolves with. */
  const MockGoals: seq<Goal> := [
    Goal("1", "Be fit", "bg-goal-fit"),
    Goal("2", "Academics", "bg-goal-academics"),
    Goal("3", "LEARN", "bg-goal-learn"),
    Goal("4", "Sports", "bg-goal-sports")
  ]

  function Reduce(s: GoalsState, a: Action): (r: GoalsState)
    ensures a.SetSelectedGoal? ==> r.selectedGoalId == Some(a.goalId) && r.(selectedGoalId := s.selectedGoalId) == s
    ensures a.ClearSelectedGoal? ==> r.selectedGoalId.None? && r.(selectedGoalId := s.selectedGoalId) == s
    ensures a.FetchPending? || a.FetchFulfilled? || a.FetchRejected? ==> r.selectedGoalId == s.selectedGoalId
    ensures a.FetchPending? ==> r.status == Loading && r.goals == s.goals && r.error == s.error
    ensures a.FetchFulfilled? ==> r.status == Succeeded && r.goals == a.payload && r.error == s.error
    ensures a.FetchRejected? ==>
              (r.status == Failed && r.goals == s.goals
               && r.error == Some(OrElse(a.message, FetchGoalsFallback)))
  {
    match a
    case SetSelectedGoal(id) => s.(selectedGoalId := Some(id))
    case ClearSelectedGoal => s.(selectedGoalId := None)
    case FetchPending => s.(status := Loading)
    case FetchFulfilled(goals) => s.(status := Succeeded, goals := goals)
    case FetchRejected(message) => s.(status := Failed, error := Some(OrElse(message, FetchGoalsFallback)))
  }

  /**
   * Applies the actions in order. A run of selection actions alone leaves
   * the list, the status and the error as they were.
   */
  function ReduceAll(s: GoalsState, actions: seq<Action>): (r: GoalsState)
    ensures (forall i :: 0 <= i < |actions| ==> actions[i].SetSelectedGoal? || actions[i].ClearSelectedGoal?)
            ==> r.goals == s.goals && r.status == s.status && r.error == s.error
    decreases |actions|
  {
    if |actions| == 0 then s else ReduceAll(Reduce(s, actions[0]), actions[1..])
  }

  /**
   * The selection is one slot that only the two selection actions write:
   * no run of fetch actions moves it.
   */
  lemma {:induction false} FetchesKeepSelection(s: GoalsState, actions: seq<Action>)
    requires forall i :: 0 <= i < |actions| ==> !actions[i].SetSelectedGoal? && !actions[i].ClearSelectedGoal?
    ensures ReduceAll(s, actions).selectedGoalId == s.selectedGoalId
    decreases |actions|
  {
    if |actions| > 0 {
      FetchesKeepSelection(Reduce(s, actions[0]), actions[1..]);
    }
  }
}
