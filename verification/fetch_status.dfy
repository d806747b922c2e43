/** The request status every slice keeps for its fetch thunk. */
module FetchStatus {

  datatype Status = Idle | Loading | Succeeded | Failed
}
