/** Names the core service and the engine share about an allocation run. */
module RunNames {
  type RunId = string

  datatype RunStatus = Queued | Running | Completed | Failed
}
