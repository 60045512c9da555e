/** The status column of an AI-runner job. */
module JobStatus {

  datatype AiRunnerJobStatus =
    | Queued
    | ApprovalPending
    | ApprovalGranted
    | ApprovalDenied
    | ApprovalExpired
    | Running
    | Succeeded
    | Failed
    | Stopping
    | Stopped

  predicate IsTerminal(status: AiRunnerJobStatus) {
    status.Succeeded? || status.Failed? || status.Stopped? || status.ApprovalDenied? || status.ApprovalExpired?
  }

  /** The list of active statuses that guards every conditional write of the job row. */
  predicate IsActive(status: AiRunnerJobStatus) {
    status.Queued? || status.ApprovalPending? || status.ApprovalGranted? || status.Running? || status.Stopping?
  }

  lemma ActiveIsNotTerminal(status: AiRunnerJobStatus)
    ensures IsActive(status) <==> !IsTerminal(status)
  {
  }
}
