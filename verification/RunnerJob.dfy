/**
 One AI-runner job with its events, command approvals and artifacts. Each handler is one step on the
 job; the read and the two writes of a stop request are separate steps, because other handlers run
 between them.

 The functions say what a handler does to the stored job, the class does it on the job's columns, and
 the lemmas are about every sequence of handlers.
 */
module RunnerJob {
  import opened Common
  import opened JobStatus
  import opened Leases

  datatype JobType = Shell | DesktopGoal

  datatype ApprovalStatus =
    | Undecided
    | Approved
    | Denied
    | DesktopControlRequested
    | Executing
    | Executed
    | ExecutionFailed
    | ApprovalTimedOut
    | PolicyBlocked

  datatype Approval = Approval(turnIndex: nat, status: ApprovalStatus)

  type ApprovalId = nat
  type ArtifactId = nat

  datatype EventType =
    | StatusEvent
    | ProposalEvent
    | CommandResultEvent
    | ArtifactEvent
    | SystemEvent
    | OutputEvent
    | RunnerEvent(text: string)

  /** An event row; an approval or artifact id is its position in the job's list. */
  datatype Event = Event(kind: EventType, approvalId: Option<ApprovalId>, artifactId: Option<ArtifactId>)

  type EventKey = string

  /** `readStops` and `openStops` count the stop requests before their first and their second write. */
  datatype Job = Job(
    row: Row,
    jobType: JobType,
    cancelRequestedAt: Option<Time>,
    finishedAt: Option<Time>,
    leaseExpired: bool,
    events: map<EventKey, Event>,
    approvals: seq<Approval>,
    artifacts: seq<string>,
    readStops: nat,
    openStops: nat)

  // ----- helpers of the handlers

  /** Whether the callback's lease is accepted; otherwise the handler throws and changes nothing. */
  predicate CallbackLeaseOk(row: Row, lease: Option<LeaseId>, now: Time) {
    if row.leaseId.None? then lease.None?
    else ActiveLeaseId(row, now).Some? && lease == ActiveLeaseId(row, now)
  }

  /** The event key is unique within the job: an existing event is left alone. */
  function Recorded(events: map<EventKey, Event>, key: EventKey, event: Event): map<EventKey, Event> {
    if key in events then events else events[key := event]
  }

  /** The events without the named command-output events of the approval. */
  function Pruned(events: map<EventKey, Event>, id: ApprovalId, keys: set<EventKey>): map<EventKey, Event> {
    map k | k in events && !(k in keys && events[k].kind.OutputEvent? && events[k].approvalId == Some(id)) :: events[k]
  }

  function Linked(events: map<EventKey, Event>, key: EventKey, id: ApprovalId): map<EventKey, Event>
    requires key in events
  {
    events[key := events[key].(approvalId := Some(id))]
  }

  /** The first approval of the turn. */
  function FindTurn(approvals: seq<Approval>, turnIndex: nat): (id: Option<ApprovalId>)
    ensures id.Some? ==> id.value < |approvals| && approvals[id.value].turnIndex == turnIndex
    ensures id.None? ==> forall i :: 0 <= i < |approvals| ==> approvals[i].turnIndex != turnIndex
  {
    if approvals == [] then None
    else if approvals[0].turnIndex == turnIndex then Some(0)
    else
      var rest := FindTurn(approvals[1..], turnIndex);
      if rest.Some? then Some(rest.value + 1) else None
  }

  function ExecutionStatus(requested: ApprovalStatus): ApprovalStatus {
    if requested in {Executing, Executed, ExecutionFailed} then requested else Executed
  }

  /** What stopping the job does to one of its command approvals. */
  function SettledApproval(a: Approval): Approval {
    match a.status
    case Undecided => a.(status := Denied)
    case Approved => a.(status := Denied)
    case Executing => a.(status := ExecutionFailed)
    case _ => a
  }

  // ----- the handlers

  datatype Handler =
    | StatusCallback(status: AiRunnerJobStatus, key: EventKey, lease: Option<LeaseId>, now: Time)
    | ProposalCallback(turnIndex: nat, complete: bool, key: EventKey, lease: Option<LeaseId>, now: Time)
    | CommandResultCallback(id: ApprovalId, requested: ApprovalStatus, key: EventKey, lease: Option<LeaseId>, now: Time)
    | ArtifactCallback(name: string, hasContent: bool, key: EventKey, lease: Option<LeaseId>, now: Time)
    | EventCallback(
        key: EventKey, kind: EventType, approvalId: Option<ApprovalId>, beyond: set<EventKey>,
        lease: Option<LeaseId>, now: Time)
    | ApproveCommand(id: ApprovalId)
    | DenyCommand(id: ApprovalId)
    | ExpireCommand(id: ApprovalId)
    | TransferToDesktop(id: ApprovalId, key: EventKey)
    | RequestStop
    | RecordStop(key: EventKey, now: Time)
    | FinishStop(stoppedRemotely: bool, now: Time)
    | ReconcileLease(leaseId: LeaseId, key: EventKey, now: Time)
    | AcquireLease(r: RunnerId, freshId: LeaseId, key: EventKey, now: Time, ttlMs: int)
    | HeartbeatLease(leaseId: LeaseId, r: RunnerId, now: Time, ttlMs: int)
    | ReleaseLease(leaseId: LeaseId, r: RunnerId, key: EventKey)

  /** The job once the event of a status callback is recorded. */
  function Logged(job: Job, key: EventKey): Job {
    job.(events := job.events[key := Event(StatusEvent, None, None)])
  }

  function ApplyStatus(job: Job, status: AiRunnerJobStatus, key: EventKey, now: Time): Job {
    if key in job.events then job
    else
      var logged := Logged(job, key);
      if IsTerminal(job.row.status) then logged
      else if job.cancelRequestedAt.Some? && IsTerminal(status) && status != Stopped then
        logged.(row := job.row.(status := Stopped),
                finishedAt := if job.finishedAt.Some? then job.finishedAt else Some(now))
      else
        logged.(row := job.row.(status := status),
                finishedAt := if IsTerminal(status) then Some(now) else job.finishedAt)
  }

  function ApplyProposal(job: Job, turnIndex: nat, key: EventKey): Job {
    var events := Recorded(job.events, key, Event(ProposalEvent, None, None));
    var linked := events[key].approvalId;
    if key in job.events && linked.Some? && linked.value < |job.approvals| then job
    else
      var existing := FindTurn(job.approvals, turnIndex);
      if existing.Some? then job.(events := Linked(events, key, existing.value))
      else job.(
        events := Linked(events, key, |job.approvals|),
        approvals := job.approvals + [Approval(turnIndex, Undecided)])
  }

  function ApplyCommandResult(job: Job, id: ApprovalId, requested: ApprovalStatus, key: EventKey): Job
    requires id < |job.approvals|
  {
    if key in job.events then job
    else job.(
      events := job.events[key := Event(CommandResultEvent, Some(id), None)],
      approvals := job.approvals[id := job.approvals[id].(status := ExecutionStatus(requested))])
  }

  function ApplyArtifact(job: Job, name: string, key: EventKey): Job {
    if key in job.events then job
    else job.(
      events := job.events[key := Event(ArtifactEvent, None, Some(|job.artifacts|))],
      artifacts := job.artifacts + [name])
  }

  /**
   Any other event of the runner. One that reports a command's output also prunes the older output events
   of that command; `beyond` are the ones beyond the limits, or none when it is not time to prune. An id
   that names no approval of the job is recorded as none.
   */
  function ApplyEvent(
    job: Job, key: EventKey, kind: EventType, approvalId: Option<ApprovalId>, beyond: set<EventKey>): Job
  {
    if key in job.events then job
    else
      var link := if approvalId.Some? && approvalId.value < |job.approvals| then approvalId else None;
      var recorded := job.events[key := Event(kind, link, None)];
      job.(events := if kind.OutputEvent? && link.Some? then Pruned(recorded, link.value, beyond - {key}) else recorded)
  }

  function ApplyDecision(job: Job, id: ApprovalId, from: set<ApprovalStatus>, to: ApprovalStatus): Job {
    if id < |job.approvals| && job.approvals[id].status in from then
      job.(approvals := job.approvals[id := job.approvals[id].(status := to)])
    else job
  }

  function ApplyTransfer(job: Job, id: ApprovalId, key: EventKey): Job {
    if id < |job.approvals| && job.jobType.Shell? && IsActive(job.row.status)
       && job.approvals[id].status in {Undecided, Approved}
    then job.(
      approvals := job.approvals[id := job.approvals[id].(status := DesktopControlRequested)],
      jobType := DesktopGoal,
      row := job.row.(status := Running),
      events := Recorded(job.events, key, Event(SystemEvent, Some(id), None)))
    else job
  }

  /** A stop request reads the job and returns at once if it is terminal. */
  function ApplyRequestStop(job: Job): Job {
    if IsTerminal(job.row.status) then job else job.(readStops := job.readStops + 1)
  }

  function ApplyRecordStop(job: Job, key: EventKey, now: Time): Job {
    if job.readStops == 0 then job
    else
      var stopped :=
        if !IsActive(job.row.status) then job
        else job.(cancelRequestedAt := Some(now), row := job.row.(status := Stopping));
      stopped.(
        events := Recorded(job.events, key, Event(SystemEvent, None, None)),
        approvals := seq(|job.approvals|, i requires 0 <= i < |job.approvals| => SettledApproval(job.approvals[i])),
        readStops := job.readStops - 1,
        openStops := job.openStops + 1)
  }

  function ApplyFinishStop(job: Job, stoppedRemotely: bool, now: Time): Job {
    if job.openStops == 0 then job
    else
      var closed := job.(openStops := job.openStops - 1);
      if !IsActive(job.row.status) then closed
      else if stoppedRemotely then closed.(row := job.row.(status := Stopped), finishedAt := Some(now))
      else closed.(row := job.row.(status := Stopping))
  }

  function ApplyReconcile(job: Job, leaseId: LeaseId, key: EventKey, now: Time): Job {
    if ReconcileGuard(job.row, leaseId, now) then job.(
      events := Recorded(job.events, key, Event(SystemEvent, None, None)),
      row := Row(Failed, None, None, None),
      finishedAt := Some(now),
      leaseExpired := true)
    else job
  }

  function ApplyAcquire(job: Job, r: RunnerId, freshId: LeaseId, key: EventKey, now: Time, ttlMs: int): Job {
    if IsTerminal(job.row.status) || ActiveLeaseId(job.row, now).Some? then job
    else job.(
      row := Row(job.row.status, Some(freshId), Some(r), Some(now + EffectiveTtl(ttlMs))),
      leaseExpired := false,
      events := Recorded(job.events, key, Event(SystemEvent, None, None)))
  }

  function ApplyHeartbeat(job: Job, leaseId: LeaseId, r: RunnerId, now: Time, ttlMs: int): Job {
    if HeartbeatGuard(job.row, leaseId, r, now) then
      job.(row := job.row.(expiresAt := Some(now + EffectiveTtl(ttlMs))))
    else job
  }

  function ApplyRelease(job: Job, leaseId: LeaseId, r: RunnerId, key: EventKey): Job {
    if ReleaseGuard(job.row, leaseId, r) then job.(
      row := Row(job.row.status, None, None, None),
      events := Recorded(job.events, key, Event(SystemEvent, None, None)))
    else job
  }

  /** Whether a callback passes the checks that come before its event is recorded. */
  predicate Accepted(job: Job, h: Handler) {
    match h
    case StatusCallback(_, _, lease, now) => CallbackLeaseOk(job.row, lease, now)
    case ProposalCallback(_, complete, _, lease, now) => CallbackLeaseOk(job.row, lease, now) && complete
    case CommandResultCallback(id, _, _, lease, now) => id < |job.approvals| && CallbackLeaseOk(job.row, lease, now)
    case ArtifactCallback(_, hasContent, _, lease, now) => CallbackLeaseOk(job.row, lease, now) && hasContent
    case EventCallback(_, _, _, _, lease, now) => CallbackLeaseOk(job.row, lease, now)
    case _ => true
  }

  function Apply(job: Job, h: Handler): Job {
    if !Accepted(job, h) then job
    else match h
      case StatusCallback(status, key, _, now) => ApplyStatus(job, status, key, now)
      case ProposalCallback(turnIndex, _, key, _, _) => ApplyProposal(job, turnIndex, key)
      case CommandResultCallback(id, requested, key, _, _) => ApplyCommandResult(job, id, requested, key)
      case ArtifactCallback(name, _, key, _, _) => ApplyArtifact(job, name, key)
      case EventCallback(key, kind, approvalId, beyond, _, _) => ApplyEvent(job, key, kind, approvalId, beyond)
      case ApproveCommand(id) => ApplyDecision(job, id, {Undecided}, Approved)
      case DenyCommand(id) => ApplyDecision(job, id, {Undecided, Approved}, Denied)
      case ExpireCommand(id) => ApplyDecision(job, id, {Undecided}, ApprovalTimedOut)
      case TransferToDesktop(id, key) => ApplyTransfer(job, id, key)
      case RequestStop => ApplyRequestStop(job)
      case RecordStop(key, now) => ApplyRecordStop(job, key, now)
      case FinishStop(stoppedRemotely, now) => ApplyFinishStop(job, stoppedRemotely, now)
      case ReconcileLease(leaseId, key, now) => ApplyReconcile(job, leaseId, key, now)
      case AcquireLease(r, freshId, key, now, ttlMs) => ApplyAcquire(job, r, freshId, key, now, ttlMs)
      case HeartbeatLease(leaseId, r, now, ttlMs) => ApplyHeartbeat(job, leaseId, r, now, ttlMs)
      case ReleaseLease(leaseId, r, key) => ApplyRelease(job, leaseId, r, key)
  }

  /** A job just created and dispatched: waiting for approval, running, or failed to dispatch. */
  predicate Created(job: Job) {
    && job.row.status in {ApprovalPending, Running, Failed}
    && (job.finishedAt.Some? <==> job.row.status.Failed?)
    && job.row.leaseId.None? && job.row.owner.None? && job.row.expiresAt.None?
    && job.cancelRequestedAt.None? && !job.leaseExpired
    && job.events == map[] && job.approvals == [] && job.artifacts == []
    && job.readStops == 0 && job.openStops == 0
  }

  function Exec(job: Job, handlers: seq<Handler>): Job {
    if handlers == [] then job
    else Apply(Exec(job, handlers[..|handlers| - 1]), handlers[|handlers| - 1])
  }

  // ----- what every handler keeps

  predicate LifecycleInv(job: Job) {
    && (job.finishedAt.Some? <==> IsTerminal(job.row.status))
    && (job.openStops > 0 ==> job.cancelRequestedAt.Some? || IsTerminal(job.row.status))
    && (job.cancelRequestedAt.Some? && IsTerminal(job.row.status) ==>
          job.row.status == Stopped || (job.row.status == Failed && job.leaseExpired))
  }

  ghost predicate TurnsUnique(approvals: seq<Approval>) {
    forall i, j :: 0 <= i < j < |approvals| ==> approvals[i].turnIndex != approvals[j].turnIndex
  }

  /** The event leads to an approval that exists, so a proposal under its key is already answered. */
  predicate Answered(job: Job, key: EventKey) {
    && key in job.events
    && job.events[key].approvalId.Some?
    && job.events[key].approvalId.value < |job.approvals|
  }

  lemma LifecycleKept(job: Job, h: Handler)
    requires LifecycleInv(job)
    ensures LifecycleInv(Apply(job, h))
  {
    ActiveIsNotTerminal(job.row.status);
  }

  lemma TurnsKept(job: Job, h: Handler)
    requires TurnsUnique(job.approvals)
    ensures TurnsUnique(Apply(job, h).approvals)
  {
  }

  lemma TerminalKept(job: Job, h: Handler)
    requires IsTerminal(job.row.status)
    ensures Apply(job, h).row.status == job.row.status
    ensures Apply(job, h).finishedAt == job.finishedAt
    ensures Apply(job, h).cancelRequestedAt == job.cancelRequestedAt
  {
  }

  /** The key was recorded by a command-output event, which may be pruned. */
  predicate OutputKey(job: Job, key: EventKey) {
    key in job.events && job.events[key].kind.OutputEvent?
  }

  /** Every handler keeps every event but pruned output events, its kind, and the approval it leads to. */
  lemma EventsKept(job: Job, h: Handler, key: EventKey)
    requires key in job.events
    ensures key !in Apply(job, h).events ==> OutputKey(job, key) && h.EventCallback?
    ensures key in Apply(job, h).events ==>
      && Apply(job, h).events[key].kind == job.events[key].kind
      && (Answered(job, key) ==> Answered(Apply(job, h), key))
    ensures |job.approvals| <= |Apply(job, h).approvals|
  {
  }

  lemma {:induction false} ExecConcat(job: Job, first: seq<Handler>, more: seq<Handler>)
    ensures Exec(job, first + more) == Exec(Exec(job, first), more)
  {
    if more == [] {
      assert first + more == first;
    } else {
      var n := |more| - 1;
      ExecConcat(job, first, more[..n]);
      assert (first + more)[..|first + more| - 1] == first + more[..n];
    }
  }

  lemma {:induction false} LifecycleAlways(job: Job, handlers: seq<Handler>)
    requires Created(job)
    ensures LifecycleInv(Exec(job, handlers))
    ensures TurnsUnique(Exec(job, handlers).approvals)
  {
    if handlers != [] {
      LifecycleAlways(job, handlers[..|handlers| - 1]);
      LifecycleKept(Exec(job, handlers[..|handlers| - 1]), handlers[|handlers| - 1]);
      TurnsKept(Exec(job, handlers[..|handlers| - 1]), handlers[|handlers| - 1]);
    }
  }

  // ----- the promises over every sequence of handlers

  /** A terminal job never changes status, finish time or cancellation again. */
  lemma {:induction false} TerminalIsFinal(job: Job, more: seq<Handler>)
    requires IsTerminal(job.row.status)
    ensures Exec(job, more).row.status == job.row.status
    ensures Exec(job, more).finishedAt == job.finishedAt
    ensures Exec(job, more).cancelRequestedAt == job.cancelRequestedAt
  {
    if more != [] {
      TerminalIsFinal(job, more[..|more| - 1]);
      TerminalKept(Exec(job, more[..|more| - 1]), more[|more| - 1]);
    }
  }

  /** `finishedAt` is set exactly while the status is terminal. */
  lemma FinishedExactlyWhenTerminal(job: Job, handlers: seq<Handler>)
    requires Created(job)
    ensures Exec(job, handlers).finishedAt.Some? <==> IsTerminal(Exec(job, handlers).row.status)
  {
    LifecycleAlways(job, handlers);
  }

  lemma CancellationKept(job: Job, h: Handler)
    requires job.cancelRequestedAt.Some?
    ensures Apply(job, h).cancelRequestedAt.Some?
  {
  }

  lemma {:induction false} CancellationStays(job: Job, more: seq<Handler>)
    requires job.cancelRequestedAt.Some?
    ensures Exec(job, more).cancelRequestedAt.Some?
  {
    if more != [] {
      CancellationStays(job, more[..|more| - 1]);
      CancellationKept(Exec(job, more[..|more| - 1]), more[|more| - 1]);
    }
  }

  /** Once a stop is recorded the job can end only as stopped, or as failed by lease expiry. */
  lemma CancelledEndsStopped(job: Job, handlers: seq<Handler>, more: seq<Handler>)
    requires Created(job)
    requires Exec(job, handlers).cancelRequestedAt.Some?
    requires IsTerminal(Exec(job, handlers + more).row.status)
    ensures
      var end := Exec(job, handlers + more);
      end.row.status == Stopped || (end.row.status == Failed && end.leaseExpired)
  {
    ExecConcat(job, handlers, more);
    CancellationStays(Exec(job, handlers), more);
    LifecycleAlways(job, handlers + more);
  }

  /** No two approvals of the job share a turn. */
  lemma OneApprovalPerTurn(job: Job, handlers: seq<Handler>)
    requires Created(job)
    ensures TurnsUnique(Exec(job, handlers).approvals)
  {
    LifecycleAlways(job, handlers);
  }

  /** How an approval may change: its turn never does, and a decision is never taken back. */
  predicate ApprovalAdvances(before: Approval, after: Approval) {
    after.turnIndex == before.turnIndex && (!before.status.Undecided? ==> !after.status.Undecided?)
  }

  /** In every run approvals keep their place and turn, and none returns to undecided. */
  lemma {:induction false} ApprovalsAdvance(job: Job, more: seq<Handler>, id: ApprovalId)
    requires id < |job.approvals|
    ensures id < |Exec(job, more).approvals|
    ensures ApprovalAdvances(job.approvals[id], Exec(job, more).approvals[id])
  {
    if more != [] {
      ApprovalsAdvance(job, more[..|more| - 1], id);
      ApprovalStep(Exec(job, more[..|more| - 1]), more[|more| - 1], id);
    }
  }

  lemma ApprovalStep(job: Job, h: Handler, id: ApprovalId)
    requires id < |job.approvals|
    ensures id < |Apply(job, h).approvals|
    ensures ApprovalAdvances(job.approvals[id], Apply(job, h).approvals[id])
  {
  }

  lemma DesktopKept(job: Job, h: Handler)
    requires job.jobType.DesktopGoal?
    ensures Apply(job, h).jobType.DesktopGoal?
  {
  }

  /** A job is transferred to the desktop at most once in any run. */
  lemma {:induction false} TransferredOnce(job: Job, more: seq<Handler>, id: ApprovalId, key: EventKey)
    requires job.jobType.DesktopGoal?
    ensures Exec(job, more).jobType.DesktopGoal?
    ensures ApplyTransfer(Exec(job, more), id, key) == Exec(job, more)
  {
    if more != [] {
      TransferredOnce(job, more[..|more| - 1], id, key);
      DesktopKept(Exec(job, more[..|more| - 1]), more[|more| - 1]);
    }
  }

  // ----- a status callback interrupted before its write

  /** The write of a status callback that read the job earlier: it is not guarded by the current status. */
  function LateStatusWrite(current: Job, read: Job, status: AiRunnerJobStatus, now: Time): Job {
    if IsTerminal(read.row.status) then current
    else if read.cancelRequestedAt.Some? && IsTerminal(status) && status != Stopped then
      current.(row := current.row.(status := Stopped),
               finishedAt := if read.finishedAt.Some? then read.finishedAt else Some(now))
    else
      current.(row := current.row.(status := status),
               finishedAt := if IsTerminal(status) then Some(now) else read.finishedAt)
  }

  /** With nothing in between, the late write is the whole handler. */
  lemma PromptWriteIsHandler(job: Job, status: AiRunnerJobStatus, key: EventKey, now: Time)
    requires key !in job.events
    ensures LateStatusWrite(Logged(job, key), job, status, now) == ApplyStatus(job, status, key, now)
  {
  }

  /** A job that failed by lease expiry after the callback read it is set running again by the late write. */
  lemma LateWriteRevives(job: Job, leaseId: LeaseId, r: RunnerId, key: EventKey)
    requires Created(job) && job.row.status == Running
    ensures
      var read := Apply(job, AcquireLease(r, leaseId, key, 0, MIN_TTL_MS));
      var expired := Apply(read, ReconcileLease(leaseId, key, MIN_TTL_MS));
      var late := LateStatusWrite(expired, read, Running, MIN_TTL_MS);
      && CallbackLeaseOk(read.row, Some(leaseId), 0)
      && expired.row.status == Failed && expired.finishedAt.Some?
      && late.row.status == Running && late.finishedAt.None?
  {
  }

  /** What a late write must not break: a finished job stays as it ended, and a cancelled one ends stopped. */
  predicate WriteIsSafe(current: Job, late: Job) {
    && (IsTerminal(current.row.status) ==>
          late.row.status == current.row.status && late.finishedAt == current.finishedAt)
    && (late.cancelRequestedAt.Some? && IsTerminal(late.row.status) ==>
          late.row.status == Stopped || (late.row.status == Failed && late.leaseExpired))
  }

  /** The handler ends the job or records its cancellation. */
  predicate Intervenes(job: Job, h: Handler) {
    && !IsTerminal(job.row.status)
    && (IsTerminal(Apply(job, h).row.status) || (job.cancelRequestedAt.None? && Apply(job, h).cancelRequestedAt.Some?))
  }

  ghost predicate NoneIntervenes(job: Job, more: seq<Handler>) {
    forall k :: 0 <= k < |more| ==> !Intervenes(Exec(job, more[..k]), more[k])
  }

  lemma {:induction false} LeftAlone(job: Job, more: seq<Handler>)
    requires !IsTerminal(job.row.status) && NoneIntervenes(job, more)
    ensures !IsTerminal(Exec(job, more).row.status)
    ensures Exec(job, more).cancelRequestedAt.Some? ==> job.cancelRequestedAt.Some?
  {
    if more != [] {
      var n := |more| - 1;
      forall k | 0 <= k < n ensures !Intervenes(Exec(job, more[..n][..k]), more[..n][k]) {
        assert more[..n][..k] == more[..k];
      }
      LeftAlone(job, more[..n]);
      assert !Intervenes(Exec(job, more[..n]), more[n]);
    }
  }

  /** A handler that intervened leaves a terminal job, or a cancelled one that was not when it was read. */
  lemma InterventionShows(job: Job, more: seq<Handler>, k: nat)
    requires k < |more| && Intervenes(Exec(job, more[..k]), more[k])
    ensures
      var current := Exec(job, more);
      IsTerminal(current.row.status) || (job.cancelRequestedAt.None? && current.cancelRequestedAt.Some?)
  {
    var rest := more[k + 1..];
    var after := Exec(job, more[..k + 1]);
    assert more[..k + 1][..k] == more[..k];
    assert more == more[..k + 1] + rest;
    ExecConcat(job, more[..k + 1], rest);
    if IsTerminal(after.row.status) {
      TerminalIsFinal(after, rest);
    } else {
      CancellationStays(after, rest);
      if job.cancelRequestedAt.Some? {
        CancellationStays(job, more[..k]);
      }
    }
  }

  lemma {:induction false} LifecycleStays(job: Job, more: seq<Handler>)
    requires LifecycleInv(job)
    ensures LifecycleInv(Exec(job, more))
  {
    if more != [] {
      LifecycleStays(job, more[..|more| - 1]);
      LifecycleKept(Exec(job, more[..|more| - 1]), more[|more| - 1]);
    }
  }

  /** What the read and the current job must look like for every late write to be safe. */
  lemma SafeWrites(current: Job, read: Job)
    requires LifecycleInv(current) && LifecycleInv(read)
    ensures (forall status, now :: WriteIsSafe(current, LateStatusWrite(current, read, status, now))) <==>
      || IsTerminal(read.row.status)
      || (!IsTerminal(current.row.status) && (current.cancelRequestedAt.Some? ==> read.cancelRequestedAt.Some?))
  {
    if !IsTerminal(read.row.status) {
      if IsTerminal(current.row.status) {
        assert !WriteIsSafe(current, LateStatusWrite(current, read, Running, 0));
      } else if current.cancelRequestedAt.Some? && read.cancelRequestedAt.None? {
        assert !WriteIsSafe(current, LateStatusWrite(current, read, Succeeded, 0));
      }
    }
  }

  /**
   A status callback whose write comes after the handlers `more` is safe, whatever it reports, exactly
   when the job was terminal when it was read or none of these handlers ended or cancelled the job.
   */
  lemma LateWriteHarmless(read: Job, key: EventKey, more: seq<Handler>)
    requires LifecycleInv(read)
    ensures
      var current := Exec(Logged(read, key), more);
      (forall status, now :: WriteIsSafe(current, LateStatusWrite(current, read, status, now)))
      <==> IsTerminal(read.row.status) || NoneIntervenes(Logged(read, key), more)
  {
    var logged := Logged(read, key);
    LifecycleStays(logged, more);
    SafeWrites(Exec(logged, more), read);
    if !IsTerminal(read.row.status) {
      if NoneIntervenes(logged, more) {
        LeftAlone(logged, more);
      } else {
        var k :| 0 <= k < |more| && Intervenes(Exec(logged, more[..k]), more[k]);
        InterventionShows(logged, more, k);
      }
    }
  }

  // ----- redelivery

  predicate IsCallback(h: Handler) {
    h.StatusCallback? || h.ProposalCallback? || h.CommandResultCallback? || h.ArtifactCallback?
  }

  predicate SameKind(h: Handler, h': Handler) {
    || (h.StatusCallback? && h'.StatusCallback?)
    || (h.ProposalCallback? && h'.ProposalCallback?)
    || (h.CommandResultCallback? && h'.CommandResultCallback?)
    || (h.ArtifactCallback? && h'.ArtifactCallback?)
  }

  /** The key has already taken effect for callbacks of this kind. */
  predicate Settled(job: Job, h: Handler)
    requires IsCallback(h)
  {
    if h.ProposalCallback? then Answered(job, h.key) else h.key in job.events
  }

  lemma {:induction false} SettledStays(job: Job, h: Handler, more: seq<Handler>)
    requires IsCallback(h) && Settled(job, h) && !OutputKey(job, h.key)
    ensures Settled(Exec(job, more), h) && !OutputKey(Exec(job, more), h.key)
  {
    if more != [] {
      SettledStays(job, h, more[..|more| - 1]);
      EventsKept(Exec(job, more[..|more| - 1]), more[|more| - 1], h.key);
    }
  }

  /** An accepted callback settles its key, whatever the key was used for before. */
  lemma AcceptedSettles(job: Job, h: Handler)
    requires IsCallback(h) && Accepted(job, h)
    ensures Settled(Apply(job, h), h) && (OutputKey(Apply(job, h), h.key) <==> OutputKey(job, h.key))
  {
  }

  lemma SettledIsInert(job: Job, h: Handler)
    requires IsCallback(h) && Settled(job, h)
    ensures Apply(job, h) == job
  {
  }

  ghost predicate InertAfter(job: Job, more: seq<Handler>, h: Handler) {
    Apply(Exec(job, more), h) == Exec(job, more)
  }

  /**
   Redelivery: after an accepted callback whose key no command-output event had recorded, any callback of
   the same kind and key, at any later point of any sequence of handlers, leaves the whole job as it is.
   */
  lemma KeyTakesEffectOnce(job: Job, h: Handler, more: seq<Handler>, h': Handler)
    requires IsCallback(h) && Accepted(job, h) && !OutputKey(job, h.key)
    requires SameKind(h, h') && h'.key == h.key
    ensures InertAfter(Apply(job, h), more, h')
  {
    AcceptedSettles(job, h);
    SettledStays(Apply(job, h), h, more);
    SettledIsInert(Exec(Apply(job, h), more), h');
  }

  /** A proposal under the key gives its output event an approval, and then another output event prunes it. */
  lemma KeyIsPruned(job: Job, h: Handler, other: EventKey)
    requires IsCallback(h) && Accepted(job, h) && OutputKey(job, h.key) && other !in job.events
    ensures
      var linked := Apply(job, ProposalCallback(0, true, h.key, h.lease, h.now));
      && h.key in linked.events
      && var prune := EventCallback(other, OutputEvent, linked.events[h.key].approvalId, {h.key}, h.lease, h.now);
         h.key !in Apply(linked, prune).events && Accepted(Apply(linked, prune), h)
  {
  }

  lemma UnrecordedKeyActs(job: Job, h: Handler)
    requires IsCallback(h) && Accepted(job, h) && h.key !in job.events
    ensures h.key in Apply(job, h).events
  {
  }

  lemma RecordedKeyKeepsRow(job: Job, h: Handler)
    requires IsCallback(h) && Accepted(job, h) && h.key in job.events
    ensures Accepted(Apply(job, h), h)
  {
  }

  /** Once the output event that recorded the key is pruned, the callback takes effect. */
  lemma PrunedKeyActs(job: Job, h: Handler) returns (more: seq<Handler>)
    requires IsCallback(h) && Accepted(job, h) && OutputKey(job, h.key)
    ensures !InertAfter(Apply(job, h), more, h)
  {
    AcceptedSettles(job, h);
    RecordedKeyKeepsRow(job, h);
    var after := Apply(job, h);
    var other := FreshText(after.events.Keys);
    KeyIsPruned(after, h, other);
    var link := ProposalCallback(0, true, h.key, h.lease, h.now);
    var approvalId := Apply(after, link).events[h.key].approvalId;
    var prune := EventCallback(other, OutputEvent, approvalId, {h.key}, h.lease, h.now);
    more := [link, prune];
    assert more[..1] == [link] && [link][..0] == [];
    assert Exec(after, [link]) == Apply(after, link);
    UnrecordedKeyActs(Exec(after, more), h);
  }

  /** Redelivery is inert at every later point exactly when no output event had recorded the key. */
  lemma KeyTakesEffectExactly(job: Job, h: Handler)
    requires IsCallback(h) && Accepted(job, h)
    ensures (forall more, h' :: SameKind(h, h') && h'.key == h.key ==> InertAfter(Apply(job, h), more, h'))
      <==> !OutputKey(job, h.key)
  {
    if OutputKey(job, h.key) {
      var more := PrunedKeyActs(job, h);
      assert SameKind(h, h);
    } else {
      forall more, h' | SameKind(h, h') && h'.key == h.key ensures InertAfter(Apply(job, h), more, h') {
        KeyTakesEffectOnce(job, h, more, h');
      }
    }
  }

  /**
   A callback under a key that any kind of event has recorded changes nothing at all, except for a
   proposal whose event does not lead to an approval yet: it links the event to the approval of its
   turn, and creates that approval exactly when the turn has none.
   */
  lemma RecordedKeyEffect(job: Job, h: Handler)
    requires IsCallback(h) && Accepted(job, h) && h.key in job.events
    ensures Apply(job, h) == job <==> !h.ProposalCallback? || Answered(job, h.key)
    ensures h.ProposalCallback? && !Answered(job, h.key) ==>
      var after := Apply(job, h);
      var linked := after.events[h.key].approvalId;
      && after == job.(approvals := after.approvals,
                       events := job.events[h.key := job.events[h.key].(approvalId := linked)])
      && linked.Some? && linked.value < |after.approvals| && after.approvals[linked.value].turnIndex == h.turnIndex
      && after.approvals ==
           if exists i :: 0 <= i < |job.approvals| && job.approvals[i].turnIndex == h.turnIndex then job.approvals
           else job.approvals + [Approval(h.turnIndex, Undecided)]
  {
    if h.ProposalCallback? && !Answered(job, h.key) {
      var after := Apply(job, h);
      assert Answered(after, h.key);
      if FindTurn(job.approvals, h.turnIndex).Some? {
        assert job.approvals[FindTurn(job.approvals, h.turnIndex).value].turnIndex == h.turnIndex;
      }
    }
  }

  /** A status report and a command proposal under one key both take effect. */
  lemma KeySharedAcrossKinds(job: Job, key: EventKey)
    requires Created(job) && job.row.status == Running
    ensures
      var reported := Apply(job, StatusCallback(Succeeded, key, None, 0));
      var proposed := Apply(reported, ProposalCallback(0, true, key, None, 0));
      reported.row.status == Succeeded && proposed.approvals == [Approval(0, Undecided)]
  {
  }

  // ----- the stored job

  class JobStore {
    var status: AiRunnerJobStatus
    var leaseId: Option<LeaseId>
    var leaseOwnerRunnerId: Option<RunnerId>
    var leaseExpiresAt: Option<Time>
    var jobType: JobType
    var cancelRequestedAt: Option<Time>
    var finishedAt: Option<Time>
    var leaseExpired: bool
    var events: map<EventKey, Event>
    var approvals: seq<Approval>
    var artifacts: seq<string>
    var readStops: nat
    var openStops: nat

    function LeaseRow(): Row
      reads this
    {
      Row(status, leaseId, leaseOwnerRunnerId, leaseExpiresAt)
    }

    function View(): Job
      reads this
    {
      Job(LeaseRow(), jobType, cancelRequestedAt, finishedAt, leaseExpired, events, approvals,
          artifacts, readStops, openStops)
    }

    constructor (approvalGranted: bool, dispatched: bool, shell: bool, now: Time)
      ensures Created(View())
      ensures dispatched ==> status == if approvalGranted then Running else ApprovalPending
      ensures !dispatched ==> status == Failed && finishedAt == Some(now)
    {
      status := if !dispatched then Failed else if approvalGranted then Running else ApprovalPending;
      finishedAt := if dispatched then None else Some(now);
      jobType := if shell then Shell else DesktopGoal;
      leaseId, leaseOwnerRunnerId, leaseExpiresAt, cancelRequestedAt := None, None, None, None;
      leaseExpired := false;
      events, approvals, artifacts, readStops, openStops := map[], [], [], 0, 0;
    }

    method RecordEvent(key: EventKey, event: Event) returns (created: bool)
      modifies this`events
      ensures created <==> key !in old(events)
      ensures events == Recorded(old(events), key, event)
    {
      created := key !in events;
      if created {
        events := events[key := event];
      }
    }

    method UpdateStatus(status': AiRunnerJobStatus, key: EventKey, lease: Option<LeaseId>, now: Time)
      returns (accepted: bool)
      modifies this`status, this`finishedAt, this`events
      ensures accepted <==> old(CallbackLeaseOk(LeaseRow(), lease, now))
      ensures View() == if accepted then ApplyStatus(old(View()), status', key, now) else old(View())
    {
      accepted := CallbackLeaseOk(LeaseRow(), lease, now);
      if !accepted { return; }
      var created := RecordEvent(key, Event(StatusEvent, None, None));
      if created {
        WriteReportedStatus(status', now);
      }
    }

    method WriteReportedStatus(status': AiRunnerJobStatus, now: Time)
      modifies this`status, this`finishedAt
      ensures old(IsTerminal(status)) ==> status == old(status) && finishedAt == old(finishedAt)
      ensures old(!IsTerminal(status)) ==>
        && status == (if cancelRequestedAt.Some? && IsTerminal(status') then Stopped else status')
        && finishedAt == (
             if !IsTerminal(status') || (cancelRequestedAt.Some? && status' != Stopped && old(finishedAt.Some?))
             then old(finishedAt) else Some(now))
    {
      if IsTerminal(status) { return; }
      if cancelRequestedAt.Some? && IsTerminal(status') && status' != Stopped {
        status := Stopped;
        if finishedAt.None? { finishedAt := Some(now); }
        return;
      }
      status := status';
      if IsTerminal(status') { finishedAt := Some(now); }
    }

    method ProposeCommand(turnIndex: nat, complete: bool, key: EventKey, lease: Option<LeaseId>, now: Time)
      returns (approval: Option<ApprovalId>)
      modifies this`events, this`approvals
      ensures approval.Some? <==> old(CallbackLeaseOk(LeaseRow(), lease, now)) && complete
      ensures View() == if approval.Some? then ApplyProposal(old(View()), turnIndex, key) else old(View())
      ensures approval.Some? ==> approval.value < |approvals| && events[key].approvalId == approval
    {
      if !CallbackLeaseOk(LeaseRow(), lease, now) || !complete { return None; }
      var created := RecordEvent(key, Event(ProposalEvent, None, None));
      if !created && events[key].approvalId.Some? && events[key].approvalId.value < |approvals| {
        return events[key].approvalId;
      }
      approval := FindTurn(approvals, turnIndex);
      if approval.None? {
        approval := Some(|approvals|);
        approvals := approvals + [Approval(turnIndex, Undecided)];
      }
      events := Linked(events, key, approval.value);
    }

    method ReportCommandResult(
      id: ApprovalId, requested: ApprovalStatus, key: EventKey, lease: Option<LeaseId>, now: Time)
      returns (accepted: bool)
      modifies this`events, this`approvals
      ensures accepted <==> id < |old(approvals)| && old(CallbackLeaseOk(LeaseRow(), lease, now))
      ensures View() == if accepted then ApplyCommandResult(old(View()), id, requested, key) else old(View())
    {
      accepted := id < |approvals| && CallbackLeaseOk(LeaseRow(), lease, now);
      if !accepted { return; }
      var created := RecordEvent(key, Event(CommandResultEvent, Some(id), None));
      if created {
        approvals := approvals[id := approvals[id].(status := ExecutionStatus(requested))];
      }
    }

    method AppendArtifact(name: string, hasContent: bool, key: EventKey, lease: Option<LeaseId>, now: Time)
      returns (accepted: bool)
      modifies this`events, this`artifacts
      ensures accepted <==> old(CallbackLeaseOk(LeaseRow(), lease, now)) && hasContent
      ensures View() == if accepted then ApplyArtifact(old(View()), name, key) else old(View())
    {
      accepted := CallbackLeaseOk(LeaseRow(), lease, now) && hasContent;
      if !accepted { return; }
      var created := RecordEvent(key, Event(ArtifactEvent, None, None));
      if created {
        events := events[key := events[key].(artifactId := Some(|artifacts|))];
        artifacts := artifacts + [name];
      }
    }

    /** Records an event of the runner; older output events of the list may go, and no other event. */
    method AppendEvent(
      key: EventKey, kind: EventType, approvalId: Option<ApprovalId>, beyond: set<EventKey>,
      lease: Option<LeaseId>, now: Time)
      returns (accepted: bool)
      modifies this`events
      ensures accepted <==> CallbackLeaseOk(LeaseRow(), lease, now)
      ensures View() == if accepted then ApplyEvent(old(View()), key, kind, approvalId, beyond) else old(View())
      ensures accepted ==> key in events
      ensures forall k ::
        k in old(events) && !old(events)[k].kind.OutputEvent? ==> k in events && events[k] == old(events)[k]
    {
      accepted := CallbackLeaseOk(LeaseRow(), lease, now);
      if !accepted { return; }
      var link := if approvalId.Some? && approvalId.value < |approvals| then approvalId else None;
      var created := RecordEvent(key, Event(kind, link, None));
      if created && kind.OutputEvent? && link.Some? {
        events := Pruned(events, link.value, beyond - {key});
      }
    }

    method DecideApproval(id: ApprovalId, from: set<ApprovalStatus>, to: ApprovalStatus) returns (decided: bool)
      modifies this`approvals
      ensures decided <==> id < |old(approvals)| && old(approvals)[id].status in from
      ensures View() == ApplyDecision(old(View()), id, from, to)
      ensures to !in from ==> !(id < |approvals| && approvals[id].status in from)
    {
      decided := id < |approvals| && approvals[id].status in from;
      if decided {
        approvals := approvals[id := approvals[id].(status := to)];
      }
    }

    method TransferJobToDesktop(id: ApprovalId, key: EventKey) returns (transferred: bool)
      modifies this`status, this`jobType, this`events, this`approvals
      ensures View() == ApplyTransfer(old(View()), id, key)
      ensures transferred <==> jobType != old(jobType)
      ensures transferred ==> old(key !in events) ==> Answered(View(), key) && events[key].approvalId == Some(id)
    {
      transferred := id < |approvals| && jobType == Shell && IsActive(status)
        && approvals[id].status in {Undecided, Approved};
      if !transferred { return; }
      approvals := approvals[id := approvals[id].(status := DesktopControlRequested)];
      jobType, status := DesktopGoal, Running;
      var _ := RecordEvent(key, Event(SystemEvent, Some(id), None));
    }

    method SettleOpenApprovals()
      modifies this`approvals
      ensures |approvals| == |old(approvals)|
      ensures forall i :: 0 <= i < |approvals| ==> approvals[i] == SettledApproval(old(approvals)[i])
    {
      for k := 0 to |approvals|
        invariant |approvals| == |old(approvals)|
        invariant forall i :: 0 <= i < k ==> approvals[i] == SettledApproval(old(approvals)[i])
        invariant forall i :: k <= i < |approvals| ==> approvals[i] == old(approvals)[i]
      {
        var a := approvals[k];
        if a.status in {Undecided, Approved, Executing} {
          approvals := approvals[k := a.(status := if a.status == Executing then ExecutionFailed else Denied)];
        }
      }
    }

    method RequestStop() returns (requested: bool)
      modifies this`readStops
      ensures requested <==> !IsTerminal(status)
      ensures View() == ApplyRequestStop(old(View()))
    {
      requested := !IsTerminal(status);
      if requested {
        readStops := readStops + 1;
      }
    }

    /** The first write of a stop request; afterwards the job is cancelled or over, with no open approval. */
    method BeginStop(key: EventKey, now: Time)
      requires readStops > 0
      modifies this`status, this`cancelRequestedAt, this`events, this`approvals, this`readStops, this`openStops
      ensures View() == ApplyRecordStop(old(View()), key, now)
      ensures cancelRequestedAt.Some? || IsTerminal(status)
      ensures forall i :: 0 <= i < |approvals| ==> approvals[i].status !in {Undecided, Approved, Executing}
    {
      ActiveIsNotTerminal(status);
      if IsActive(status) {
        cancelRequestedAt, status := Some(now), Stopping;
      }
      var _ := RecordEvent(key, Event(SystemEvent, None, None));
      SettleOpenApprovals();
      readStops, openStops := readStops - 1, openStops + 1;
    }

    /** The second write of a stop request; afterwards the job is over or stopping. */
    method EndStop(stoppedRemotely: bool, now: Time)
      requires openStops > 0
      modifies this`status, this`finishedAt, this`openStops
      ensures View() == ApplyFinishStop(old(View()), stoppedRemotely, now)
      ensures IsTerminal(status) || (status == Stopping && !stoppedRemotely)
      ensures old(IsTerminal(status)) ==> status == old(status) && finishedAt == old(finishedAt)
    {
      ActiveIsNotTerminal(status);
      openStops := openStops - 1;
      if IsActive(status) {
        if stoppedRemotely {
          status, finishedAt := Stopped, Some(now);
        } else {
          status := Stopping;
        }
      }
    }

    method ReconcileExpiredLease(expired: LeaseId, key: EventKey, now: Time) returns (reconciled: bool)
      modifies this
      ensures reconciled <==> old(ReconcileGuard(LeaseRow(), expired, now))
      ensures View() == ApplyReconcile(old(View()), expired, key, now)
      ensures reconciled ==> IsTerminal(status) && forall t :: !CallbackLeaseOk(LeaseRow(), Some(expired), t)
    {
      reconciled := ReconcileGuard(LeaseRow(), expired, now);
      if !reconciled { return; }
      var _ := RecordEvent(key, Event(SystemEvent, None, None));
      status, finishedAt, leaseExpired := Failed, Some(now), true;
      leaseId, leaseOwnerRunnerId, leaseExpiresAt := None, None, None;
    }

    method WriteClaim(r: RunnerId, freshId: LeaseId, expiresAt: Time)
      modifies this`leaseId, this`leaseOwnerRunnerId, this`leaseExpiresAt, this`leaseExpired
      ensures LeaseRow() == Row(old(status), Some(freshId), Some(r), Some(expiresAt)) && !leaseExpired
    {
      leaseId, leaseOwnerRunnerId, leaseExpiresAt := Some(freshId), Some(r), Some(expiresAt);
      leaseExpired := false;
    }

    method AcquireJobLease(r: RunnerId, freshId: LeaseId, key: EventKey, now: Time, ttlMs: int)
      returns (grant: Option<Grant>)
      modifies this`leaseId, this`leaseOwnerRunnerId, this`leaseExpiresAt, this`leaseExpired, this`events
      ensures View() == ApplyAcquire(old(View()), r, freshId, key, now, ttlMs)
      ensures grant.Some? <==>
        !IsTerminal(status) && leaseOwnerRunnerId == Some(r) && ActiveLeaseId(LeaseRow(), now).Some?
      ensures grant.Some? ==> leaseId == Some(grant.value.leaseId) && leaseExpiresAt == Some(grant.value.expiresAt)
    {
      if IsTerminal(status) { return None; }
      var active := ActiveLeaseId(LeaseRow(), now);
      if active.Some? {
        return if leaseOwnerRunnerId == Some(r) then Some(Grant(active.value, leaseExpiresAt.value)) else None;
      }
      var expiresAt := now + EffectiveTtl(ttlMs);
      WriteClaim(r, freshId, expiresAt);
      var _ := RecordEvent(key, Event(SystemEvent, None, None));
      grant := Some(Grant(freshId, expiresAt));
    }

    method HeartbeatJobLease(lease: LeaseId, r: RunnerId, now: Time, ttlMs: int) returns (kept: bool)
      modifies this`leaseExpiresAt
      ensures View() == ApplyHeartbeat(old(View()), lease, r, now, ttlMs)
      ensures kept ==> ActiveLeaseId(LeaseRow(), now) == Some(lease)
      ensures kept <==> old(HeartbeatGuard(LeaseRow(), lease, r, now))
    {
      kept := HeartbeatGuard(LeaseRow(), lease, r, now);
      if kept {
        leaseExpiresAt := Some(now + EffectiveTtl(ttlMs));
      }
    }

    method ReleaseJobLease(lease: LeaseId, r: RunnerId, key: EventKey) returns (released: bool)
      modifies this`leaseId, this`leaseOwnerRunnerId, this`leaseExpiresAt, this`events
      ensures View() == ApplyRelease(old(View()), lease, r, key)
      ensures released <==> old(leaseId == Some(lease) && leaseOwnerRunnerId == Some(r))
      ensures released ==> forall t :: !CallbackLeaseOk(LeaseRow(), Some(lease), t)
    {
      released := leaseId == Some(lease) && leaseOwnerRunnerId == Some(r);
      if released {
        leaseId, leaseOwnerRunnerId, leaseExpiresAt := None, None, None;
        var _ := RecordEvent(key, Event(SystemEvent, None, None));
      }
    }
  }

  // ----- the handlers and the steps of the lease protocol

  /** The acquire call run without interruption: read, clock, compare-and-set, answer. */
  function AcquireUninterrupted(s: State, c: CallId, r: RunnerId, freshId: LeaseId, ttlMs: int): State
    requires c !in s.calls && freshId !in s.issued
  {
    var read := Next(s, BeginAcquire(c, r, ttlMs));
    var decided := Next(read, DecideAcquire(c, freshId));
    var claimed := if decided.calls[c].AcquireClaim? then Next(decided, Leases.ClaimLease(c)) else decided;
    Next(claimed, Deliver(c))
  }

  /** Uninterrupted, the four steps of the protocol do to the row what the whole handler does. */
  lemma AcquireStepsAreHandler(
    s: State, job: Job, c: CallId, r: RunnerId, freshId: LeaseId, key: EventKey, ttlMs: int)
    requires c !in s.calls && c !in s.abandoned && freshId !in s.issued && job.row == s.row
    ensures
      var s' := AcquireUninterrupted(s, c, r, freshId, ttlMs);
      && s'.row == ApplyAcquire(job, r, freshId, key, s.clock, ttlMs).row
      && (!IsTerminal(s.row.status) && ActiveLeaseId(s.row, s.clock).None? ==>
            s'.held == s.held[r := Grant(freshId, s.clock + EffectiveTtl(ttlMs))])
  {
    ActiveIsNotTerminal(s.row.status);
  }

  /** The same for a heartbeat, a release and a reconcile. */
  lemma OtherStepsAreHandlers(
    s: State, job: Job, c: CallId, r: RunnerId, leaseId: LeaseId, key: EventKey, now: Time, ttlMs: int)
    requires c !in s.calls && job.row == s.row && now <= s.clock
    ensures Next(Next(s, BeginHeartbeat(c, r, leaseId, ttlMs)), CommitHeartbeat(c)).row
         == ApplyHeartbeat(job, leaseId, r, s.clock, ttlMs).row
    ensures Next(Next(s, BeginRelease(c, r, leaseId)), CommitRelease(c)).row
         == ApplyRelease(job, leaseId, r, key).row
    ensures Next(s, Reconcile(leaseId, now)).row == ApplyReconcile(job, leaseId, key, now).row
  {
  }
}
