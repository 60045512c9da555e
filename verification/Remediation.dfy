/**
 The remediation status machine: a job owns numbered steps, agents report the status of one step or,
 through aggregate evidence, of all of them, and the job's status is derived from the steps.
 */
module Remediation {
  import opened Common

  type Time = int

  /** The text of a status column; `Other` is any text the machine gives no meaning. */
  datatype Status = Pending | Running | Completed | Failed | Cancelled | Other(text: string)

  predicate IsTerminal(s: Status) {
    s.Completed? || s.Failed? || s.Cancelled?
  }

  type Reportable = s: Status | s.Running? || IsTerminal(s) witness Running

  datatype Step = Step(index: nat, status: Status, startedAt: Option<Time>, finishedAt: Option<Time>)

  datatype Job = Job(status: Status, startedAt: Option<Time>, finishedAt: Option<Time>, steps: seq<Step>)

  /** An element of the evidence's `steps` array. */
  datatype Entry = NotObject | Entry(stepIndex: Option<nat>, status: Option<Status>)

  /** Evidence without a `steps` property, with one that is not an array, or with an array. */
  datatype Evidence =
    | NoSteps(status: Option<Status>, stepIndex: Option<nat>)
    | StepsNotArray
    | Steps(entries: seq<Entry>)

  datatype Report = Report(status: Reportable, stepIndex: nat, evidence: Evidence)

  datatype Outcome =
    | Updated(jobStatus: Status)
    | Conflict(currentStatus: Status)
    | StepNotFound
    | StepConflict(stepStatus: Status)
    | InvalidEvidence

  datatype Projection = Direct | Invalid | Aggregate(statuses: seq<Status>)

  predicate StepTransitionAllowed(current: Status, next: Reportable) {
    current == next || current.Pending? || (current.Running? && IsTerminal(next))
  }

  function DeriveJobStatus(statuses: seq<Status>): Reportable {
    if exists s :: s in statuses && !IsTerminal(s) then Running
    else if Failed in statuses then Failed
    else if Cancelled in statuses then Cancelled
    else Completed
  }

  function Statuses(steps: seq<Step>): (r: seq<Status>)
    ensures |r| == |steps|
    ensures forall i :: 0 <= i < |steps| ==> r[i] == steps[i].status
  {
    seq(|steps|, i requires 0 <= i < |steps| => steps[i].status)
  }

  predicate HasStep(steps: seq<Step>, index: nat) {
    exists i :: 0 <= i < |steps| && steps[i].index == index
  }

  /** Steps are read in ascending order of their unique index. */
  ghost predicate Ordered(steps: seq<Step>) {
    forall i, j :: 0 <= i < j < |steps| ==> steps[i].index < steps[j].index
  }

  // ----- aggregate evidence

  predicate EntryAccepted(e: Entry, steps: seq<Step>, seen: map<nat, Status>) {
    && e.Entry? && e.stepIndex.Some? && e.status.Some?
    && IsTerminal(e.status.value)
    && HasStep(steps, e.stepIndex.value)
    && e.stepIndex.value !in seen
  }

  /** The statuses the entries report by step, unless one entry is malformed, unknown or repeated. */
  function Collected(entries: seq<Entry>, steps: seq<Step>): (r: Option<map<nat, Status>>)
    ensures r.Some? ==> forall k :: k in r.value ==> IsTerminal(r.value[k])
  {
    if entries == [] then Some(map[])
    else
      var n := |entries| - 1;
      var seen := Collected(entries[..n], steps);
      if seen.Some? && EntryAccepted(entries[n], steps, seen.value)
      then Some(seen.value[entries[n].stepIndex.value := entries[n].status.value])
      else None
  }

  function ProjectedStatus(reported: map<nat, Status>, step: Step): Status {
    if step.index in reported then reported[step.index] else Cancelled
  }

  function ProjectedStatuses(reported: map<nat, Status>, steps: seq<Step>): (r: seq<Status>)
    ensures |r| == |steps|
    ensures forall i :: 0 <= i < |steps| ==> r[i] == ProjectedStatus(reported, steps[i])
  {
    seq(|steps|, i requires 0 <= i < |steps| => ProjectedStatus(reported, steps[i]))
  }

  /** The step may move where the evidence puts it; only a job that did not complete may omit a step. */
  predicate StepProjects(reported: map<nat, Status>, status: Status, step: Step) {
    && (step.index in reported || !status.Completed?)
    && (step.status == ProjectedStatus(reported, step) || step.status.Pending? || step.status.Running?)
  }

  function Projected(evidence: Evidence, status: Reportable, stepIndex: nat, steps: seq<Step>): Projection {
    match evidence
    case NoSteps(evidenceStatus, evidenceIndex) =>
      if evidenceStatus.Some? && evidenceStatus.value != status then Invalid
      else if evidenceIndex.Some? && evidenceIndex.value != stepIndex then Invalid
      else Direct
    case StepsNotArray => Invalid
    case Steps(entries) =>
      var reported := Collected(entries, steps);
      if reported.None? || stepIndex !in reported.value then Invalid
      else if exists i :: 0 <= i < |steps| && !StepProjects(reported.value, status, steps[i]) then Invalid
      else if DeriveJobStatus(ProjectedStatuses(reported.value, steps)) != status then Invalid
      else Aggregate(ProjectedStatuses(reported.value, steps))
  }

  // ----- the transition

  function MovedStep(step: Step, status: Status, now: Time): Step {
    Step(step.index, status, Coalesce(step.startedAt, Some(now)),
         if IsTerminal(status) then Coalesce(step.finishedAt, Some(now)) else step.finishedAt)
  }

  function FindStep(steps: seq<Step>, index: nat): (r: Option<nat>)
    ensures r.Some? ==> r.value < |steps| && steps[r.value].index == index
    ensures r.None? <==> !HasStep(steps, index)
  {
    if steps == [] then None
    else
      var n := |steps| - 1;
      var earlier := FindStep(steps[..n], index);
      assert steps == steps[..n] + [steps[n]];
      if earlier.Some? then earlier else if steps[n].index == index then Some(n) else None
  }

  function MovedSteps(steps: seq<Step>, statuses: seq<Status>, now: Time): (r: seq<Step>)
    requires |statuses| == |steps|
    ensures |r| == |steps|
    ensures forall i :: 0 <= i < |steps| ==> r[i] == MovedStep(steps[i], statuses[i], now)
  {
    seq(|steps|, i requires 0 <= i < |steps| => MovedStep(steps[i], statuses[i], now))
  }

  function WithSteps(job: Job, steps: seq<Step>, now: Time): Job {
    var status := DeriveJobStatus(Statuses(steps));
    var finishedAt := if IsTerminal(status) then Coalesce(job.finishedAt, Some(now)) else job.finishedAt;
    Job(status, Coalesce(job.startedAt, Some(now)), finishedAt, steps)
  }

  function ProjectionOf(job: Job, report: Report): Projection {
    if IsTerminal(report.status) then Projected(report.evidence, report.status, report.stepIndex, job.steps) else Direct
  }

  function OutcomeOf(job: Job, report: Report, now: Time): Outcome {
    var target := FindStep(job.steps, report.stepIndex);
    if job.status != report.status && !job.status.Running? then Conflict(job.status)
    else if target.None? then StepNotFound
    else if !StepTransitionAllowed(job.steps[target.value].status, report.status) then
      StepConflict(job.steps[target.value].status)
    else if ProjectionOf(job, report).Invalid? then InvalidEvidence
    else Updated(NewJob(job, report, now).status)
  }

  function NewJob(job: Job, report: Report, now: Time): Job
    requires FindStep(job.steps, report.stepIndex).Some? && !ProjectionOf(job, report).Invalid?
  {
    var projection := ProjectionOf(job, report);
    if projection.Aggregate? then
      WithSteps(job, MovedSteps(job.steps, projection.statuses, now), now)
    else
      var k := FindStep(job.steps, report.stepIndex).value;
      WithSteps(job, job.steps[k := MovedStep(job.steps[k], report.status, now)], now)
  }

  function Transition(job: Job, report: Report, now: Time): Job {
    if OutcomeOf(job, report, now).Updated? then NewJob(job, report, now) else job
  }

  // ----- the stored job

  /** Reads the evidence entries one by one, as the handler does. */
  method CollectEntries(entries: seq<Entry>, steps: seq<Step>) returns (reported: Option<map<nat, Status>>)
    ensures reported == Collected(entries, steps)
  {
    var seen: map<nat, Status> := map[];
    for k := 0 to |entries|
      invariant Collected(entries[..k], steps) == Some(seen)
    {
      assert entries[..k + 1][..k] == entries[..k];
      if !EntryAccepted(entries[k], steps, seen) {
        CollectedPrefix(entries, steps, k + 1);
        return None;
      }
      seen := seen[entries[k].stepIndex.value := entries[k].status.value];
    }
    assert entries[..|entries|] == entries;
    reported := Some(seen);
  }

  lemma {:induction false} CollectedPrefix(entries: seq<Entry>, steps: seq<Step>, k: nat)
    requires k <= |entries| && Collected(entries[..k], steps).None?
    ensures Collected(entries, steps).None?
    decreases |entries|
  {
    if k < |entries| {
      var n := |entries| - 1;
      assert entries[..n][..k] == entries[..k];
      CollectedPrefix(entries[..n], steps, k);
    } else {
      assert entries[..k] == entries;
    }
  }

  /** The entries are read exactly when each is a terminal status of a known step and no step repeats. */
  lemma {:induction false} CollectedExactly(entries: seq<Entry>, steps: seq<Step>)
    ensures Collected(entries, steps).Some? <==>
      && (forall i :: 0 <= i < |entries| ==> EntryAccepted(entries[i], steps, map[]))
      && (forall i, j :: 0 <= i < j < |entries| ==> entries[i].stepIndex != entries[j].stepIndex)
    ensures Collected(entries, steps).Some? ==>
      && (forall i :: 0 <= i < |entries| ==>
            entries[i].stepIndex.value in Collected(entries, steps).value
            && Collected(entries, steps).value[entries[i].stepIndex.value] == entries[i].status.value)
      && (forall k :: k in Collected(entries, steps).value ==>
            exists i :: 0 <= i < |entries| && entries[i].stepIndex == Some(k))
  {
    if entries != [] {
      var n := |entries| - 1;
      CollectedExactly(entries[..n], steps);
      assert forall i :: 0 <= i < n ==> entries[..n][i] == entries[i];
      var seen := Collected(entries[..n], steps);
      if seen.Some? && EntryAccepted(entries[n], steps, map[]) && entries[n].stepIndex.value in seen.value {
        var i :| 0 <= i < n && entries[..n][i].stepIndex == Some(entries[n].stepIndex.value);
        assert entries[i].stepIndex == entries[n].stepIndex;
      }
    }
  }

  method TerminalStepProjection(evidence: Evidence, status: Reportable, stepIndex: nat, steps: seq<Step>)
    returns (p: Projection)
    requires IsTerminal(status)
    ensures p == Projected(evidence, status, stepIndex, steps)
  {
    if evidence.NoSteps? {
      if evidence.status.Some? && evidence.status.value != status { return Invalid; }
      if evidence.stepIndex.Some? && evidence.stepIndex.value != stepIndex { return Invalid; }
      return Direct;
    }
    if evidence.StepsNotArray? { return Invalid; }
    var reported := CollectEntries(evidence.entries, steps);
    if reported.None? || stepIndex !in reported.value { return Invalid; }
    var projected: seq<Status> := [];
    for k := 0 to |steps|
      invariant |projected| == k
      invariant forall i :: 0 <= i < k ==> projected[i] == ProjectedStatus(reported.value, steps[i])
      invariant forall i :: 0 <= i < k ==> StepProjects(reported.value, status, steps[i])
    {
      var step := steps[k];
      if step.index in reported.value {
        if !StepTransitionAllowed(step.status, reported.value[step.index]) { return Invalid; }
        projected := projected + [reported.value[step.index]];
        continue;
      }
      if status == Completed || !StepTransitionAllowed(step.status, Cancelled) { return Invalid; }
      projected := projected + [Cancelled];
    }
    assert projected == ProjectedStatuses(reported.value, steps);
    if DeriveJobStatus(projected) != status { return Invalid; }
    p := Aggregate(projected);
  }

  class RemediationStore {
    var status: Status
    var startedAt: Option<Time>
    var finishedAt: Option<Time>
    var steps: seq<Step>

    function View(): Job
      reads this
    {
      Job(status, startedAt, finishedAt, steps)
    }

    /** Writes the projected status of every step, in step order. */
    method WriteAggregate(statuses: seq<Status>, now: Time)
      requires |statuses| == |steps|
      modifies this`steps
      ensures steps == MovedSteps(old(steps), statuses, now)
    {
      for k := 0 to |steps|
        invariant |steps| == |old(steps)|
        invariant forall i :: 0 <= i < k ==> steps[i] == MovedStep(old(steps)[i], statuses[i], now)
        invariant forall i :: k <= i < |steps| ==> steps[i] == old(steps)[i]
      {
        steps := steps[k := MovedStep(steps[k], statuses[k], now)];
      }
    }

    method TransitionRemediationStatus(report: Report, now: Time) returns (outcome: Outcome)
      modifies this
      ensures outcome == OutcomeOf(old(View()), report, now)
      ensures View() == Transition(old(View()), report, now)
    {
      if status != report.status && status != Running { return Conflict(status); }
      var target := FindStep(steps, report.stepIndex);
      if target.None? { return StepNotFound; }
      if !StepTransitionAllowed(steps[target.value].status, report.status) {
        return StepConflict(steps[target.value].status);
      }
      var projection := Direct;
      if IsTerminal(report.status) {
        projection := TerminalStepProjection(report.evidence, report.status, report.stepIndex, steps);
      }
      if projection.Invalid? { return InvalidEvidence; }
      if projection.Aggregate? {
        WriteAggregate(projection.statuses, now);
      } else {
        steps := steps[target.value := MovedStep(steps[target.value], report.status, now)];
      }
      status := DeriveJobStatus(Statuses(steps));
      startedAt := Coalesce(startedAt, Some(now));
      if IsTerminal(status) {
        finishedAt := Coalesce(finishedAt, Some(now));
      }
      outcome := Updated(status);
    }
  }

  // ----- what every report keeps

  /** A running job with at least one step, all pending. */
  ghost predicate Initial(job: Job) {
    && job.status.Running? && job.finishedAt.None?
    && |job.steps| > 0 && Ordered(job.steps)
    && forall i :: 0 <= i < |job.steps| ==>
         job.steps[i].status.Pending? && job.steps[i].startedAt.None? && job.steps[i].finishedAt.None?
  }

  predicate StepInv(step: Step) {
    && (step.status.Pending? || step.status.Running? || IsTerminal(step.status))
    && (step.startedAt.Some? <==> !step.status.Pending?)
    && (step.finishedAt.Some? <==> IsTerminal(step.status))
  }

  ghost predicate Inv(job: Job) {
    && |job.steps| > 0 && Ordered(job.steps)
    && (forall i :: 0 <= i < |job.steps| ==> StepInv(job.steps[i]))
    && job.status == DeriveJobStatus(Statuses(job.steps))
    && (job.finishedAt.Some? <==> IsTerminal(job.status))
    && ((exists i :: 0 <= i < |job.steps| && !job.steps[i].status.Pending?) ==> job.startedAt.Some?)
  }

  predicate AllTerminal(steps: seq<Step>) {
    forall i :: 0 <= i < |steps| ==> IsTerminal(steps[i].status)
  }

  lemma DeriveTerminal(steps: seq<Step>)
    ensures IsTerminal(DeriveJobStatus(Statuses(steps))) <==> AllTerminal(steps)
  {
    var statuses := Statuses(steps);
    if !AllTerminal(steps) {
      var i :| 0 <= i < |steps| && !IsTerminal(steps[i].status);
      assert statuses[i] in statuses;
    }
  }

  /** What an accepted report does to one step: it stays, or it moves forward to a reported status. */
  predicate StepMoved(before: Step, after: Step, now: Time) {
    || after == before
    || (after == MovedStep(before, after.status, now)
        && (before.status == after.status || before.status.Pending?
            || (before.status.Running? && IsTerminal(after.status)))
        && (after.status.Running? || IsTerminal(after.status)))
  }

  lemma StepsMove(job: Job, report: Report, now: Time, i: nat)
    requires i < |job.steps|
    ensures |Transition(job, report, now).steps| == |job.steps|
    ensures StepMoved(job.steps[i], Transition(job, report, now).steps[i], now)
  {
    if OutcomeOf(job, report, now).Updated? && ProjectionOf(job, report).Aggregate? {
      var reported := Collected(report.evidence.entries, job.steps).value;
      assert StepProjects(reported, report.status, job.steps[i]);
    }
  }

  lemma WithStepsInv(job: Job, steps: seq<Step>, now: Time)
    requires Inv(job) && |steps| == |job.steps|
    requires forall i :: 0 <= i < |steps| ==> StepMoved(job.steps[i], steps[i], now)
    ensures Inv(WithSteps(job, steps, now))
  {
    forall i | 0 <= i < |steps| ensures StepInv(steps[i]) && steps[i].index == job.steps[i].index {
      assert StepInv(job.steps[i]) && StepMoved(job.steps[i], steps[i], now);
    }
    DeriveTerminal(job.steps);
    DeriveTerminal(steps);
    if AllTerminal(job.steps) {
      forall i | 0 <= i < |steps| ensures IsTerminal(steps[i].status) {
        assert StepMoved(job.steps[i], steps[i], now);
      }
    }
  }

  lemma InvKept(job: Job, report: Report, now: Time)
    requires Inv(job)
    ensures Inv(Transition(job, report, now))
  {
    if OutcomeOf(job, report, now).Updated? {
      var steps := Transition(job, report, now).steps;
      forall i | 0 <= i < |job.steps| ensures |steps| == |job.steps| && StepMoved(job.steps[i], steps[i], now) {
        StepsMove(job, report, now, i);
      }
      WithStepsInv(job, steps, now);
    }
  }

  lemma TerminalStepKept(job: Job, report: Report, now: Time, i: nat)
    requires Inv(job) && i < |job.steps| && IsTerminal(job.steps[i].status)
    ensures |Transition(job, report, now).steps| == |job.steps|
    ensures Transition(job, report, now).steps[i] == job.steps[i]
  {
    StepsMove(job, report, now, i);
    assert StepInv(job.steps[i]);
  }

  // ----- every run of reports

  datatype Delivery = Delivery(report: Report, now: Time)

  function Exec(job: Job, ds: seq<Delivery>): Job {
    if ds == [] then job
    else
      var n := |ds| - 1;
      Transition(Exec(job, ds[..n]), ds[n].report, ds[n].now)
  }

  lemma {:induction false} InvAlways(job: Job, ds: seq<Delivery>)
    requires Inv(job)
    ensures Inv(Exec(job, ds))
  {
    if ds != [] {
      var n := |ds| - 1;
      InvAlways(job, ds[..n]);
      InvKept(Exec(job, ds[..n]), ds[n].report, ds[n].now);
    }
  }

  lemma InitialInv(job: Job)
    requires Initial(job)
    ensures Inv(job)
  {
    assert Statuses(job.steps)[0] in Statuses(job.steps);
  }

  /** After any run the job's status is the one its steps derive, and the finish times follow. */
  lemma JobFollowsSteps(job: Job, ds: seq<Delivery>)
    requires Initial(job)
    ensures
      var end := Exec(job, ds);
      && end.status == DeriveJobStatus(Statuses(end.steps))
      && (IsTerminal(end.status) <==> AllTerminal(end.steps))
      && (end.finishedAt.Some? <==> IsTerminal(end.status))
      && forall i :: 0 <= i < |end.steps| ==> StepInv(end.steps[i])
  {
    InitialInv(job);
    InvAlways(job, ds);
    DeriveTerminal(Exec(job, ds).steps);
  }

  /** A terminal step never changes again: neither its status nor its times. */
  lemma {:induction false} TerminalStepIsFinal(job: Job, ds: seq<Delivery>, i: nat)
    requires Inv(job) && i < |job.steps| && IsTerminal(job.steps[i].status)
    ensures |Exec(job, ds).steps| == |job.steps|
    ensures Exec(job, ds).steps[i] == job.steps[i]
  {
    if ds != [] {
      var n := |ds| - 1;
      TerminalStepIsFinal(job, ds[..n], i);
      InvAlways(job, ds[..n]);
      TerminalStepKept(Exec(job, ds[..n]), ds[n].report, ds[n].now, i);
    }
  }

  lemma TerminalJobKept(job: Job, report: Report, now: Time)
    requires Inv(job) && IsTerminal(job.status)
    ensures Transition(job, report, now) == job
  {
    DeriveTerminal(job.steps);
    var job' := Transition(job, report, now);
    TerminalStepKept(job, report, now, 0);
    forall i | 0 <= i < |job.steps| ensures job'.steps[i] == job.steps[i] {
      TerminalStepKept(job, report, now, i);
    }
    assert job'.steps == job.steps;
    assert !job.steps[0].status.Pending?;
  }

  /** A terminal job never changes again. */
  lemma {:induction false} TerminalJobIsFinal(job: Job, ds: seq<Delivery>)
    requires Inv(job) && IsTerminal(job.status)
    ensures Exec(job, ds) == job
  {
    if ds != [] {
      var n := |ds| - 1;
      TerminalJobIsFinal(job, ds[..n]);
      TerminalJobKept(job, ds[n].report, ds[n].now);
    }
  }

  /** An accepted aggregate report ends every step, and the job at exactly the reported status. */
  lemma AggregateEndsJob(job: Job, report: Report, now: Time)
    requires OutcomeOf(job, report, now).Updated? && ProjectionOf(job, report).Aggregate?
    ensures AllTerminal(Transition(job, report, now).steps)
    ensures Transition(job, report, now).status == report.status
    ensures OutcomeOf(job, report, now) == Updated(report.status)
  {
    var statuses := ProjectionOf(job, report).statuses;
    assert Statuses(MovedSteps(job.steps, statuses, now)) == statuses;
  }

  // ----- replay

  /** The job already carries everything the report can say. */
  ghost predicate Absorbed(job: Job, report: Report) {
    && Inv(job)
    && (!ProjectionIsDirect(report) ==> AllTerminal(job.steps))
    && forall i :: 0 <= i < |job.steps| && job.steps[i].index == report.stepIndex ==>
         job.steps[i].status == report.status || IsTerminal(job.steps[i].status)
  }

  predicate ProjectionIsDirect(report: Report) {
    report.status.Running? || report.evidence.NoSteps?
  }

  lemma AcceptedIsAbsorbed(job: Job, report: Report, now: Time)
    requires Inv(job) && OutcomeOf(job, report, now).Updated?
    ensures Absorbed(Transition(job, report, now), report)
  {
    InvKept(job, report, now);
    if ProjectionOf(job, report).Aggregate? {
      AggregateEndsJob(job, report, now);
    }
  }

  lemma AbsorbedKept(job: Job, report: Report, d: Delivery)
    requires Absorbed(job, report)
    ensures Absorbed(Transition(job, d.report, d.now), report)
  {
    InvKept(job, d.report, d.now);
    StepsMove(job, d.report, d.now, 0);
    forall i | 0 <= i < |job.steps|
      ensures StepMoved(job.steps[i], Transition(job, d.report, d.now).steps[i], d.now)
    {
      StepsMove(job, d.report, d.now, i);
    }
  }

  lemma AbsorbedIsInert(job: Job, report: Report, now: Time)
    requires Absorbed(job, report)
    ensures Transition(job, report, now) == job
  {
    DeriveTerminal(job.steps);
    if IsTerminal(job.status) {
      TerminalJobKept(job, report, now);
    } else if OutcomeOf(job, report, now).Updated? {
      var k := FindStep(job.steps, report.stepIndex).value;
      assert StepInv(job.steps[k]);
      assert MovedStep(job.steps[k], report.status, now) == job.steps[k];
      assert job.steps[k := job.steps[k]] == job.steps;
      assert !job.steps[k].status.Pending?;
    }
  }

  lemma {:induction false} AbsorbedStays(job: Job, report: Report, ds: seq<Delivery>)
    requires Absorbed(job, report)
    ensures Absorbed(Exec(job, ds), report)
  {
    if ds != [] {
      var n := |ds| - 1;
      AbsorbedStays(job, report, ds[..n]);
      AbsorbedKept(Exec(job, ds[..n]), report, ds[n]);
    }
  }

  /**
   Replay: a report that was accepted once changes nothing when it is delivered again, at any later
   point of any run: no status and no time of any step or of the job.
   */
  lemma ReplayIsSafe(job: Job, before: seq<Delivery>, d: Delivery, between: seq<Delivery>, again: Time)
    requires Initial(job)
    requires OutcomeOf(Exec(job, before), d.report, d.now).Updated?
    ensures
      var accepted := Transition(Exec(job, before), d.report, d.now);
      Transition(Exec(accepted, between), d.report, again) == Exec(accepted, between)
  {
    InitialInv(job);
    InvAlways(job, before);
    AcceptedIsAbsorbed(Exec(job, before), d.report, d.now);
    var accepted := Transition(Exec(job, before), d.report, d.now);
    AbsorbedStays(accepted, d.report, between);
    AbsorbedIsInert(Exec(accepted, between), d.report, again);
  }

  // ----- delivery order

  /** A terminal report for its own step, whose evidence does not contradict it. */
  predicate DirectTerminal(r: Report) {
    && IsTerminal(r.status)
    && r.evidence.NoSteps?
    && (r.evidence.status.Some? ==> r.evidence.status.value == r.status)
    && (r.evidence.stepIndex.Some? ==> r.evidence.stepIndex.value == r.stepIndex)
  }

  /** Direct terminal reports for different steps of the job. */
  ghost predicate OnePerStep(job: Job, ds: seq<Delivery>) {
    && (forall i :: 0 <= i < |ds| ==> DirectTerminal(ds[i].report) && HasStep(job.steps, ds[i].report.stepIndex))
    && (forall i, j :: 0 <= i < j < |ds| ==> ds[i].report.stepIndex != ds[j].report.stepIndex)
  }

  ghost predicate NoneTerminal(job: Job) {
    Inv(job) && forall i :: 0 <= i < |job.steps| ==> !IsTerminal(job.steps[i].status)
  }

  /** The step after the reports: the status of its own report, or as it was. */
  ghost predicate StepReported(before: Step, after: Step, ds: seq<Delivery>) {
    && after.index == before.index
    && (forall i :: 0 <= i < |ds| && ds[i].report.stepIndex == before.index ==> after.status == ds[i].report.status)
    && ((forall i :: 0 <= i < |ds| ==> ds[i].report.stepIndex != before.index) ==> after == before)
  }

  lemma DirectReportLands(job: Job, d: Delivery, k: nat)
    requires Inv(job) && k < |job.steps| && !IsTerminal(job.steps[k].status)
    requires DirectTerminal(d.report) && d.report.stepIndex == job.steps[k].index
    ensures Transition(job, d.report, d.now).steps
         == job.steps[k := MovedStep(job.steps[k], d.report.status, d.now)]
  {
    DeriveTerminal(job.steps);
    assert job.status.Running?;
    assert HasStep(job.steps, d.report.stepIndex);
    assert FindStep(job.steps, d.report.stepIndex) == Some(k);
    assert StepInv(job.steps[k]);
  }

  lemma StepReportedSnoc(before: Step, mid: Step, after: Step, ds: seq<Delivery>)
    requires ds != [] && StepReported(before, mid, ds[..|ds| - 1])
    requires
      var r := ds[|ds| - 1].report;
      if r.stepIndex == before.index
      then after.index == mid.index && after.status == r.status
           && forall i :: 0 <= i < |ds| - 1 ==> ds[i].report.stepIndex != before.index
      else after == mid
    ensures StepReported(before, after, ds)
  {
    var n := |ds| - 1;
    assert forall i :: 0 <= i < n ==> ds[..n][i] == ds[i];
  }

  lemma {:induction false} ReportsLand(job: Job, ds: seq<Delivery>, k: nat)
    requires NoneTerminal(job) && OnePerStep(job, ds) && k < |job.steps|
    ensures |Exec(job, ds).steps| == |job.steps|
    ensures StepReported(job.steps[k], Exec(job, ds).steps[k], ds)
    decreases |ds|, 1
  {
    if ds != [] {
      var n := |ds| - 1;
      var earlier := Exec(job, ds[..n]);
      InvAlways(job, ds[..n]);
      ReportsLand(job, ds[..n], k);
      var t := TargetUntouched(job, ds);
      DirectReportLands(earlier, ds[n], t);
      assert Exec(job, ds) == Transition(earlier, ds[n].report, ds[n].now);
      assert t != k ==> job.steps[t].index != job.steps[k].index;
      StepReportedSnoc(job.steps[k], earlier.steps[k], Exec(job, ds).steps[k], ds);
    }
  }

  /** The step of the last report is still as it was before the earlier ones. */
  lemma {:induction false} TargetUntouched(job: Job, ds: seq<Delivery>) returns (t: nat)
    requires NoneTerminal(job) && OnePerStep(job, ds) && ds != []
    ensures t < |job.steps| && job.steps[t].index == ds[|ds| - 1].report.stepIndex
    ensures |Exec(job, ds[..|ds| - 1]).steps| == |job.steps|
    ensures Exec(job, ds[..|ds| - 1]).steps[t] == job.steps[t]
    decreases |ds|, 0
  {
    var n := |ds| - 1;
    t :| 0 <= t < |job.steps| && job.steps[t].index == ds[n].report.stepIndex;
    ReportsLand(job, ds[..n], t);
    assert forall i :: 0 <= i < n ==> ds[..n][i] == ds[i];
  }

  lemma SameReportSameStatus(job: Job, ds: seq<Delivery>, ds': seq<Delivery>, k: nat)
    requires NoneTerminal(job) && OnePerStep(job, ds) && OnePerStep(job, ds') && k < |job.steps|
    requires exists i :: 0 <= i < |ds| && ds[i].report.stepIndex == job.steps[k].index
    requires forall i :: 0 <= i < |ds| ==> exists j :: 0 <= j < |ds'| && ds'[j].report == ds[i].report
    ensures |Exec(job, ds).steps| == |job.steps| == |Exec(job, ds').steps|
    ensures Exec(job, ds).steps[k].status == Exec(job, ds').steps[k].status
    ensures IsTerminal(Exec(job, ds).steps[k].status)
  {
    var i :| 0 <= i < |ds| && ds[i].report.stepIndex == job.steps[k].index;
    var j :| 0 <= j < |ds'| && ds'[j].report == ds[i].report;
    ReportsLand(job, ds, k);
    ReportsLand(job, ds', k);
  }

  lemma SameStepsSameJob(a: Job, b: Job)
    requires Inv(a) && Inv(b) && |a.steps| == |b.steps|
    requires forall k :: 0 <= k < |a.steps| ==> a.steps[k].status == b.steps[k].status && IsTerminal(a.steps[k].status)
    ensures Statuses(a.steps) == Statuses(b.steps) && a.status == b.status && IsTerminal(a.status)
  {
    assert Statuses(a.steps) == Statuses(b.steps);
    DeriveTerminal(a.steps);
  }

  /**
   One direct terminal report for each step of the job gives each step its reported status, and the
   job the same final status, in whatever order and at whatever times the reports are delivered.
   */
  lemma OrderDoesNotMatter(job: Job, ds: seq<Delivery>, ds': seq<Delivery>)
    requires NoneTerminal(job) && OnePerStep(job, ds) && OnePerStep(job, ds')
    requires forall k :: 0 <= k < |job.steps| ==>
      exists i :: 0 <= i < |ds| && ds[i].report.stepIndex == job.steps[k].index
    requires forall i :: 0 <= i < |ds| ==> exists j :: 0 <= j < |ds'| && ds'[j].report == ds[i].report
    ensures Statuses(Exec(job, ds).steps) == Statuses(Exec(job, ds').steps)
    ensures Exec(job, ds).status == Exec(job, ds').status
    ensures IsTerminal(Exec(job, ds).status)
  {
    var (a, b) := (Exec(job, ds), Exec(job, ds'));
    InvAlways(job, ds);
    InvAlways(job, ds');
    ReportsLand(job, ds, 0);
    ReportsLand(job, ds', 0);
    forall k | 0 <= k < |job.steps| ensures a.steps[k].status == b.steps[k].status && IsTerminal(a.steps[k].status) {
      SameReportSameStatus(job, ds, ds', k);
    }
    SameStepsSameJob(a, b);
  }
}
