# Talos backend: verified model of its state machines

Talos is a remote-management backend. This project models, in Dafny, the parts of it whose promises
span many calls: the lease and callback protocol of the AI runner, the remediation status machine, the
projection of patch progress reports, the patch planner with its macOS pass and its policy resolver,
and five algorithms (transcript reassembly, the alert wildcard matcher, the alert lifecycle, the Cargo
manifest walk and the CSV export). Each promise is proved for every input, every run or every schedule.

`dafny verify dfyconfig.toml` checks everything.

## How it is built

- Database tables are maps and sequences of rows. A guarded update is an atomic compare-and-set step.
- Code that changes rows or walks in place is a class or a method with loops; its contract ties the new
  state to a function of the old state, and the lemmas are about that function over whole runs.
- Concurrent protocols (`Leases`, `MessageClaims`) are state machines in which every database access and
  every clock reading is a step of its own, in any interleaving.
- Times, random ids, the network, the host's path rules and its text collation are parameters. Fresh ids
  are values never used before. Times, versions, categories and JSON fields are already parsed.

| file | models |
|---|---|
| `Leases.dfy` | acquire, heartbeat, release and reconcile of a job lease, split into steps |
| `MessageClaims.dfy` | the "pending:" claims on the result and live-frame message columns |
| `RunnerJob.dfy`, `JobStatus.dfy` | job status, stop, approvals, artifacts and event keys, handler by handler |
| `Transcript.dfy` | reassembly of shell transcript chunks |
| `Remediation.dfy` | remediation steps, aggregate evidence, derived job status |
| `PatchProgress.dfy` | classification, upsert and finishing work of progress reports |
| `PatchPlan.dfy`, `MacosSelection.dfy`, `PatchTypes.dfy` | the planner and its version selection |
| `PolicyResolution.dfy` | the policy that applies to a device |
| `Wildcard.dfy`, `AlertLifecycle.dfy` | alert matching and the alert lifecycle |
| `ManifestGraph.dfy` | the Cargo manifest walk |
| `Csv.dfy` | the CSV printer, and readers with and without the optional final line break of section 2 of RFC 4180 |
| `StableSort.dfy`, `Common.dfy` | the host's stable sort; shared vocabulary |

## What the code does not promise

Eight properties one might expect do not hold of the code as it stands. Each has a concrete
counterexample and the condition under which it does hold.

- The wildcard matcher tries a literal match before it looks for `*`. It agrees with the meaning of every
  pattern exactly on the values that contain no `*` (`Wildcard.ExactlyWithoutStars`).
- A command proposal under an event key that a different kind of callback recorded still creates its
  approval (`RunnerJob.KeySharedAcrossKinds`), exactly when the recorded event leads to no approval and
  the turn has none (`RunnerJob.RecordedKeyEffect`).
- A callback under an event key that a command-output event recorded does nothing, and takes effect once
  that event is pruned (`RunnerJob.PrunedKeyActs`). Redelivery is inert at every later point exactly when no
  output event had recorded the key (`RunnerJob.KeyTakesEffectExactly`).
- A result or live-frame message can be appended twice when a finalize write fails, or when an append
  throws after it created its message, because the claim is then given back
  (`MessageClaims.FailedFinalizeDuplicates`, `MessageClaims.LateThrowDuplicates`). A step makes a second
  message possible exactly when it is one of these failures and, for a live frame, the message it leaves
  behind still exists (`MessageClaims.DuplicatesExactly`). The number of messages is at most one more than
  the number of such failures.
- The write of a status callback is not guarded by the status it read. If a lease expiry fails the job in
  between, the write sets the job running again (`RunnerJob.LateWriteRevives`). Such a write is harmless
  exactly when no handler in between ended or cancelled the job (`RunnerJob.LateWriteHarmless`). A terminal
  job is final when each handler is one step (`RunnerJob.TerminalIsFinal`).
- Two heartbeats of one runner in flight at once can land in the wrong order, and then two runners hold the
  job. The runner awaits one answer at a time, but it sends its next heartbeat after a failed request, when
  the earlier one may still be written, and that is enough (`Leases.OverlappingHeartbeatsLoseTheLease`). The
  lease stays exclusive exactly when no accepted write undercuts a live grant (`Leases.LeaseExclusive`,
  `Leases.LostExactlyWhenUndercut`). Runners never do that if a call they give up on is lost for good
  before they begin another acquire or heartbeat (`Leases.TurnsAreCalm`).
- A progress report delivered again later can overwrite another report of the same operation and time
  (`PatchProgress.EqualTimesCollide`). Late redelivery from a set of reports never changes anything, in any
  run, exactly when its running reports of one operation and time agree (`PatchProgress.RedeliveryExactly`).
- A one-column CSV export whose last row is empty ends with a line break, which a reader by section 2 of
  RFC 4180 does not take for a row (`Csv.BlankLastRowIsLost`). Every other export with a column reads back
  (`Csv.CsvReadsBackExactly`).

## Model

| member | source | states |
|---|---|---|
| `Leases.LeaseExclusive` | apps/api_backend/lib/commandCenterAiRunner.ts:1422-1553 | under every schedule, with any number of lease calls per runner interrupted at any point, two runners never both hold an unreleased lease whose last reported expiry is ahead, as long as no write undercuts a live grant |
| `Leases.LostExactlyWhenUndercut` | apps/api_backend/lib/commandCenterAiRunner.ts:1496-1510 | that condition is exact: from any state so reached, a step makes a later double holding possible, with no further undercut, exactly when it is an accepted heartbeat or release that undercuts a live grant |
| `Leases.TurnsAreCalm` | apps/talos_ai_runner/src/main.rs:1275-1309 | runners that begin an acquire or heartbeat only with no call outstanding, and a release only when they await no answer, all with one time to live, never undercut a live grant; a failed call that is lost for good does not count, and an aborted heartbeat may still be in flight during the release |
| `Leases.OverlappingHeartbeatsLoseTheLease` | apps/talos_ai_runner/src/main.rs:1294-1318 | from every fresh active job there is a run in which no runner awaits two answers, a heartbeat is given up on and sent again, and two runners end up holding the job |
| `Leases.HolderIsCurrent` | apps/api_backend/lib/commandCenterAiRunner.ts:618-649 | under the same condition the lease a runner believes in is the active lease of the row, with that runner as owner |
| `Leases.LeaseColumnsTogether` | apps/api_backend/lib/commandCenterAiRunner.ts:1447-1466 | under every schedule, calm or not, the three lease columns are all null or all set |
| `Leases.LeaseIdNeverReturns` | apps/api_backend/lib/commandCenterAiRunner.ts:1529-1540 | under every schedule, calm or not, a lease id that was replaced or cleared never becomes current again |
| `Leases.BackedExactly` | apps/api_backend/lib/commandCenterAiRunner.ts:1483-1553 | a step leaves a live grant in the row exactly when it is not an accepted heartbeat of its runner that ends earlier, or an accepted release by its runner |
| `Leases.InvPreserved` | apps/api_backend/lib/commandCenterAiRunner.ts:2828-2888 | every step that undercuts nothing, including a reconcile with an old clock reading, keeps every reported or promised grant in the row |
| `MessageClaims.ResultMessageOnce` | apps/api_backend/lib/commandCenterAiRunner.ts:1874-1977 | under every schedule of any number of workers, with crashes and deletions, at most one result message plus one per failed finalize write or late-throwing append is appended, and a named slot names the one that was kept |
| `MessageClaims.LiveFrameMessageOnce` | apps/api_backend/lib/commandCenterAiRunner.ts:2389-2517 | the same bound for live-frame messages that exist, also when the named message is deleted and replaced |
| `MessageClaims.DuplicatesExactly` | apps/api_backend/lib/commandCenterAiRunner.ts:1941-1975 | after a schedule without failures a step makes a second message possible, with no further failure, exactly when it is an append that throws late or a failed finalize write whose message still counts |
| `MessageClaims.OneMessageWithoutFailure` | apps/api_backend/lib/commandCenterAiRunner.ts:1954-1964 | without a failed finalize write or an append that throws late there is at most one message |
| `MessageClaims.FailedFinalizeDuplicates` | apps/api_backend/lib/commandCenterAiRunner.ts:2505-2516 | for both kinds one failed finalize write lets two messages exist, so the bound is tight |
| `MessageClaims.LateThrowDuplicates` | apps/api_backend/lib/commandCenterAiRunner.ts:2480-2494 | so does one append that throws after it created its message |
| `MessageClaims.UninterruptedTurn` | apps/api_backend/lib/commandCenterAiRunner.ts:1911-1957 | a worker that finds the slot empty and is not interrupted appends its message and names it |
| `MessageClaims.DeletedFrameReplaced` | apps/api_backend/lib/commandCenterAiRunner.ts:2444-2512 | a worker that finds the named live-frame message deleted clears the name and posts one new message that the slot then names |
| `MessageClaims.InvPreserved` | apps/api_backend/lib/commandCenterAiRunner.ts:2437-2478 | every step keeps: at most one claim owner, and each kept message is named or awaited by the slot |
| `RunnerJob.TerminalIsFinal` | apps/api_backend/lib/commandCenterAiRunner.ts:1767-1772 | after any sequence of handlers a terminal job has the same status, finish time and cancellation |
| `RunnerJob.FinishedExactlyWhenTerminal` | apps/api_backend/lib/commandCenterAiRunner.ts:598-606 | in every run `finishedAt` is set exactly while the status is terminal |
| `RunnerJob.CancelledEndsStopped` | apps/api_backend/lib/commandCenterAiRunner.ts:1569-1660 | once a stop is recorded the job can end only as stopped, or as failed by lease expiry |
| `RunnerJob.KeyTakesEffectOnce` | apps/api_backend/lib/commandCenterAiRunner.ts:680-727 | after an accepted callback whose key no output event had recorded, one of the same kind and key at any later point of any run leaves the whole job as it is |
| `RunnerJob.KeyTakesEffectExactly` | apps/api_backend/lib/commandCenterAiRunner.ts:823-866 | that condition on the key is exact |
| `RunnerJob.PrunedKeyActs` | apps/api_backend/lib/commandCenterAiRunner.ts:2746-2764 | under a key that an output event had recorded there is always a run after which the callback, delivered again, takes effect |
| `RunnerJob.RecordedKeyEffect` | apps/api_backend/lib/commandCenterAiRunner.ts:2088-2126 | under a recorded key a callback changes nothing, exactly unless it is a proposal whose event leads to no approval; that one links its event to the turn's approval, and creates it exactly when the turn has none |
| `RunnerJob.KeySharedAcrossKinds` | apps/api_backend/lib/commandCenterAiRunner.ts:2096-2126 | a status report and a proposal under one key both take effect |
| `RunnerJob.OneApprovalPerTurn` | apps/api_backend/lib/commandCenterAiRunner.ts:2096-2102 | in every run no two approvals of the job share a turn |
| `RunnerJob.ApprovalsAdvance` | apps/api_backend/lib/commandCenterAiRunner.ts:2176-2292 | in every run an approval keeps its turn and never returns to undecided |
| `RunnerJob.TransferredOnce` | apps/api_backend/lib/commandCenterAiRunner.ts:2315-2344 | in every run a job is transferred to the desktop at most once |
| `RunnerJob.LifecycleKept` | apps/api_backend/lib/commandCenterAiRunner.ts:1743-1841 | every handler keeps finish time, cancellation and open stop requests consistent with the status |
| `RunnerJob.EventsKept` | apps/api_backend/lib/commandCenterAiRunner.ts:695-698 | every handler keeps every recorded key, its kind and the approval it leads to, except that a runner event may prune output events |
| `RunnerJob.PromptWriteIsHandler` | apps/api_backend/lib/commandCenterAiRunner.ts:1767-1817 | a status write that follows its read at once is the whole status callback |
| `RunnerJob.LateWriteRevives` | apps/api_backend/lib/commandCenterAiRunner.ts:1800-1817 | a status write that was read before a lease expiry failed the job sets the job running again without a finish time |
| `RunnerJob.LateWriteHarmless` | apps/api_backend/lib/commandCenterAiRunner.ts:1767-1817 | a status write that comes after any handlers keeps a finished job as it ended and a cancelled one ending stopped, whatever it reports, exactly when the job was terminal when read or none of those handlers ended or cancelled it |
| `RunnerJob.AcquireStepsAreHandler` | apps/api_backend/lib/commandCenterAiRunner.ts:1430-1480 | uninterrupted, the protocol's acquire steps change the row as the whole handler does, and grant a free lease |
| `RunnerJob.OtherStepsAreHandlers` | apps/api_backend/lib/commandCenterAiRunner.ts:1483-1553 | uninterrupted heartbeat, release and reconcile steps change the row as the whole handlers do |
| `RunnerJob.JobStore.constructor` | apps/api_backend/lib/commandCenterAiRunner.ts:1236-1306 | a created and dispatched job waits for approval, runs, or has failed to dispatch |
| `RunnerJob.JobStore.UpdateStatus` | apps/api_backend/lib/commandCenterAiRunner.ts:1743-1841 | the status callback: lease test, event key, terminal and cancelled cases |
| `RunnerJob.JobStore.WriteReportedStatus` | apps/api_backend/lib/commandCenterAiRunner.ts:1767-1817 | a reported end of a cancelled job becomes stopped; a terminal job keeps its status and finish time |
| `RunnerJob.JobStore.ProposeCommand` | apps/api_backend/lib/commandCenterAiRunner.ts:2053-2126 | an accepted proposal returns an existing approval that its event is linked to |
| `RunnerJob.JobStore.ReportCommandResult` | apps/api_backend/lib/commandCenterAiRunner.ts:2176-2231 | the execution callback writes the approval's status once per event key |
| `RunnerJob.JobStore.AppendArtifact` | apps/api_backend/lib/commandCenterAiRunner.ts:2519-2588 | an artifact is created and linked once per event key |
| `RunnerJob.JobStore.AppendEvent` | apps/api_backend/lib/commandCenterAiRunner.ts:2725-2770 | any other runner event is recorded once per key, and only output events are ever pruned |
| `RunnerJob.JobStore.DecideApproval` | apps/api_backend/lib/commandCenterAiRunner.ts:2233-2292 | an approval is decided exactly when its status allows it, and is then not open to the same decision again |
| `RunnerJob.JobStore.TransferJobToDesktop` | apps/api_backend/lib/commandCenterAiRunner.ts:2294-2354 | only an active shell job with an open approval is transferred, and its event leads to that approval |
| `RunnerJob.JobStore.SettleOpenApprovals` | apps/api_backend/lib/commandCenterAiRunner.ts:1662-1696 | stopping denies open approvals and fails the executing ones, and touches no other |
| `RunnerJob.JobStore.RequestStop` | apps/api_backend/lib/commandCenterAiRunner.ts:1574-1587 | a stop request of a terminal job returns at once and leaves it as it is |
| `RunnerJob.JobStore.BeginStop` | apps/api_backend/lib/commandCenterAiRunner.ts:1589-1621 | after the first stop write the job is cancelled or over, and no approval is open or executing |
| `RunnerJob.JobStore.EndStop` | apps/api_backend/lib/commandCenterAiRunner.ts:1641-1656 | after the second stop write the job is over, or stopping if the runner still has it; a job that was over keeps its status and finish time |
| `RunnerJob.JobStore.ReconcileExpiredLease` | apps/api_backend/lib/commandCenterAiRunner.ts:2842-2887 | exactly an expired lease of an active job fails the job, and no callback under that lease is accepted any more |
| `RunnerJob.JobStore.AcquireJobLease` | apps/api_backend/lib/commandCenterAiRunner.ts:1422-1481 | a lease is granted exactly when the job is not terminal and the runner is the active owner afterwards |
| `RunnerJob.JobStore.HeartbeatJobLease` | apps/api_backend/lib/commandCenterAiRunner.ts:1483-1515 | only the owner of the running lease of an active job extends it |
| `RunnerJob.JobStore.ReleaseJobLease` | apps/api_backend/lib/commandCenterAiRunner.ts:1517-1553 | only the owner clears its lease, and no callback under that lease is accepted any more |
| `Transcript.CompleteShellTranscriptArtifacts` | apps/api_backend/lib/commandCenterAiRunner.ts:987-1010 | the loops compute the reassembly function on every artifact list |
| `Transcript.CopiesReassemble` | apps/api_backend/lib/commandCenterAiRunner.ts:1002-1009 | copies of chunks 1 to N, stored at any times, repeated and in any order among other artifacts, give back the N contents in order once every number is there |
| `Transcript.MissingChunkWithholds` | apps/api_backend/lib/commandCenterAiRunner.ts:1008 | while any number is missing from such a list nothing is given back |
| `Transcript.SizeTest` | apps/api_backend/lib/commandCenterAiRunner.ts:1003-1008 | the size of the map equals the total exactly when every number is present |
| `Transcript.UndeclaredTotalSorts` | apps/api_backend/lib/commandCenterAiRunner.ts:994-1000 | without a declared total all chunks are kept, sorted by number and age |
| `Remediation.JobFollowsSteps` | apps/api_backend/lib/remediationStatusTransitions.ts:407-420 | after any run from an initial job its status is the derived one, terminal exactly when all steps are, with matching finish times |
| `Remediation.TerminalStepIsFinal` | apps/api_backend/lib/remediationStatusTransitions.ts:150-157 | a terminal step never changes again, neither status nor times |
| `Remediation.TerminalJobIsFinal` | apps/api_backend/lib/remediationStatusTransitions.ts:327-331 | no run of reports changes a terminal job |
| `Remediation.AggregateEndsJob` | apps/api_backend/lib/remediationStatusTransitions.ts:275-282 | an accepted aggregate report leaves every step terminal and the job at exactly the reported status |
| `Remediation.ReplayIsSafe` | apps/api_backend/lib/remediationStatusTransitions.ts:285-291 | a report accepted once changes no status and no time when delivered again at any later point of any run |
| `Remediation.OrderDoesNotMatter` | apps/api_backend/lib/remediationStatusTransitions.ts:159-164 | one direct terminal report per step gives the same step and job statuses in every order of delivery |
| `Remediation.CollectedExactly` | apps/api_backend/lib/remediationStatusTransitions.ts:199-229 | aggregate evidence is read exactly when every entry is a terminal status of a known step and no step repeats |
| `Remediation.TerminalStepProjection` | apps/api_backend/lib/remediationStatusTransitions.ts:166-283 | the loops compute the projection: direct, invalid, or a status for every step |
| `Remediation.CollectEntries` | apps/api_backend/lib/remediationStatusTransitions.ts:199-229 | the entry loop stops at the first bad entry and otherwise collects all |
| `Remediation.RemediationStore.WriteAggregate` | apps/api_backend/lib/remediationStatusTransitions.ts:359-373 | every step gets its projected status, first start and finish times kept |
| `Remediation.RemediationStore.TransitionRemediationStatus` | apps/api_backend/lib/remediationStatusTransitions.ts:292-431 | the outcome and the whole new job for every report, including each rejection |
| `Remediation.StepsMove` | apps/api_backend/lib/remediationStatusTransitions.ts:239-273 | any report leaves a step alone or moves it forward by an allowed transition |
| `PatchProgress.RedeliveryIsIdempotent` | apps/api_backend/lib/patchProgressPersistence.ts:44-156 | delivering a whole batch again changes no row, no override and runs no finishing work, from any store |
| `PatchProgress.RedeliveryAnyTime` | apps/api_backend/lib/patchProgressPersistence.ts:44-156 | a report that agrees with the other running reports of its operation and time in the run changes nothing when delivered again at any later point |
| `PatchProgress.RedeliveryExactly` | apps/api_backend/lib/patchProgressPersistence.ts:44-156 | whatever is delivered of a set of reports, in any order and to any store, late redelivery changes nothing exactly when its running reports of one operation and time agree |
| `PatchProgress.EqualTimesCollide` | apps/api_backend/lib/patchProgressPersistence.ts:89-121 | of two running reports of one operation at one time, delivering the first again changes nothing exactly when the second agrees with it |
| `PatchProgress.RunningOrderDoesNotMatter` | apps/api_backend/lib/patchProgressPersistence.ts:89-121 | running reports with distinct times leave the same status, phase, progress, evidence, error and time in every order |
| `PatchProgress.RowsAdvance` | apps/api_backend/lib/patchProgressPersistence.ts:91-120 | over any batches a finished row never changes, its time never decreases, a known type and set start and finish times stay |
| `PatchProgress.FinishingWorkOnce` | apps/api_backend/lib/patchProgressPersistence.ts:127-153 | the finishing work of an operation runs exactly once if it finishes in the run and never if it was finished before |
| `PatchProgress.ClassifyIsGuard` | apps/api_backend/lib/patchProgressProjection.ts:332-344 | the in-memory classification applies exactly when the condition of the upsert holds |
| `PatchProgress.ProjectByOperation` | apps/api_backend/lib/patchProgressPersistence.ts:45-57 | an operation's row depends only on the reports of that operation |
| `PatchProgress.InferredFromReport` | apps/api_backend/lib/patchDecisionService.ts:302-319 | exactly which event types, phases and counts give a scan, a download or an install |
| `PatchProgress.PatchActionStore.ProjectItem` | apps/api_backend/lib/patchProgressPersistence.ts:45-153 | one report: ignored, or upserted with its finishing work |
| `PatchProgress.PatchActionStore.DisableOneShotOverrides` | apps/api_backend/lib/patchProgressPersistence.ts:130-139 | disables the one-shot overrides of the operation's device and no other |
| `PatchProgress.PatchActionStore.ProjectPatchProgressBatch` | apps/api_backend/lib/patchProgressPersistence.ts:14-157 | a report outside its organization rejects the batch unchanged; otherwise updated plus ignored is the item count |
| `PatchPlan.PlanAnswersEachUpdate` | apps/api_backend/lib/patchDecisionEngine.ts:718-840 | in a plan not cut short, with distinct keys, exactly one action concerns each live update and none any other |
| `PatchPlan.VerdictMeaning` | apps/api_backend/lib/patchDecisionEngine.ts:727-809 | when a live update is installed, deferred or blocked, as three exact conditions on overrides, policy, deadline and window |
| `PatchPlan.NothingDropped` | apps/api_backend/lib/patchDecisionEngine.ts:614-615 | the manual-install-only skip never drops an update, because a device-wide override matches every update |
| `PatchPlan.BlockBeatsForce` | apps/api_backend/lib/patchDecisionEngine.ts:741-748 | an update that a block override matches is in no install action, whatever forces it |
| `PatchPlan.PlanInstallsExactly` | apps/api_backend/lib/patchDecisionEngine.ts:811-840 | the plan installs exactly the updates whose verdict is to install and that the macOS pass keeps |
| `PatchPlan.RebootsExactly` | apps/api_backend/lib/patchDecisionEngine.ts:842-865 | the plan reboots the device exactly on request, or when a required reboot may happen automatically now |
| `PatchPlan.WindowIsCyclic` | apps/api_backend/lib/patchDecisionEngine.ts:448-459 | a window with different ends is the stretch of the daily cycle from its start up to its end, across midnight too |
| `PatchPlan.UpdatesAnswered` | apps/api_backend/lib/patchDecisionEngine.ts:720-809 | before the macOS pass, blocked, deferred and install entries of a key add up to its live updates |
| `PatchPlan.AskedIsFound` | apps/api_backend/lib/patchDecisionEngine.ts:483-501 | an override is found exactly when one in force for device and update asks for the action |
| `PatchPlan.PlanLiveUpdate` | apps/api_backend/lib/patchDecisionEngine.ts:741-808 | the chain of tests gives the verdict's action or install key |
| `PatchPlan.PlanUpdate` | apps/api_backend/lib/patchDecisionEngine.ts:720-739 | installed, replaced and failed updates are passed over, the others decided |
| `PatchPlan.PlanUpdates` | apps/api_backend/lib/patchDecisionEngine.ts:718-809 | the loop pushes each update's action or install key in order |
| `PatchPlan.EvaluatePatchActionPlan` | apps/api_backend/lib/patchDecisionEngine.ts:596-884 | the whole action list before repeated actions are merged, including the plans that are cut short |
| `MacosSelection.SelectionConserves` | apps/api_backend/lib/patchDecisionEngine.ts:543-594 | kept and blocked keys are exactly the keys to install and no key is both |
| `MacosSelection.NewestVersionKept` | apps/api_backend/lib/patchDecisionEngine.ts:568-588 | at most one version update is kept and no blocked one is newer |
| `MacosSelection.SelectionLosesNothingElse` | apps/api_backend/lib/patchDecisionEngine.ts:589-593 | some version update is kept whenever there is one, and all other keys are |
| `MacosSelection.BlockedDistinct` | apps/api_backend/lib/patchDecisionEngine.ts:554-566 | no update is blocked twice |
| `MacosSelection.CompareMeaning` | apps/api_backend/lib/patchDecisionEngine.ts:404-413 | the sign of the comparison is the zero-padded version order |
| `MacosSelection.CompareTransitive` | apps/api_backend/lib/patchDecisionEngine.ts:404-413 | the comparison is transitive, and strict if one side is |
| `MacosSelection.CompareTotal` | apps/api_backend/lib/patchDecisionEngine.ts:404-413 | any two versions are comparable and equality is symmetric |
| `MacosSelection.CompareVersionPartsDesc` | apps/api_backend/lib/patchDecisionEngine.ts:404-413 | the loop computes the comparison, missing versions being empty |
| `MacosSelection.PreferenceIsPreorder` | apps/api_backend/lib/patchDecisionEngine.ts:570-572 | version then title is a total preorder, so the sort's first element is well defined |
| `PolicyResolution.ResolvesBest` | apps/api_backend/lib/patchManagement.ts:167-201 | a policy is found exactly when there is a candidate, and no candidate is ahead on priority, specificity, recency |
| `PolicyResolution.ListOrderDoesNotMatter` | apps/api_backend/lib/patchManagement.ts:189-198 | without ties the order of the list does not matter |
| `PolicyResolution.EarliestOfTies` | apps/api_backend/lib/patchManagement.ts:189-200 | among tied candidates the earliest listed is taken |
| `PolicyResolution.DefaultAlwaysApplies` | apps/api_backend/lib/patchManagement.ts:171-175 | an enabled organization default for all systems always leaves a policy |
| `Wildcard.WildcardMatchChars` | apps/api_backend/lib/alertLifecycle.ts:136-168 | the loop terminates and computes the greedy matching function |
| `Wildcard.MatcherSound` | apps/api_backend/lib/alertLifecycle.ts:136-168 | whatever the matcher accepts is a match of the pattern |
| `Wildcard.MatcherComplete` | apps/api_backend/lib/alertLifecycle.ts:136-168 | on a value without `*` the matcher accepts every match |
| `Wildcard.LatestStarSuffices` | apps/api_backend/lib/alertLifecycle.ts:148-159 | backtracking only to the latest star loses nothing |
| `Wildcard.ExactlyWithoutStars` | apps/api_backend/lib/alertLifecycle.ts:143-153 | the matcher agrees with every pattern's meaning exactly on the values without `*` |
| `AlertLifecycle.NotificationsSpaced` | apps/api_backend/lib/alertLifecycle.ts:238-354 | with observations in time order and any operator changes, notifications are a window apart, every observation is counted and the first is kept |
| `AlertLifecycle.NotifiesExactly` | apps/api_backend/lib/alertLifecycle.ts:286-353 | a known alert notifies exactly outside the window and when no operator silences it |
| `AlertLifecycle.StatusAfterObservation` | apps/api_backend/lib/alertLifecycle.ts:286-353 | after an observation the alert is open unless a silence still holds |
| `ManifestGraph.CheckCargoManifestGraph` | apps/scripts/dependabot-contract.ts:13-62 | succeeds exactly when every reachable manifest is good, and then returns exactly the reachable ones, each once |
| `ManifestGraph.ManifestWalk.Visit` | apps/scripts/dependabot-contract.ts:18-59 | the recursion terminates on any finite graph; all it adds is reachable and expanded, and a failure shows a bad reachable manifest |
| `ManifestGraph.ManifestWalk.VisitLocals` | apps/scripts/dependabot-contract.ts:27-58 | all locals of a manifest are free of globs and visited, or a bad manifest is reachable |
| `ManifestGraph.ManifestWalk.VisitLocal` | apps/scripts/dependabot-contract.ts:51-58 | one local path: glob test, then the visit |
| `Csv.CsvReadsBackExactly` | apps/api_backend/lib/reports.ts:721-735 | a reader by section 2 of RFC 4180 gives back the labels and every field text, for all texts, exactly when there is a column and not just one whose last row is empty; then it loses that row |
| `Csv.BlankLastRowIsLost` | apps/api_backend/lib/reports.ts:731-735 | one column with one empty row is read back as no row |
| `Csv.CsvDistinguishes` | apps/api_backend/lib/reports.ts:731-735 | two exports are alike only if their labels and all field texts are |
| `Csv.FieldReadsBack` | apps/api_backend/lib/reports.ts:721-729 | a printed field is read back whatever follows it |

## Left out

- `Leases.LeaseExclusive`: takes one shared monotone clock; a released lease counts as held again if a late answer still reports it.
- `Leases.TurnsAreCalm`: does not cover the heartbeat that the runner sends after a failed request while the earlier one may still be written; that run is `Leases.OverlappingHeartbeatsLoseTheLease`.
- `RunnerJob.TerminalIsFinal`: each handler is one step, and creation with dispatch is one step, because the status, dispatch and desktop-transfer writes of the source are not guarded.
- `RunnerJob.KeyTakesEffectOnce`: each handler is one step, and linking an event to its approval or artifact does not fail.
- `RunnerJob.JobStore.DecideApproval`: the stop that follows a denial is the stop handler, a separate step of a run.
- `RunnerJob.JobStore.ReportCommandResult`: does not make "denied" final, because the source does not check the approval's current status.
- `RunnerJob.JobStore.AppendEvent`: which output events lie beyond the limits on their number and length is a parameter, and an approval id given only in the payload prunes nothing.
- `PatchProgress.PatchActionStore.DisableOneShotOverrides`: does not disable the overrides named in the decision log, which recording a result also does.
- `PatchProgress.RowsAdvance`: covers runs of progress batches only; the direct action-result write of the source is not guarded.
- `PatchPlan.EvaluatePatchActionPlan`: ends before repeated actions are merged by a joined text key; operation ids, metadata and reason wording are not modelled.
- `Csv.CsvReadsBackExactly`: values are already turned into text.
- `Csv.CsvDistinguishes`: needs at least one column, because without columns the export shows only the number of rows.
- `Transcript.CompleteShellTranscriptArtifacts`: does not decode the chunks' base64 content.
- Remediation: selecting the job by command, agent, organization and intent, and the stored evidence.
- AI runner: result and secure-note texts, approval grants, runner dispatch over the network, session cleanup, replay manifests.
- Patch policy: merging stored configuration over defaults, time-zone lookup, title classification.
- Alerts: rule matching other than the wildcard, fingerprints, lower-casing, reason texts.
- Manifest walk: TOML parsing and POSIX path normalization; the resolved path is a parameter.
- Report queries, file names and PDF output; scheduling of reports.
- Frontend, desktop agents, relay, signing, release and licence scripts: I/O, or lists of checks that hold no property beyond their own text.
