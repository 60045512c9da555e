/**
 The patch planner: from a device, its policy, its updates and the operators' overrides to the list of
 actions the device carries out. The list is the one before repeated actions are merged.
 */
module PatchPlan {
  import opened Common
  import opened PatchTypes
  import opened MacosSelection

  const ONE_DAY_MS: int := 24 * 60 * 60 * 1000

  datatype Approval = Auto | Manual | BlockedByPolicy

  datatype CategoryRule = CategoryRule(approval: Approval, installAfterDays: int, forceInstallByDays: Option<int>)

  /** A daily window in minutes; `localNow` is the current minute in the window's time zone. */
  datatype Window = Window(enabled: bool, start: Option<nat>, end: Option<nat>, localNow: nat)

  datatype Policy = Policy(
    managedMode: bool,
    nativeControl: bool,
    checkInIntervalMs: int,
    scanWindow: Window,
    installWindow: Window,
    rebootWindow: Window,
    rules: map<Category, CategoryRule>,
    otherRule: CategoryRule,
    allowAutomaticReboot: bool,
    serverRebootManualOnly: bool)

  datatype ScopeType =
    | GlobalScope
    | OrganizationScope
    | CustomerScope
    | SiteScope
    | GroupScope
    | TagScope
    | RingScope
    | DeviceScope

  datatype OverrideAction =
    | Approve
    | Block
    | Defer
    | ForceInstall
    | ForceScan
    | ForceDownload
    | ForceReboot
    | DeferReboot
    | MaintenanceMode
    | EmergencyApprove
    | Cancel

  /** The update conditions of an override are absent when the stored text is empty. */
  datatype Override = Override(
    id: string,
    scopeType: ScopeType,
    scopeKey: string,
    action: OverrideAction,
    updateKey: Option<string>,
    kbArticle: Option<string>,
    category: Option<Category>,
    deferUntil: Option<Time>,
    expiresAt: Option<Time>,
    enabled: bool)

  datatype Device = Device(
    organizationId: string,
    customerId: Option<string>,
    siteId: Option<string>,
    agentId: string,
    ring: string,
    tags: seq<string>,
    groupIds: seq<string>,
    patchManaged: bool,
    nativeControl: bool,
    isWindows: bool,
    isMacos: bool,
    isServer: bool,
    maintenanceUntil: Option<Time>,
    lastScanAt: Option<Time>,
    rebootRequired: bool)

  datatype Input = Input(now: Time, device: Device, policy: Policy, updates: seq<Update>, overrides: seq<Override>)

  datatype Reason =
    | NativeControl(on: bool)
    | Unmanaged
    | RebootRequested
    | InMaintenance
    | ScanRequested
    | ScanDue
    | ScanOutsideWindow
    | ByOverride(id: string)
    | CategoryBlocked
    | NotYetEligible
    | NeedsApproval
    | OutsideInstallWindow
    | OtherVersionSelected
    | InstallAuthorized
    | RebootWindowOpen
    | ServerRebootManual
    | RebootOutsideWindow
    | NothingToDo

  datatype Kind = ApplyNativeControl | Scan | Install | Reboot | DeferAction | BlockedAction | ReportOnly

  datatype PlanAction = PlanAction(
    kind: Kind,
    updateKeys: seq<string>,
    forced: bool,
    notBefore: Option<Time>,
    deadlineAt: Option<Time>,
    reason: Reason)

  function General(kind: Kind, forced: bool, notBefore: Option<Time>, reason: Reason): PlanAction {
    PlanAction(kind, [], forced, notBefore, None, reason)
  }

  predicate ConcernsNoUpdate(a: PlanAction) {
    a.updateKeys == [] && !a.kind.Install?
  }

  // ----- windows and overrides

  predicate IsWithinWindow(w: Window) {
    && w.enabled
    && (w.start.None? || w.end.None? || w.start == w.end
        || (if w.start.value < w.end.value then w.start.value <= w.localNow < w.end.value
            else w.localNow >= w.start.value || w.localNow < w.end.value))
  }

  predicate IsExpired(o: Override, now: Time) {
    !o.enabled || (o.expiresAt.Some? && o.expiresAt.value <= now)
  }

  predicate ScopeMatches(o: Override, d: Device) {
    match o.scopeType
    case GlobalScope => true
    case OrganizationScope => o.scopeKey == d.organizationId
    case CustomerScope => Some(o.scopeKey) == d.customerId
    case SiteScope => Some(o.scopeKey) == d.siteId
    case RingScope => o.scopeKey == d.ring
    case DeviceScope => o.scopeKey == d.agentId
    case TagScope => o.scopeKey in d.tags
    case GroupScope => o.scopeKey in d.groupIds
  }

  predicate DeviceWide(o: Override) {
    o.updateKey.None? && o.kbArticle.None? && o.category.None?
  }

  predicate UpdateMatches(o: Override, u: Update) {
    && (o.updateKey.Some? ==> o.updateKey.value == u.key)
    && (o.kbArticle.Some? ==> o.kbArticle.value == u.kbArticle)
    && (o.category.Some? ==> o.category.value == u.category)
  }

  predicate InForce(input: Input, o: Override) {
    !IsExpired(o, input.now) && ScopeMatches(o, input.device)
  }

  function DeviceOverrides(input: Input): seq<Override> {
    Filter(input.overrides, (o: Override) => InForce(input, o) && DeviceWide(o))
  }

  function UpdateOverrides(input: Input, u: Update): seq<Override> {
    Filter(input.overrides, (o: Override) => InForce(input, o) && UpdateMatches(o, u))
  }

  function WithAction(os: seq<Override>, action: OverrideAction): Option<Override> {
    Find(os, (o: Override) => o.action == action)
  }

  predicate HasAction(os: seq<Override>, action: OverrideAction) {
    WithAction(os, action).Some?
  }

  // ----- the plan before the updates

  predicate Managed(input: Input) {
    input.device.patchManaged && input.policy.managedMode
  }

  predicate Maintenance(input: Input) {
    || (input.device.maintenanceUntil.Some? && input.device.maintenanceUntil.value > input.now)
    || HasAction(DeviceOverrides(input), MaintenanceMode)
  }

  predicate ManualInstallOnly(input: Input) {
    var os := DeviceOverrides(input);
    !HasAction(os, ForceReboot) && (HasAction(os, ForceInstall) || HasAction(os, ForceDownload))
  }

  predicate ScanIsDue(input: Input) {
    var last := input.device.lastScanAt;
    last.None? || input.now - last.value >= input.policy.checkInIntervalMs
  }

  function NativeActions(input: Input): (r: seq<PlanAction>)
    ensures forall a :: a in r ==> ConcernsNoUpdate(a)
  {
    if !input.device.isWindows then []
    else [General(ApplyNativeControl, false, None,
                  NativeControl(Managed(input) && input.device.nativeControl && input.policy.nativeControl))]
  }

  /** The plan ends before the updates are looked at. */
  predicate CutShort(input: Input) {
    || !Managed(input)
    || HasAction(DeviceOverrides(input), ForceReboot)
    || Maintenance(input)
    || (!ManualInstallOnly(input) && HasAction(DeviceOverrides(input), ForceScan))
  }

  /** The one action that ends such a plan, or the scan action of a plan that goes on. */
  function OpeningActions(input: Input): (r: seq<PlanAction>)
    ensures forall a :: a in r ==> ConcernsNoUpdate(a)
  {
    var os := DeviceOverrides(input);
    if !Managed(input) then [General(ReportOnly, false, None, Unmanaged)]
    else if HasAction(os, ForceReboot) then [General(Reboot, true, None, RebootRequested)]
    else if Maintenance(input) then [General(ReportOnly, false, input.device.maintenanceUntil, InMaintenance)]
    else if ManualInstallOnly(input) then []
    else if HasAction(os, ForceScan) then [General(Scan, true, None, ScanRequested)]
    else if !ScanIsDue(input) then []
    else if IsWithinWindow(input.policy.scanWindow) then [General(Scan, false, None, ScanDue)]
    else [General(DeferAction, false, None, ScanOutsideWindow)]
  }

  // ----- one update

  function RuleOf(input: Input, u: Update): CategoryRule {
    if u.category in input.policy.rules then input.policy.rules[u.category] else input.policy.otherRule
  }

  function ReleaseTime(input: Input, u: Update): Time {
    if u.releaseDate.Some? then u.releaseDate.value
    else if u.firstDetectedAt.Some? then u.firstDetectedAt.value
    else input.now
  }

  function EligibleAt(input: Input, u: Update): Time {
    ReleaseTime(input, u) + RuleOf(input, u).installAfterDays * ONE_DAY_MS
  }

  function Deadline(input: Input, u: Update): Option<Time> {
    var days := RuleOf(input, u).forceInstallByDays;
    if days.None? then None else Some(ReleaseTime(input, u) + days.value * ONE_DAY_MS)
  }

  predicate DeadlineReached(input: Input, u: Update) {
    Reached(Deadline(input, u), input.now)
  }

  predicate Replaced(u: Update) {
    u.lifecycle.Superseded? || u.superseded
  }

  predicate Forced(input: Input, u: Update) {
    HasAction(UpdateOverrides(input, u), ForceInstall) || HasAction(UpdateOverrides(input, u), ForceDownload)
  }

  predicate Emergency(input: Input, u: Update) {
    HasAction(UpdateOverrides(input, u), EmergencyApprove)
  }

  /** The update is neither installed, nor replaced before its download, nor failed without a retry. */
  predicate Live(input: Input, u: Update) {
    && !u.lifecycle.Installed?
    && (u.downloadedAt.Some? || !Replaced(u))
    && (u.lifecycle.FailedState? ==> Forced(input, u) || Emergency(input, u))
  }

  datatype Verdict =
    | NotLive
    | Dropped
    | Blocked(reason: Reason)
    | Deferred(notBefore: Option<Time>, deadlineAt: Option<Time>, reason: Reason)
    | InstallNow

  /** What the planner looks up about an update before it decides. */
  datatype Facts = Facts(
    block: Option<Override>,
    defer: Option<Override>,
    force: bool,
    emergency: bool,
    approved: bool,
    approval: Approval,
    eligibleAt: Time,
    deadline: Option<Time>,
    manualInstallOnly: bool,
    windowOpen: bool)

  function FactsOf(input: Input, u: Update): Facts {
    var os := UpdateOverrides(input, u);
    Facts(WithAction(os, Block), WithAction(os, Defer), Forced(input, u), Emergency(input, u), HasAction(os, Approve),
          RuleOf(input, u).approval, EligibleAt(input, u), Deadline(input, u), ManualInstallOnly(input),
          IsWithinWindow(input.policy.installWindow))
  }

  predicate Running(defer: Option<Override>, now: Time) {
    defer.Some? && (defer.value.deferUntil.None? || defer.value.deferUntil.value > now)
  }

  predicate Reached(deadline: Option<Time>, now: Time) {
    deadline.Some? && deadline.value <= now
  }

  /** The planner's cascade for one live update. */
  function Decide(f: Facts, now: Time): Verdict {
    var overruled := f.force || f.emergency;
    if f.block.Some? then Blocked(ByOverride(f.block.value.id))
    else if Running(f.defer, now) then Deferred(f.defer.value.deferUntil, None, ByOverride(f.defer.value.id))
    else if !overruled && f.approval.BlockedByPolicy? then Blocked(CategoryBlocked)
    else if !overruled && f.eligibleAt > now && !Reached(f.deadline, now) then
      Deferred(Some(f.eligibleAt), f.deadline, NotYetEligible)
    else if !overruled && f.approval.Manual? && !f.approved then Blocked(NeedsApproval)
    else if f.manualInstallOnly && !f.force then Dropped
    else if overruled || Reached(f.deadline, now) || f.windowOpen then InstallNow
    else Deferred(None, f.deadline, OutsideInstallWindow)
  }

  function VerdictOf(input: Input, u: Update): Verdict {
    if Live(input, u) then Decide(FactsOf(input, u), input.now) else NotLive
  }

  function ActionFor(key: string, v: Verdict): seq<PlanAction> {
    match v
    case Blocked(reason) => [PlanAction(BlockedAction, [key], false, None, None, reason)]
    case Deferred(notBefore, deadlineAt, reason) =>
      [PlanAction(DeferAction, [key], false, notBefore, deadlineAt, reason)]
    case _ => []
  }

  function Judge(input: Input): Update -> Verdict {
    u => VerdictOf(input, u)
  }

  function UpdateActions(judge: Update -> Verdict, updates: seq<Update>): seq<PlanAction> {
    if updates == [] then []
    else
      var n := |updates| - 1;
      UpdateActions(judge, updates[..n]) + ActionFor(updates[n].key, judge(updates[n]))
  }

  function InstallKeys(judge: Update -> Verdict, updates: seq<Update>): seq<string> {
    if updates == [] then []
    else
      var n := |updates| - 1;
      InstallKeys(judge, updates[..n]) + if judge(updates[n]).InstallNow? then [updates[n].key] else []
  }

  // ----- after the updates

  function VersionActions(blocked: seq<Update>): seq<PlanAction> {
    if blocked == [] then []
    else
      var n := |blocked| - 1;
      VersionActions(blocked[..n])
      + [PlanAction(BlockedAction, [blocked[n].key], false, None, None, OtherVersionSelected)]
  }

  function InstallForced(input: Input): bool {
    var os := DeviceOverrides(input);
    HasAction(os, ForceInstall) || HasAction(os, ForceDownload)
    || HasAction(os, EmergencyApprove) || HasAction(os, Approve)
  }

  function Unique(keys: seq<string>): (r: seq<string>)
    ensures forall k :: k in r <==> k in keys
    ensures Distinct(r)
  {
    if keys == [] then []
    else
      var n := |keys| - 1;
      assert keys == keys[..n] + [keys[n]];
      var r := Unique(keys[..n]);
      if keys[n] in r then r else r + [keys[n]]
  }

  function InstallActions(input: Input, keys: seq<string>): seq<PlanAction> {
    if keys == [] then [] else [PlanAction(Install, Unique(keys), InstallForced(input), None, None, InstallAuthorized)]
  }

  /** The reboot at the end of a plan; a requested reboot has already ended the plan. */
  function RebootActions(input: Input): (r: seq<PlanAction>)
    ensures forall a :: a in r ==> ConcernsNoUpdate(a)
  {
    var deferred := WithAction(DeviceOverrides(input), DeferReboot);
    var manualOnly := input.device.isServer && input.policy.serverRebootManualOnly;
    if !input.device.rebootRequired || ManualInstallOnly(input) then []
    else if deferred.Some? && (deferred.value.deferUntil.None? || deferred.value.deferUntil.value > input.now) then
      [General(DeferAction, false, deferred.value.deferUntil, ByOverride(deferred.value.id))]
    else if !manualOnly && input.policy.allowAutomaticReboot && IsWithinWindow(input.policy.rebootWindow) then
      [General(Reboot, false, None, RebootWindowOpen)]
    else [General(DeferAction, false, None, if manualOnly then ServerRebootManual else RebootOutsideWindow)]
  }

  function Plan(input: Input, collation: Collation): seq<PlanAction> {
    var opening := NativeActions(input) + OpeningActions(input);
    if CutShort(input) then opening
    else
      var keys := InstallKeys(Judge(input), input.updates);
      var selection := Constrained(input.device.isMacos, input.updates, keys, collation);
      var planned := opening + UpdateActions(Judge(input), input.updates) + VersionActions(selection.blocked)
                     + InstallActions(input, selection.installKeys) + RebootActions(input);
      if |planned| == |NativeActions(input)| then planned + [General(ReportOnly, false, None, NothingToDo)] else planned
  }

  // ----- the planner

  /** The planner's loop: pushes an action or an install key for each update in turn. */
  method PlanUpdates(input: Input) returns (actions: seq<PlanAction>, installKeys: seq<string>)
    ensures actions == UpdateActions(Judge(input), input.updates)
    ensures installKeys == InstallKeys(Judge(input), input.updates)
  {
    actions, installKeys := [], [];
    for k := 0 to |input.updates|
      invariant actions == UpdateActions(Judge(input), input.updates[..k])
      invariant installKeys == InstallKeys(Judge(input), input.updates[..k])
    {
      var u := input.updates[k];
      assert input.updates[..k + 1][..k] == input.updates[..k];
      var action, install := PlanUpdate(input, u);
      actions := actions + action;
      if install {
        installKeys := installKeys + [u.key];
      }
    }
    assert input.updates[..|input.updates|] == input.updates;
  }

  method PlanUpdate(input: Input, u: Update) returns (actions: seq<PlanAction>, install: bool)
    ensures actions == ActionFor(u.key, VerdictOf(input, u))
    ensures install <==> VerdictOf(input, u).InstallNow?
  {
    if u.lifecycle.Installed? || (u.downloadedAt.None? && Replaced(u)) { return [], false; }
    var f := FactsOf(input, u);
    if u.lifecycle.FailedState? && !f.force && !f.emergency { return [], false; }
    actions, install := PlanLiveUpdate(u.key, f, input.now);
  }

  /** The chain of tests on a live update; each pushes an action, skips, or falls through. */
  method PlanLiveUpdate(key: string, f: Facts, now: Time) returns (actions: seq<PlanAction>, install: bool)
    ensures actions == ActionFor(key, Decide(f, now))
    ensures install <==> Decide(f, now).InstallNow?
  {
    if f.block.Some? {
      return [PlanAction(BlockedAction, [key], false, None, None, ByOverride(f.block.value.id))], false;
    }
    if f.defer.Some? {
      var until := f.defer.value.deferUntil;
      if until.None? || until.value > now {
        return [PlanAction(DeferAction, [key], false, until, None, ByOverride(f.defer.value.id))], false;
      }
    }
    var deadlineReached := f.deadline.Some? && f.deadline.value <= now;
    if !f.force && !f.emergency && f.approval.BlockedByPolicy? {
      return [PlanAction(BlockedAction, [key], false, None, None, CategoryBlocked)], false;
    }
    if !f.force && !f.emergency && f.eligibleAt > now && !deadlineReached {
      return [PlanAction(DeferAction, [key], false, Some(f.eligibleAt), f.deadline, NotYetEligible)], false;
    }
    if !f.force && !f.emergency && f.approval.Manual? && !f.approved {
      return [PlanAction(BlockedAction, [key], false, None, None, NeedsApproval)], false;
    }
    if f.manualInstallOnly && !f.force { return [], false; }
    if f.force || f.emergency || deadlineReached || f.windowOpen { return [], true; }
    return [PlanAction(DeferAction, [key], false, None, f.deadline, OutsideInstallWindow)], false;
  }

  method PlanVersions(blocked: seq<Update>) returns (actions: seq<PlanAction>)
    ensures actions == VersionActions(blocked)
  {
    actions := [];
    for k := 0 to |blocked|
      invariant actions == VersionActions(blocked[..k])
    {
      assert blocked[..k + 1][..k] == blocked[..k];
      actions := actions + [PlanAction(BlockedAction, [blocked[k].key], false, None, None, OtherVersionSelected)];
    }
    assert blocked[..|blocked|] == blocked;
  }

  method EvaluatePatchActionPlan(input: Input, collation: Collation) returns (actions: seq<PlanAction>)
    ensures actions == Plan(input, collation)
  {
    actions := NativeActions(input) + OpeningActions(input);
    if CutShort(input) { return; }
    var updateActions, installKeys := PlanUpdates(input);
    actions := actions + updateActions;
    var selection := Constrained(input.device.isMacos, input.updates, installKeys, collation);
    var versionActions := PlanVersions(selection.blocked);
    actions := actions + versionActions;
    actions := actions + InstallActions(input, selection.installKeys) + RebootActions(input);
    if |actions| == |NativeActions(input)| {
      actions := actions + [General(ReportOnly, false, None, NothingToDo)];
    }
  }

  // ----- what a verdict means

  /** Some override in force for the device and the update asks for the action. */
  ghost predicate Asked(input: Input, u: Update, action: OverrideAction) {
    exists o :: o in input.overrides && InForce(input, o) && UpdateMatches(o, u) && o.action == action
  }

  lemma AskedIsFound(input: Input, u: Update, action: OverrideAction)
    ensures HasAction(UpdateOverrides(input, u), action) <==> Asked(input, u, action)
  {
  }

  /** The first defer override of the update has not run out. */
  predicate DeferRunning(input: Input, u: Update) {
    Running(WithAction(UpdateOverrides(input, u), Defer), input.now)
  }

  predicate Due(input: Input, u: Update) {
    EligibleAt(input, u) <= input.now || DeadlineReached(input, u)
  }

  ghost predicate Overruled(input: Input, u: Update) {
    Asked(input, u, ForceInstall) || Asked(input, u, ForceDownload) || Asked(input, u, EmergencyApprove)
  }

  /** The policy alone lets the update in: not blocked, due, and approved where approval is needed. */
  ghost predicate PolicyAdmits(input: Input, u: Update) {
    var approval := RuleOf(input, u).approval;
    Due(input, u) && (approval.Auto? || (approval.Manual? && Asked(input, u, Approve)))
  }

  lemma DeviceWideAsks(input: Input, u: Update, action: OverrideAction)
    requires HasAction(DeviceOverrides(input), action)
    ensures Asked(input, u, action)
  {
    var o := WithAction(DeviceOverrides(input), action).value;
    assert o in input.overrides && InForce(input, o) && DeviceWide(o);
  }

  lemma ManualRunForcesEveryUpdate(input: Input, u: Update)
    requires ManualInstallOnly(input)
    ensures Forced(input, u)
  {
    var action := if HasAction(DeviceOverrides(input), ForceInstall) then ForceInstall else ForceDownload;
    DeviceWideAsks(input, u, action);
    AskedIsFound(input, u, action);
  }

  lemma DroppedOnlyInManualRun(f: Facts, now: Time)
    requires Decide(f, now).Dropped?
    ensures f.manualInstallOnly && !f.force
  {
  }

  /** A device-wide override matches every update, so a manual run never drops one silently. */
  lemma NothingDropped(input: Input, u: Update)
    ensures !VerdictOf(input, u).Dropped?
  {
    if Live(input, u) && Decide(FactsOf(input, u), input.now).Dropped? {
      DroppedOnlyInManualRun(FactsOf(input, u), input.now);
      ManualRunForcesEveryUpdate(input, u);
    }
  }

  /** For a live update, exactly when the planner installs, defers or blocks it. */
  lemma VerdictMeaning(input: Input, u: Update)
    requires Live(input, u)
    ensures VerdictOf(input, u).InstallNow? <==>
      && !Asked(input, u, Block) && !DeferRunning(input, u)
      && (Overruled(input, u)
          || (PolicyAdmits(input, u) && (DeadlineReached(input, u) || IsWithinWindow(input.policy.installWindow))))
    ensures VerdictOf(input, u).Deferred? <==>
      && !Asked(input, u, Block)
      && (DeferRunning(input, u)
          || (!Overruled(input, u) && !RuleOf(input, u).approval.BlockedByPolicy?
              && (!Due(input, u)
                  || (PolicyAdmits(input, u) && !DeadlineReached(input, u)
                      && !IsWithinWindow(input.policy.installWindow)))))
    ensures VerdictOf(input, u).Blocked? <==>
      || Asked(input, u, Block)
      || (!DeferRunning(input, u) && !Overruled(input, u)
          && (RuleOf(input, u).approval.BlockedByPolicy? || (Due(input, u) && !PolicyAdmits(input, u))))
  {
    NothingDropped(input, u);
    AskedIsFound(input, u, Block);
    AskedIsFound(input, u, Approve);
    AskedIsFound(input, u, ForceInstall);
    AskedIsFound(input, u, ForceDownload);
    AskedIsFound(input, u, EmergencyApprove);
  }

  // ----- every update is answered once

  /** How many actions of the plan concern the update key. */
  function Mentions(actions: seq<PlanAction>, key: string): nat {
    if actions == [] then 0
    else
      var n := |actions| - 1;
      Mentions(actions[..n], key) + if key in actions[n].updateKeys then 1 else 0
  }

  lemma {:induction false} MentionsConcat(a: seq<PlanAction>, b: seq<PlanAction>, key: string)
    ensures Mentions(a + b, key) == Mentions(a, key) + Mentions(b, key)
  {
    if b == [] {
      assert a + b == a;
    } else {
      var n := |b| - 1;
      MentionsConcat(a, b[..n], key);
      assert (a + b)[..|a + b| - 1] == a + b[..n];
    }
  }

  lemma MentionsOne(a: PlanAction, key: string)
    ensures Mentions([a], key) == if key in a.updateKeys then 1 else 0
  {
    assert [a][..0] == [];
  }

  lemma {:induction false} GeneralMentionsNothing(actions: seq<PlanAction>, key: string)
    requires forall a :: a in actions ==> ConcernsNoUpdate(a)
    ensures Mentions(actions, key) == 0
  {
    if actions != [] {
      var n := |actions| - 1;
      assert actions[n] in actions;
      assert forall a :: a in actions[..n] ==> a in actions;
      GeneralMentionsNothing(actions[..n], key);
    }
  }

  predicate Answered(v: Verdict) {
    v.Blocked? || v.Deferred? || v.InstallNow?
  }

  lemma AnsweredOnce(k: string, v: Verdict, key: string)
    ensures Mentions(ActionFor(k, v), key) + (if v.InstallNow? && k == key then 1 else 0)
         == if Answered(v) && k == key then 1 else 0
  {
    if ActionFor(k, v) != [] {
      MentionsOne(ActionFor(k, v)[0], key);
      assert ActionFor(k, v) == [ActionFor(k, v)[0]];
    }
  }

  /** How many updates with the key are answered. */
  function Answers(judge: Update -> Verdict, updates: seq<Update>, key: string): nat {
    if updates == [] then 0
    else
      var n := |updates| - 1;
      Answers(judge, updates[..n], key) + if updates[n].key == key && Answered(judge(updates[n])) then 1 else 0
  }

  lemma OccurrencesSnoc(s: seq<string>, x: string, key: string)
    ensures Occurrences(s + [x], key) == Occurrences(s, key) + if x == key then 1 else 0
  {
    assert (s + [x])[..|s|] == s;
  }

  /** Before the macOS pass each answered update is counted once: blocked, deferred or to be installed. */
  lemma {:induction false} UpdatesAnswered(judge: Update -> Verdict, updates: seq<Update>, key: string)
    ensures Mentions(UpdateActions(judge, updates), key) + Occurrences(InstallKeys(judge, updates), key)
         == Answers(judge, updates, key)
  {
    if updates != [] {
      var n := |updates| - 1;
      UpdatesAnswered(judge, updates[..n], key);
      AnsweredOnce(updates[n].key, judge(updates[n]), key);
      MentionsConcat(UpdateActions(judge, updates[..n]), ActionFor(updates[n].key, judge(updates[n])), key);
      OccurrencesSnoc(InstallKeys(judge, updates[..n]), updates[n].key, key);
      assert InstallKeys(judge, updates[..n]) + [] == InstallKeys(judge, updates[..n]);
    }
  }

  lemma {:induction false} AnswersDistinct(judge: Update -> Verdict, updates: seq<Update>, i: nat)
    requires DistinctKeys(updates) && i < |updates|
    ensures Answers(judge, updates, updates[i].key) == if Answered(judge(updates[i])) then 1 else 0
  {
    var n := |updates| - 1;
    if i < n {
      AnswersDistinct(judge, updates[..n], i);
    } else {
      AnswersNone(judge, updates[..n], updates[i].key);
    }
  }

  lemma {:induction false} AnswersNone(judge: Update -> Verdict, updates: seq<Update>, key: string)
    requires forall i :: 0 <= i < |updates| ==> updates[i].key != key
    ensures Answers(judge, updates, key) == 0
  {
    if updates != [] {
      AnswersNone(judge, updates[..|updates| - 1], key);
    }
  }

  /** A live update is always answered, and no other update is. */
  lemma LiveIsAnswered(input: Input, u: Update)
    ensures Answered(VerdictOf(input, u)) <==> Live(input, u)
  {
    NothingDropped(input, u);
  }

  lemma {:induction false} VersionsMentioned(blocked: seq<Update>, key: string)
    requires DistinctKeys(blocked)
    ensures Mentions(VersionActions(blocked), key) == if HasKey(blocked, key) then 1 else 0
  {
    if blocked != [] {
      var n := |blocked| - 1;
      VersionsMentioned(blocked[..n], key);
      var last := PlanAction(BlockedAction, [blocked[n].key], false, None, None, OtherVersionSelected);
      MentionsConcat(VersionActions(blocked[..n]), [last], key);
      MentionsOne(last, key);
      if HasKey(blocked[..n], key) {
        var i :| 0 <= i < n && blocked[..n][i].key == key;
        assert blocked[i].key == key;
      }
    }
  }

  lemma {:induction false} OccurrencesPositive(s: seq<string>, x: string)
    ensures x in s <==> Occurrences(s, x) > 0
  {
    if s != [] {
      OccurrencesPositive(s[..|s| - 1], x);
    }
  }

  function SelectionOf(input: Input, collation: Collation): Selection {
    Constrained(input.device.isMacos, input.updates, InstallKeys(Judge(input), input.updates), collation)
  }

  /** The actions that concern no update. */
  lemma GeneralActions(input: Input, key: string)
    ensures Mentions(NativeActions(input) + OpeningActions(input), key) == 0
    ensures Mentions(RebootActions(input), key) == 0
  {
    GeneralMentionsNothing(NativeActions(input), key);
    GeneralMentionsNothing(OpeningActions(input), key);
    GeneralMentionsNothing(RebootActions(input), key);
    MentionsConcat(NativeActions(input), OpeningActions(input), key);
  }

  lemma InstallMentioned(input: Input, keys: seq<string>, key: string)
    ensures Mentions(InstallActions(input, keys), key) == if key in keys then 1 else 0
  {
    if keys != [] {
      MentionsOne(InstallActions(input, keys)[0], key);
      assert InstallActions(input, keys) == [InstallActions(input, keys)[0]];
    }
  }

  /** A plan that reaches the updates mentions a key as often as its parts do. */
  lemma PlanMentions(input: Input, collation: Collation, key: string)
    requires !CutShort(input)
    ensures
      var selection := SelectionOf(input, collation);
      Mentions(Plan(input, collation), key)
      == Mentions(UpdateActions(Judge(input), input.updates), key)
         + Mentions(VersionActions(selection.blocked), key)
         + Mentions(InstallActions(input, selection.installKeys), key)
  {
    var selection := SelectionOf(input, collation);
    var opening := NativeActions(input) + OpeningActions(input);
    var updates := UpdateActions(Judge(input), input.updates);
    var versions := VersionActions(selection.blocked);
    var install := InstallActions(input, selection.installKeys);
    GeneralActions(input, key);
    MentionsConcat(opening, updates, key);
    MentionsConcat(opening + updates, versions, key);
    MentionsConcat(opening + updates + versions, install, key);
    MentionsConcat(opening + updates + versions + install, RebootActions(input), key);
    var nothing := General(ReportOnly, false, None, NothingToDo);
    MentionsConcat(opening + updates + versions + install + RebootActions(input), [nothing], key);
    MentionsOne(nothing, key);
  }

  /** Before the macOS pass a live update is in one action or once among the keys to install. */
  lemma AnsweredBeforePass(input: Input, i: nat)
    requires DistinctKeys(input.updates) && i < |input.updates|
    ensures
      var key := input.updates[i].key;
      Mentions(UpdateActions(Judge(input), input.updates), key)
      + Occurrences(InstallKeys(Judge(input), input.updates), key)
      == if Live(input, input.updates[i]) then 1 else 0
  {
    UpdatesAnswered(Judge(input), input.updates, input.updates[i].key);
    AnswersDistinct(Judge(input), input.updates, i);
    LiveIsAnswered(input, input.updates[i]);
  }

  /** After the pass a key to install is in one version action or in the install action. */
  lemma AnsweredAfterPass(input: Input, collation: Collation, key: string)
    ensures
      var selection := SelectionOf(input, collation);
      Mentions(VersionActions(selection.blocked), key) + Mentions(InstallActions(input, selection.installKeys), key)
      == if key in InstallKeys(Judge(input), input.updates) then 1 else 0
  {
    var keys := InstallKeys(Judge(input), input.updates);
    var selection := SelectionOf(input, collation);
    BlockedDistinct(input.device.isMacos, input.updates, keys, collation);
    VersionsMentioned(selection.blocked, key);
    InstallMentioned(input, selection.installKeys, key);
    SelectionConserves(input.device.isMacos, input.updates, keys, collation, key);
  }

  /**
   In a plan that is not cut short, every live update of a device with distinct update keys is
   answered by exactly one action, and every other update by none.
   */
  lemma PlanAnswersEachUpdate(input: Input, collation: Collation, i: nat)
    requires !CutShort(input) && DistinctKeys(input.updates) && i < |input.updates|
    ensures Mentions(Plan(input, collation), input.updates[i].key) == if Live(input, input.updates[i]) then 1 else 0
  {
    var key := input.updates[i].key;
    PlanMentions(input, collation, key);
    AnsweredBeforePass(input, i);
    AnsweredAfterPass(input, collation, key);
    OccurrencesPositive(InstallKeys(Judge(input), input.updates), key);
  }

  lemma {:induction false} InstallKeysMeaning(judge: Update -> Verdict, updates: seq<Update>, i: nat)
    requires DistinctKeys(updates) && i < |updates|
    ensures updates[i].key in InstallKeys(judge, updates) <==> judge(updates[i]).InstallNow?
  {
    var n := |updates| - 1;
    if i < n {
      InstallKeysMeaning(judge, updates[..n], i);
    } else {
      OnlyOwnKeys(judge, updates[..n], updates[i].key);
    }
  }

  lemma {:induction false} OnlyOwnKeys(judge: Update -> Verdict, updates: seq<Update>, key: string)
    requires forall i :: 0 <= i < |updates| ==> updates[i].key != key
    ensures key !in InstallKeys(judge, updates)
  {
    if updates != [] {
      OnlyOwnKeys(judge, updates[..|updates| - 1], key);
    }
  }

  lemma {:induction false} UpdatesOnlyHoldBack(judge: Update -> Verdict, updates: seq<Update>)
    ensures forall a :: a in UpdateActions(judge, updates) ==> !a.kind.Install? && !a.kind.Reboot?
  {
    if updates != [] {
      UpdatesOnlyHoldBack(judge, updates[..|updates| - 1]);
    }
  }

  lemma {:induction false} VersionsOnlyHoldBack(blocked: seq<Update>)
    ensures forall a :: a in VersionActions(blocked) ==> !a.kind.Install? && !a.kind.Reboot?
  {
    if blocked != [] {
      VersionsOnlyHoldBack(blocked[..|blocked| - 1]);
    }
  }

  lemma InFive<T>(x: T, a: seq<T>, b: seq<T>, c: seq<T>, d: seq<T>, e: seq<T>)
    ensures x in a + b + c + d + e <==> x in a || x in b || x in c || x in d || x in e
  {
  }

  /** The parts an action of a plan can come from. */
  lemma InPlan(input: Input, collation: Collation, a: PlanAction)
    requires !a.kind.ReportOnly?
    ensures
      var selection := SelectionOf(input, collation);
      a in Plan(input, collation) <==>
        || a in NativeActions(input) + OpeningActions(input)
        || (!CutShort(input) &&
              (|| a in UpdateActions(Judge(input), input.updates)
               || a in VersionActions(selection.blocked)
               || a in InstallActions(input, selection.installKeys)
               || a in RebootActions(input)))
  {
    if !CutShort(input) {
      var opening := NativeActions(input) + OpeningActions(input);
      var updates := UpdateActions(Judge(input), input.updates);
      var versions := VersionActions(SelectionOf(input, collation).blocked);
      var install := InstallActions(input, SelectionOf(input, collation).installKeys);
      InFive(a, opening, updates, versions, install, RebootActions(input));
    }
  }

  lemma InstallActionOfPlan(input: Input, collation: Collation, a: PlanAction)
    requires !CutShort(input) && a.kind.Install?
    ensures a in Plan(input, collation) <==> a in InstallActions(input, SelectionOf(input, collation).installKeys)
  {
    InPlan(input, collation, a);
    UpdatesOnlyHoldBack(Judge(input), input.updates);
    VersionsOnlyHoldBack(SelectionOf(input, collation).blocked);
  }

  lemma KeptIsInstalled(input: Input, collation: Collation, key: string) returns (a: PlanAction)
    requires !CutShort(input) && key in SelectionOf(input, collation).installKeys
    ensures a in Plan(input, collation) && a.kind.Install? && key in a.updateKeys
  {
    var keys := SelectionOf(input, collation).installKeys;
    a := InstallActions(input, keys)[0];
    assert a in InstallActions(input, keys);
    InstallActionOfPlan(input, collation, a);
  }

  lemma InstalledIsKept(input: Input, collation: Collation, key: string, a: PlanAction)
    requires !CutShort(input) && a in Plan(input, collation) && a.kind.Install? && key in a.updateKeys
    ensures key in SelectionOf(input, collation).installKeys
  {
    InstallActionOfPlan(input, collation, a);
    InstallActionKeys(input, SelectionOf(input, collation).installKeys, a, key);
  }

  lemma InstallActionKeys(input: Input, keys: seq<string>, a: PlanAction, key: string)
    requires a in InstallActions(input, keys) && key in a.updateKeys
    ensures key in keys
  {
  }

  /** The plan installs exactly the updates whose verdict is to install and that the macOS pass keeps. */
  lemma PlanInstallsExactly(input: Input, collation: Collation, i: nat)
    requires !CutShort(input) && DistinctKeys(input.updates) && i < |input.updates|
    ensures
      var u := input.updates[i];
      (exists a :: a in Plan(input, collation) && a.kind.Install? && u.key in a.updateKeys)
      <==> VerdictOf(input, u).InstallNow? && u.key !in Keys(SelectionOf(input, collation).blocked)
  {
    var key := input.updates[i].key;
    InstallKeysMeaning(Judge(input), input.updates, i);
    SelectionConserves(input.device.isMacos, input.updates, InstallKeys(Judge(input), input.updates), collation, key);
    if key in SelectionOf(input, collation).installKeys {
      var a := KeptIsInstalled(input, collation, key);
    }
    if a :| a in Plan(input, collation) && a.kind.Install? && key in a.updateKeys {
      InstalledIsKept(input, collation, key, a);
    }
  }

  lemma BlockedVerdict(input: Input, u: Update)
    requires Asked(input, u, Block)
    ensures !VerdictOf(input, u).InstallNow?
  {
    AskedIsFound(input, u, Block);
  }

  /** A block override beats every force and emergency override. */
  lemma BlockBeatsForce(input: Input, collation: Collation, i: nat)
    requires !CutShort(input) && DistinctKeys(input.updates) && i < |input.updates|
    requires Asked(input, input.updates[i], Block)
    ensures forall a :: a in Plan(input, collation) && a.kind.Install? ==> input.updates[i].key !in a.updateKeys
  {
    BlockedVerdict(input, input.updates[i]);
    PlanInstallsExactly(input, collation, i);
  }

  // ----- windows and reboots

  const DAY_MINUTES: nat := 24 * 60

  /** A window is the stretch of the daily cycle from its start up to, but not including, its end. */
  lemma WindowIsCyclic(w: Window)
    requires w.enabled && w.start.Some? && w.end.Some? && w.start != w.end
    requires w.start.value < DAY_MINUTES && w.end.value < DAY_MINUTES && w.localNow < DAY_MINUTES
    ensures IsWithinWindow(w) <==>
      (w.localNow - w.start.value) % DAY_MINUTES < (w.end.value - w.start.value) % DAY_MINUTES
  {
  }

  predicate AutomaticReboot(input: Input) {
    && input.device.rebootRequired && !ManualInstallOnly(input)
    && !Running(WithAction(DeviceOverrides(input), DeferReboot), input.now)
    && !(input.device.isServer && input.policy.serverRebootManualOnly)
    && input.policy.allowAutomaticReboot && IsWithinWindow(input.policy.rebootWindow)
  }

  lemma InstallsDoNotReboot(input: Input, keys: seq<string>)
    ensures forall a :: a in InstallActions(input, keys) ==> !a.kind.Reboot?
  {
  }

  lemma RebootActionOfPlan(input: Input, collation: Collation, a: PlanAction)
    requires a.kind.Reboot?
    ensures a in Plan(input, collation) <==>
      a in NativeActions(input) + OpeningActions(input) || (!CutShort(input) && a in RebootActions(input))
  {
    InPlan(input, collation, a);
    UpdatesOnlyHoldBack(Judge(input), input.updates);
    VersionsOnlyHoldBack(SelectionOf(input, collation).blocked);
    InstallsDoNotReboot(input, SelectionOf(input, collation).installKeys);
  }

  lemma OpeningReboots(input: Input)
    ensures (exists a :: a in NativeActions(input) + OpeningActions(input) && a.kind.Reboot?)
      <==> Managed(input) && HasAction(DeviceOverrides(input), ForceReboot)
  {
    if Managed(input) && HasAction(DeviceOverrides(input), ForceReboot) {
      assert OpeningActions(input)[0] in NativeActions(input) + OpeningActions(input);
    }
  }

  lemma ClosingReboots(input: Input)
    ensures (exists a :: a in RebootActions(input) && a.kind.Reboot?) <==> AutomaticReboot(input)
  {
    if AutomaticReboot(input) {
      assert RebootActions(input)[0] in RebootActions(input);
    }
  }

  /** The device reboots exactly on request, or when a required reboot may happen automatically now. */
  lemma RebootsExactly(input: Input, collation: Collation)
    ensures (exists a :: a in Plan(input, collation) && a.kind.Reboot?) <==>
      || (Managed(input) && HasAction(DeviceOverrides(input), ForceReboot))
      || (!CutShort(input) && AutomaticReboot(input))
  {
    forall a: PlanAction | a.kind.Reboot?
      ensures a in Plan(input, collation) <==>
        a in NativeActions(input) + OpeningActions(input) || (!CutShort(input) && a in RebootActions(input))
    {
      RebootActionOfPlan(input, collation, a);
    }
    OpeningReboots(input);
    ClosingReboots(input);
  }
}
