/**
 The lease protocol of an AI-runner job: one database row, any number of runners, one shared
 monotone clock. Every database access and every reading of the clock is a step of its own, so a
 lease call is interrupted between its read, its clock reading, its compare-and-set and the
 delivery of its answer. A runner may have any number of lease calls outstanding, each with its own
 time to live; it may stop waiting for one, a call may get lost before its write, and answers arrive
 in any order.
 */
module Leases {
  import opened Common
  import opened JobStatus

  type RunnerId = string
  type LeaseId = nat
  type CallId = nat
  type Time = int

  /** The columns of the job row that the lease functions read or write. */
  datatype Row = Row(
    status: AiRunnerJobStatus,
    leaseId: Option<LeaseId>,
    owner: Option<RunnerId>,
    expiresAt: Option<Time>)

  /** What an accepted answer tells the runner. */
  datatype Grant = Grant(leaseId: LeaseId, expiresAt: Time)

  /** How far an outstanding lease call of runner `r` has got. */
  datatype Call =
    | AcquireRead(r: RunnerId, snapshot: Row, ttlMs: int)
    | AcquireClaim(r: RunnerId, leaseId: LeaseId, now: Time, ttlMs: int)
    | HeartbeatWrite(r: RunnerId, leaseId: LeaseId, now: Time, ttlMs: int)
    | ReleaseWrite(r: RunnerId, leaseId: LeaseId)
    | Answer(r: RunnerId, grant: Option<Grant>)

  /**
   `held` is the last lease reported to each runner that it has not asked to release since. A call in
   `abandoned` runs on, but its runner no longer waits for the answer.
   */
  datatype State = State(
    clock: Time,
    row: Row,
    issued: set<LeaseId>,
    calls: map<CallId, Call>,
    abandoned: set<CallId>,
    held: map<RunnerId, Grant>)

  datatype Label =
    | Tick(delay: nat)
    | BeginAcquire(c: CallId, r: RunnerId, ttlMs: int)
    | DecideAcquire(c: CallId, freshId: LeaseId)
    | ClaimLease(c: CallId)
    | BeginHeartbeat(c: CallId, r: RunnerId, leaseId: LeaseId, ttlMs: int)
    | CommitHeartbeat(c: CallId)
    | BeginRelease(c: CallId, r: RunnerId, leaseId: LeaseId)
    | CommitRelease(c: CallId)
    | Deliver(c: CallId)
    | Abandon(c: CallId)
    | Lose(c: CallId)
    | Reconcile(leaseId: LeaseId, now: Time)
    | WriteStatus(status: AiRunnerJobStatus)

  const MIN_TTL_MS: int := 1000

  function EffectiveTtl(ttlMs: int): int {
    if ttlMs < MIN_TTL_MS then MIN_TTL_MS else ttlMs
  }

  /** The lease of the row that is still running at `now`. */
  function ActiveLeaseId(row: Row, now: Time): Option<LeaseId> {
    if row.leaseId.Some? && row.expiresAt.Some? && row.expiresAt.value > now then row.leaseId else None
  }

  function WithCall(s: State, c: CallId, call: Call): State {
    s.(calls := s.calls[c := call])
  }

  // ----- the compare-and-set writes

  predicate ClaimGuard(row: Row, now: Time) {
    && IsActive(row.status)
    && (row.leaseId.None? || row.expiresAt.None? || row.expiresAt.value <= now)
  }

  predicate HeartbeatGuard(row: Row, leaseId: LeaseId, r: RunnerId, now: Time) {
    && row.leaseId == Some(leaseId)
    && row.owner == Some(r)
    && row.expiresAt.Some? && row.expiresAt.value > now
    && IsActive(row.status)
  }

  predicate ReleaseGuard(row: Row, leaseId: LeaseId, r: RunnerId) {
    row.leaseId == Some(leaseId) && row.owner == Some(r)
  }

  predicate ReconcileGuard(row: Row, leaseId: LeaseId, now: Time) {
    && row.leaseId == Some(leaseId)
    && IsActive(row.status)
    && row.expiresAt.Some? && row.expiresAt.value <= now
  }

  // ----- the steps

  /** What the acquire call does with the row it read, once it has read the clock. */
  function Decision(read: Call, freshId: LeaseId, now: Time): Call
    requires read.AcquireRead?
  {
    var AcquireRead(r, snapshot, ttlMs) := read;
    if IsTerminal(snapshot.status) then Answer(r, None)
    else
      var active := ActiveLeaseId(snapshot, now);
      if active.Some? && snapshot.owner == Some(r) then
        Answer(r, Some(Grant(active.value, snapshot.expiresAt.value)))
      else if active.Some? then Answer(r, None)
      else AcquireClaim(r, freshId, now, ttlMs)
  }

  predicate Enabled(s: State, l: Label) {
    match l
    case Tick(_) => true
    case BeginAcquire(c, _, _) => c !in s.calls
    case DecideAcquire(c, freshId) => c in s.calls && s.calls[c].AcquireRead? && freshId !in s.issued
    case ClaimLease(c) => c in s.calls && s.calls[c].AcquireClaim?
    case BeginHeartbeat(c, _, _, _) => c !in s.calls
    case CommitHeartbeat(c) => c in s.calls && s.calls[c].HeartbeatWrite?
    case BeginRelease(c, _, _) => c !in s.calls
    case CommitRelease(c) => c in s.calls && s.calls[c].ReleaseWrite?
    case Deliver(c) => c in s.calls && s.calls[c].Answer?
    case Abandon(c) => c in s.calls
    case Lose(c) => c in s.calls
    case Reconcile(_, now) => now <= s.clock
    case WriteStatus(_) => true
  }

  function Next(s: State, l: Label): State
    requires Enabled(s, l)
  {
    match l
    case Tick(delay) => s.(clock := s.clock + delay)
    case BeginAcquire(c, r, ttlMs) => WithCall(s, c, AcquireRead(r, s.row, ttlMs))
    case DecideAcquire(c, freshId) =>
      WithCall(s, c, Decision(s.calls[c], freshId, s.clock)).(issued := s.issued + {freshId})
    case ClaimLease(c) =>
      var AcquireClaim(r, leaseId, now, ttlMs) := s.calls[c];
      if ClaimGuard(s.row, now) then
        var expiresAt := now + EffectiveTtl(ttlMs);
        WithCall(s, c, Answer(r, Some(Grant(leaseId, expiresAt))))
        .(row := Row(s.row.status, Some(leaseId), Some(r), Some(expiresAt)))
      else WithCall(s, c, Answer(r, None))
    case BeginHeartbeat(c, r, leaseId, ttlMs) => WithCall(s, c, HeartbeatWrite(r, leaseId, s.clock, ttlMs))
    case CommitHeartbeat(c) =>
      var HeartbeatWrite(r, leaseId, now, ttlMs) := s.calls[c];
      if HeartbeatGuard(s.row, leaseId, r, now) then
        var expiresAt := now + EffectiveTtl(ttlMs);
        WithCall(s, c, Answer(r, Some(Grant(leaseId, expiresAt)))).(row := s.row.(expiresAt := Some(expiresAt)))
      else WithCall(s, c, Answer(r, None))
    case BeginRelease(c, r, leaseId) =>
      var begun := WithCall(s, c, ReleaseWrite(r, leaseId));
      if r in s.held && s.held[r].leaseId == leaseId then begun.(held := s.held - {r}) else begun
    case CommitRelease(c) =>
      var ReleaseWrite(r, leaseId) := s.calls[c];
      if ReleaseGuard(s.row, leaseId, r) then
        WithCall(s, c, Answer(r, None)).(row := Row(s.row.status, None, None, None))
      else WithCall(s, c, Answer(r, None))
    case Deliver(c) =>
      var Answer(r, grant) := s.calls[c];
      var reported := grant.Some? && c !in s.abandoned;
      s.(calls := s.calls - {c},
         abandoned := s.abandoned - {c},
         held := if reported then s.held[r := grant.value] else s.held)
    case Abandon(c) => s.(abandoned := s.abandoned + {c})
    case Lose(c) => s.(calls := s.calls - {c}, abandoned := s.abandoned - {c})
    case Reconcile(leaseId, now) =>
      if ReconcileGuard(s.row, leaseId, now) then s.(row := Row(Failed, None, None, None)) else s
    case WriteStatus(status) => s.(row := s.row.(status := status))
  }

  predicate Init(s: State) {
    && s.row.leaseId.None? && s.row.owner.None? && s.row.expiresAt.None?
    && s.issued == {} && s.calls == map[] && s.abandoned == {} && s.held == map[]
  }

  /**
   The state after a schedule: any interleaving of the steps of any number of runners, reconcilers and
   other writers. A step that is not enabled is skipped.
   */
  function Exec(s: State, schedule: seq<Label>): State {
    if schedule == [] then s
    else
      var before := Exec(s, schedule[..|schedule| - 1]);
      var l := schedule[|schedule| - 1];
      if Enabled(before, l) then Next(before, l) else before
  }

  lemma ExecSnoc(s: State, schedule: seq<Label>, l: Label)
    requires Enabled(Exec(s, schedule), l)
    ensures Exec(s, schedule + [l]) == Next(Exec(s, schedule), l)
  {
    assert (schedule + [l])[..|schedule|] == schedule;
  }

  lemma {:induction false} ExecConcat(s: State, first: seq<Label>, more: seq<Label>)
    ensures Exec(s, first + more) == Exec(Exec(s, first), more)
  {
    if more == [] {
      assert first + more == first;
    } else {
      var n := |more| - 1;
      ExecConcat(s, first, more[..n]);
      assert (first + more)[..|first + more| - 1] == first + more[..n];
    }
  }

  // ----- what every step keeps

  predicate AllSetOrAllNull(row: Row) {
    row.leaseId.Some? == row.owner.Some? == row.expiresAt.Some?
  }

  predicate CallInv(s: State, call: Call) {
    match call
    case AcquireRead(_, snapshot, _) => AllSetOrAllNull(snapshot)
    case AcquireClaim(_, leaseId, now, _) => now <= s.clock && leaseId in s.issued && s.row.leaseId != Some(leaseId)
    case HeartbeatWrite(_, _, now, _) => now <= s.clock
    case _ => true
  }

  /** No two acquire calls are about to install the same lease id. */
  ghost predicate ClaimsDistinct(s: State) {
    forall c, c' ::
      c in s.calls && c' in s.calls && c != c' && s.calls[c].AcquireClaim? && s.calls[c'].AcquireClaim?
      ==> s.calls[c].leaseId != s.calls[c'].leaseId
  }

  ghost predicate ProtocolInv(s: State) {
    && AllSetOrAllNull(s.row)
    && (s.row.leaseId.Some? ==> s.row.leaseId.value in s.issued)
    && ClaimsDistinct(s)
    && forall c :: c in s.calls ==> CallInv(s, s.calls[c])
  }

  lemma CallInvKept(s: State, l: Label, c: CallId)
    requires ProtocolInv(s) && Enabled(s, l) && c in Next(s, l).calls
    ensures CallInv(Next(s, l), Next(s, l).calls[c])
  {
    if c in s.calls {
      assert CallInv(s, s.calls[c]);
    }
  }

  lemma ClaimsStayDistinct(s: State, l: Label)
    requires ProtocolInv(s) && Enabled(s, l)
    ensures ClaimsDistinct(Next(s, l))
  {
    forall c | c in s.calls ensures CallInv(s, s.calls[c]) {
    }
  }

  lemma ProtocolInvKept(s: State, l: Label)
    requires ProtocolInv(s) && Enabled(s, l)
    ensures ProtocolInv(Next(s, l))
  {
    ClaimsStayDistinct(s, l);
    forall c | c in Next(s, l).calls ensures CallInv(Next(s, l), Next(s, l).calls[c]) {
      CallInvKept(s, l, c);
    }
    if l.ClaimLease? {
      assert CallInv(s, s.calls[l.c]);
    }
  }

  lemma {:induction false} ProtocolInvAlways(start: State, schedule: seq<Label>)
    requires Init(start)
    ensures ProtocolInv(Exec(start, schedule))
  {
    if schedule != [] {
      var n := |schedule| - 1;
      ProtocolInvAlways(start, schedule[..n]);
      if Enabled(Exec(start, schedule[..n]), schedule[n]) {
        ProtocolInvKept(Exec(start, schedule[..n]), schedule[n]);
      }
    }
  }

  /** Under every schedule the three lease columns are all null or all set. */
  lemma LeaseColumnsTogether(start: State, schedule: seq<Label>)
    requires Init(start)
    ensures AllSetOrAllNull(Exec(start, schedule).row)
  {
    ProtocolInvAlways(start, schedule);
  }

  /** The id was generated, is not in the row, and no call is about to put it there. */
  ghost predicate Gone(s: State, leaseId: LeaseId) {
    && leaseId in s.issued
    && s.row.leaseId != Some(leaseId)
    && forall c :: c in s.calls && s.calls[c].AcquireClaim? ==> s.calls[c].leaseId != leaseId
  }

  lemma GonePreserved(s: State, l: Label, leaseId: LeaseId)
    requires Enabled(s, l) && Gone(s, leaseId)
    ensures Gone(Next(s, l), leaseId)
  {
  }

  /** A current lease id that leaves the row is gone. */
  lemma LeavingIsGone(s: State, l: Label, leaseId: LeaseId)
    requires ProtocolInv(s) && Enabled(s, l) && s.row.leaseId == Some(leaseId)
    ensures Next(s, l).row.leaseId == Some(leaseId) || Gone(Next(s, l), leaseId)
  {
    assert forall c :: c in s.calls ==> CallInv(s, s.calls[c]);
  }

  lemma {:induction false} CurrentOrGone(start: State, first: seq<Label>, more: seq<Label>, leaseId: LeaseId)
    requires Init(start)
    requires Exec(start, first).row.leaseId == Some(leaseId) || Gone(Exec(start, first), leaseId)
    ensures
      var s := Exec(start, first);
      var s' := Exec(s, more);
      && (s'.row.leaseId == Some(leaseId) || Gone(s', leaseId))
      && (Gone(s, leaseId) ==> Gone(s', leaseId))
  {
    if more != [] {
      var n := |more| - 1;
      CurrentOrGone(start, first, more[..n], leaseId);
      ExecConcat(start, first, more[..n]);
      ProtocolInvAlways(start, first + more[..n]);
      var s := Exec(Exec(start, first), more[..n]);
      if Enabled(s, more[n]) {
        if Gone(s, leaseId) {
          GonePreserved(s, more[n], leaseId);
        } else {
          LeavingIsGone(s, more[n], leaseId);
        }
      }
    }
  }

  /** A lease id that was current and was replaced or cleared never becomes current again. */
  lemma LeaseIdNeverReturns(start: State, first: seq<Label>, more: seq<Label>, last: seq<Label>, leaseId: LeaseId)
    requires Init(start)
    requires Exec(start, first).row.leaseId == Some(leaseId)
    requires Exec(start, first + more).row.leaseId != Some(leaseId)
    ensures Exec(start, first + more + last).row.leaseId != Some(leaseId)
  {
    ExecConcat(start, first, more);
    ExecConcat(start, first + more, last);
    CurrentOrGone(start, first, more, leaseId);
    CurrentOrGone(start, first + more, last, leaseId);
  }

  // ----- promised leases

  /** The row still carries a grant for as long as the grant has not expired. */
  predicate Backed(s: State, r: RunnerId, g: Grant) {
    g.expiresAt > s.clock ==>
      && s.row.leaseId == Some(g.leaseId)
      && s.row.owner == Some(r)
      && s.row.expiresAt.Some? && s.row.expiresAt.value >= g.expiresAt
  }

  /** The grant that a call will report: its answer, or the runner's own lease in the row it read. */
  function PromiseOf(s: State, c: CallId): Option<Grant>
    requires c in s.calls
  {
    if c in s.abandoned then None
    else match s.calls[c]
      case AcquireRead(r, snapshot, _) =>
        if !IsTerminal(snapshot.status) && snapshot.owner == Some(r)
           && snapshot.leaseId.Some? && snapshot.expiresAt.Some?
        then Some(Grant(snapshot.leaseId.value, snapshot.expiresAt.value)) else None
      case Answer(_, grant) => grant
      case _ => None
  }

  ghost predicate Inv(s: State) {
    && ProtocolInv(s)
    && (forall r :: r in s.held ==> Backed(s, r, s.held[r]))
    && (forall c :: c in s.calls && PromiseOf(s, c).Some? ==> Backed(s, s.calls[c].r, PromiseOf(s, c).value))
  }

  /**
   The step takes a live grant away from runner `r`: an accepted heartbeat of `r` that ends before the
   grant does, or an accepted release by `r`.
   */
  predicate UndercutsGrant(s: State, l: Label, r: RunnerId, g: Grant) {
    && Enabled(s, l)
    && g.expiresAt > s.clock
    && match l
       case CommitHeartbeat(c) =>
         var HeartbeatWrite(r', leaseId, now, ttlMs) := s.calls[c];
         r' == r && HeartbeatGuard(s.row, leaseId, r, now) && now + EffectiveTtl(ttlMs) < g.expiresAt
       case CommitRelease(c) => s.calls[c].r == r && ReleaseGuard(s.row, s.calls[c].leaseId, r)
       case _ => false
  }

  ghost predicate UndercutsHeld(s: State, l: Label, r: RunnerId) {
    r in s.held && UndercutsGrant(s, l, r, s.held[r])
  }

  ghost predicate UndercutsCall(s: State, l: Label, c: CallId) {
    c in s.calls && PromiseOf(s, c).Some? && UndercutsGrant(s, l, s.calls[c].r, PromiseOf(s, c).value)
  }

  /** The step undercuts a lease that its runner was told of, or is about to be told of. */
  ghost predicate Undercuts(s: State, l: Label) {
    (exists r :: UndercutsHeld(s, l, r)) || (exists c :: UndercutsCall(s, l, c))
  }

  ghost predicate Calm(s: State, schedule: seq<Label>) {
    schedule == [] ||
      var n := |schedule| - 1;
      Calm(s, schedule[..n]) && !Undercuts(Exec(s, schedule[..n]), schedule[n])
  }

  /** A step leaves a backed grant backed exactly when it does not undercut it. */
  lemma BackedExactly(s: State, l: Label, r: RunnerId, g: Grant)
    requires ProtocolInv(s) && Enabled(s, l) && Backed(s, r, g)
    ensures Backed(Next(s, l), r, g) <==> !UndercutsGrant(s, l, r, g)
  {
    if l.ClaimLease? {
      assert CallInv(s, s.calls[l.c]);
    }
  }

  lemma HeldKept(s: State, l: Label, r: RunnerId)
    requires Inv(s) && Enabled(s, l) && !Undercuts(s, l) && r in Next(s, l).held
    ensures Backed(Next(s, l), r, Next(s, l).held[r])
  {
    if l.Deliver? && s.calls[l.c].r == r && PromiseOf(s, l.c).Some? {
      assert Next(s, l).held[r] == PromiseOf(s, l.c).value;
    } else {
      assert !UndercutsHeld(s, l, r);
      BackedExactly(s, l, r, s.held[r]);
    }
  }

  predicate StepsCall(l: Label, c: CallId) {
    !l.Tick? && !l.Reconcile? && !l.WriteStatus? && l.c == c
  }

  /** The promise of a call that makes a step is new and shown by the row, or is the one it made before. */
  lemma OwnPromise(s: State, l: Label, c: CallId)
    requires Inv(s) && Enabled(s, l) && StepsCall(l, c)
    requires c in Next(s, l).calls && PromiseOf(Next(s, l), c).Some?
    ensures Backed(Next(s, l), Next(s, l).calls[c].r, PromiseOf(Next(s, l), c).value)
  {
    if l.DecideAcquire? {
      assert PromiseOf(s, c) == PromiseOf(Next(s, l), c);
    }
  }

  lemma PromiseKept(s: State, l: Label, c: CallId)
    requires Inv(s) && Enabled(s, l) && !Undercuts(s, l)
    requires c in Next(s, l).calls && PromiseOf(Next(s, l), c).Some?
    ensures Backed(Next(s, l), Next(s, l).calls[c].r, PromiseOf(Next(s, l), c).value)
  {
    if StepsCall(l, c) {
      OwnPromise(s, l, c);
    } else {
      assert c in s.calls && Next(s, l).calls[c] == s.calls[c];
      assert !UndercutsCall(s, l, c);
      BackedExactly(s, l, s.calls[c].r, PromiseOf(s, c).value);
    }
  }

  lemma InvPreserved(s: State, l: Label)
    requires Inv(s) && Enabled(s, l) && !Undercuts(s, l)
    ensures Inv(Next(s, l))
  {
    ProtocolInvKept(s, l);
    forall r | r in Next(s, l).held ensures Backed(Next(s, l), r, Next(s, l).held[r]) {
      HeldKept(s, l, r);
    }
    forall c | c in Next(s, l).calls && PromiseOf(Next(s, l), c).Some?
      ensures Backed(Next(s, l), Next(s, l).calls[c].r, PromiseOf(Next(s, l), c).value)
    {
      PromiseKept(s, l, c);
    }
  }

  lemma {:induction false} InvStays(s: State, schedule: seq<Label>)
    requires Inv(s) && Calm(s, schedule)
    ensures Inv(Exec(s, schedule))
  {
    if schedule != [] {
      var n := |schedule| - 1;
      InvStays(s, schedule[..n]);
      if Enabled(Exec(s, schedule[..n]), schedule[n]) {
        InvPreserved(Exec(s, schedule[..n]), schedule[n]);
      }
    }
  }

  // ----- the promises

  /** The runner believes it holds the job now: an unreleased lease whose reported expiry is ahead. */
  predicate Holds(s: State, r: RunnerId) {
    r in s.held && s.held[r].expiresAt > s.clock
  }

  ghost predicate TwoHolders(s: State) {
    exists r, r' :: r != r' && Holds(s, r) && Holds(s, r')
  }

  lemma OneHolder(s: State)
    requires Inv(s)
    ensures !TwoHolders(s)
  {
  }

  /** Under every schedule in which no step undercuts a live grant, two runners never both hold the job. */
  lemma LeaseExclusive(start: State, schedule: seq<Label>)
    requires Init(start) && Calm(start, schedule)
    ensures !TwoHolders(Exec(start, schedule))
  {
    InvStays(start, schedule);
    OneHolder(Exec(start, schedule));
  }

  /** The lease a runner believes in is the one the row carries, so its callbacks are accepted. */
  lemma HolderIsCurrent(start: State, schedule: seq<Label>, r: RunnerId)
    requires Init(start) && Calm(start, schedule) && Holds(Exec(start, schedule), r)
    ensures
      var s := Exec(start, schedule);
      s.row.owner == Some(r) && ActiveLeaseId(s.row, s.clock) == Some(s.held[r].leaseId)
  {
    InvStays(start, schedule);
    assert Backed(Exec(start, schedule), r, Exec(start, schedule).held[r]);
  }

  // ----- an undercut grant is lost

  /** A schedule without heartbeat or release writes undercuts nothing. */
  predicate Harmless(schedule: seq<Label>) {
    forall i :: 0 <= i < |schedule| ==> !schedule[i].CommitHeartbeat? && !schedule[i].CommitRelease?
  }

  lemma {:induction false} HarmlessIsCalm(s: State, schedule: seq<Label>)
    requires Harmless(schedule)
    ensures Calm(s, schedule)
  {
    if schedule != [] {
      HarmlessIsCalm(s, schedule[..|schedule| - 1]);
    }
  }

  lemma AnswerIsReported(s: State, c: CallId)
    requires c in s.calls && s.calls[c].Answer? && PromiseOf(s, c).Some?
    ensures Enabled(s, Deliver(c)) && Next(s, Deliver(c)).held == s.held[s.calls[c].r := PromiseOf(s, c).value]
    ensures Next(s, Deliver(c)).row == s.row && Next(s, Deliver(c)).clock == s.clock
  {
  }

  lemma OwnLeaseIsAnswered(s: State, c: CallId, freshId: LeaseId)
    requires c in s.calls && s.calls[c].AcquireRead? && freshId !in s.issued
    requires PromiseOf(s, c).Some? && PromiseOf(s, c).value.expiresAt > s.clock
    ensures Enabled(s, DecideAcquire(c, freshId))
    ensures
      var s' := Next(s, DecideAcquire(c, freshId));
      && s'.row == s.row && s'.clock == s.clock
      && c in s'.calls && s'.calls[c] == Answer(s.calls[c].r, PromiseOf(s, c)) && PromiseOf(s', c) == PromiseOf(s, c)
  {
  }

  /** The runner of a call is told of the grant the call promises, as long as the grant is live. */
  lemma PromiseIsReported(s: State, c: CallId) returns (schedule: seq<Label>)
    requires c in s.calls && PromiseOf(s, c).Some? && PromiseOf(s, c).value.expiresAt > s.clock
    ensures Harmless(schedule)
    ensures
      var s' := Exec(s, schedule);
      && s'.clock == s.clock && s'.row == s.row
      && s.calls[c].r in s'.held && s'.held[s.calls[c].r] == PromiseOf(s, c).value
  {
    if s.calls[c].Answer? {
      AnswerIsReported(s, c);
      schedule := [Deliver(c)];
      OneStep(s, Deliver(c));
    } else {
      var freshId := FreshNumber(s.issued);
      OwnLeaseIsAnswered(s, c, freshId);
      var decided := Next(s, DecideAcquire(c, freshId));
      AnswerIsReported(decided, c);
      schedule := [DecideAcquire(c, freshId)] + [Deliver(c)];
      OneStep(s, DecideAcquire(c, freshId));
      ExecSnoc(s, [DecideAcquire(c, freshId)], Deliver(c));
    }
  }

  lemma OneStep(s: State, l: Label)
    requires Enabled(s, l)
    ensures Exec(s, [l]) == Next(s, l)
  {
    ExecSnoc(s, [], l);
    assert [] + [l] == [l];
  }

  predicate Begins(l: Label) {
    l.BeginAcquire? || l.BeginHeartbeat? || l.BeginRelease?
  }

  /** The runner waits for an answer. */
  ghost predicate Awaits(s: State, r: RunnerId) {
    exists c :: c in s.calls && s.calls[c].r == r && c !in s.abandoned
  }

  /** Every runner begins a call only when it has the answer of the one before or has given up on it. */
  ghost predicate OneAwaited(s: State, schedule: seq<Label>) {
    schedule == [] ||
      var n := |schedule| - 1;
      OneAwaited(s, schedule[..n]) && (Begins(schedule[n]) ==> !Awaits(Exec(s, schedule[..n]), schedule[n].r))
  }

  lemma AwaitedSnoc(s: State, schedule: seq<Label>, l: Label)
    requires OneAwaited(s, schedule) && (Begins(l) ==> !Awaits(Exec(s, schedule), l.r))
    ensures OneAwaited(s, schedule + [l])
  {
    assert (schedule + [l])[..|schedule|] == schedule;
  }

  lemma {:induction false} AwaitedConcat(s: State, first: seq<Label>, more: seq<Label>)
    requires OneAwaited(s, first) && OneAwaited(Exec(s, first), more)
    ensures OneAwaited(s, first + more)
  {
    if more == [] {
      assert first + more == first;
    } else {
      var n := |more| - 1;
      AwaitedConcat(s, first, more[..n]);
      ExecConcat(s, first, more[..n]);
      assert (first + more)[..|first + more| - 1] == first + more[..n];
    }
  }

  lemma {:induction false} NothingBegun(s: State, schedule: seq<Label>)
    requires forall l :: l in schedule ==> !Begins(l)
    ensures OneAwaited(s, schedule)
  {
    if schedule != [] {
      NothingBegun(s, schedule[..|schedule| - 1]);
    }
  }

  /** A runner that finds an active job's row free is granted a new lease. */
  lemma AcquireAlone(s: State, c: CallId, r: RunnerId, freshId: LeaseId, ttlMs: int) returns (schedule: seq<Label>)
    requires c !in s.calls && c !in s.abandoned && freshId !in s.issued
    requires ClaimGuard(s.row, s.clock)
    ensures Harmless(schedule) && (!Awaits(s, r) ==> OneAwaited(s, schedule))
    ensures
      var s' := Exec(s, schedule);
      var expiresAt := s.clock + EffectiveTtl(ttlMs);
      && s'.clock == s.clock && s'.row == Row(s.row.status, Some(freshId), Some(r), Some(expiresAt))
      && s'.calls == s.calls && s'.abandoned == s.abandoned && s'.issued == s.issued + {freshId}
      && s'.held == s.held[r := Grant(freshId, expiresAt)]
  {
    ActiveIsNotTerminal(s.row.status);
    var begin := [BeginAcquire(c, r, ttlMs)];
    var finish := [DecideAcquire(c, freshId)] + [ClaimLease(c)] + [Deliver(c)];
    schedule := begin;
    OneStep(s, schedule[0]);
    assert Exec(s, schedule).calls[c] == AcquireRead(r, s.row, ttlMs);
    ExecSnoc(s, schedule, DecideAcquire(c, freshId));
    schedule := schedule + [DecideAcquire(c, freshId)];
    assert Exec(s, schedule).calls[c] == AcquireClaim(r, freshId, s.clock, ttlMs);
    ExecSnoc(s, schedule, ClaimLease(c));
    schedule := schedule + [ClaimLease(c)];
    ExecSnoc(s, schedule, Deliver(c));
    schedule := schedule + [Deliver(c)];
    assert Exec(s, schedule).calls == s.calls;
    if !Awaits(s, r) {
      AwaitedSnoc(s, [], BeginAcquire(c, r, ttlMs));
      assert [] + begin == begin;
      NothingBegun(Exec(s, begin), finish);
      AwaitedConcat(s, begin, finish);
      assert begin + finish == schedule;
    }
  }

  predicate FreeAt(row: Row, now: Time) {
    row.leaseId.None? || row.expiresAt.None? || row.expiresAt.value <= now
  }

  /** A job whose row is free at a time when `r` still holds a grant is taken by another runner. */
  lemma FreeRowIsTaken(s: State, r: RunnerId, free: Time) returns (schedule: seq<Label>)
    requires r in s.held && s.clock <= free < s.held[r].expiresAt && FreeAt(s.row, free)
    ensures Harmless(schedule) && TwoHolders(Exec(s, schedule))
    ensures !Awaits(s, r + "+") ==> OneAwaited(s, schedule)
  {
    var waited := [Tick(free - s.clock)];
    OneStep(s, waited[0]);
    ExecSnoc(s, waited, WriteStatus(Running));
    waited := waited + [WriteStatus(Running)];
    var s' := Exec(s, waited);
    var other := r + "+";
    var c := FreshNumber(s'.calls.Keys + s'.abandoned);
    var freshId := FreshNumber(s'.issued);
    var taken := AcquireAlone(s', c, other, freshId, MIN_TTL_MS);
    ExecConcat(s, waited, taken);
    schedule := waited + taken;
    assert Holds(Exec(s, schedule), r) && Holds(Exec(s, schedule), other);
    if !Awaits(s, other) {
      NothingBegun(s, waited);
      AwaitedConcat(s, waited, taken);
    }
  }

  /** When the row is free again after a step that undercuts the grant. */
  lemma UndercutRowIsFree(s: State, l: Label, r: RunnerId, g: Grant) returns (free: Time)
    requires ProtocolInv(s) && UndercutsGrant(s, l, r, g)
    ensures Next(s, l).clock <= free < g.expiresAt
    ensures FreeAt(Next(s, l).row, free)
  {
    free := s.clock;
    if l.CommitHeartbeat? && s.clock < Next(s, l).row.expiresAt.value {
      free := Next(s, l).row.expiresAt.value;
    }
  }

  lemma UndercutIsLost(s: State, l: Label) returns (schedule: seq<Label>)
    requires Inv(s) && Undercuts(s, l)
    ensures Enabled(s, l) && Harmless(schedule) && TwoHolders(Exec(Next(s, l), schedule))
  {
    var s' := Next(s, l);
    if r :| UndercutsHeld(s, l, r) {
      var free := UndercutRowIsFree(s, l, r, s.held[r]);
      schedule := FreeRowIsTaken(s', r, free);
    } else {
      var c :| UndercutsCall(s, l, c);
      var r, g := s.calls[c].r, PromiseOf(s, c).value;
      var free := UndercutRowIsFree(s, l, r, g);
      assert PromiseOf(s', c) == PromiseOf(s, c);
      var reported := PromiseIsReported(s', c);
      var taken := FreeRowIsTaken(Exec(s', reported), r, free);
      ExecConcat(s', reported, taken);
      schedule := reported + taken;
    }
  }

  /** Some way to go on, without undercutting a live grant, ends with two runners holding the job. */
  ghost predicate CanBeLost(s: State) {
    exists more :: Calm(s, more) && TwoHolders(Exec(s, more))
  }

  /**
   The condition of `LeaseExclusive` is exact: from a state of a calm schedule, a step makes a later
   double holding possible without any further undercut exactly when it undercuts a live grant itself.
   */
  lemma LostExactlyWhenUndercut(start: State, schedule: seq<Label>, l: Label)
    requires Init(start) && Calm(start, schedule) && Enabled(Exec(start, schedule), l)
    ensures
      var s := Exec(start, schedule);
      Undercuts(s, l) <==> CanBeLost(Next(s, l))
  {
    var s := Exec(start, schedule);
    InvStays(start, schedule);
    if Undercuts(s, l) {
      var more := UndercutIsLost(s, l);
      HarmlessIsCalm(Next(s, l), more);
    } else {
      InvPreserved(s, l);
      forall more | Calm(Next(s, l), more) ensures !TwoHolders(Exec(Next(s, l), more)) {
        InvStays(Next(s, l), more);
        OneHolder(Exec(Next(s, l), more));
      }
    }
  }

  // ----- runners that take turns

  /** A call of the runner is outstanding. */
  ghost predicate Busy(s: State, r: RunnerId) {
    exists c :: c in s.calls && s.calls[c].r == r
  }

  /**
   A runner begins an acquire or a heartbeat only when no call of it is outstanding, and a release only
   when it awaits no answer; every call asks for the same time to live.
   */
  ghost predicate TakesTurn(s: State, l: Label, ttlMs: int) {
    match l
    case BeginAcquire(_, r, ttl) => !Busy(s, r) && ttl == ttlMs
    case BeginHeartbeat(_, r, _, ttl) => !Busy(s, r) && ttl == ttlMs
    case BeginRelease(_, r, _) => !Awaits(s, r)
    case _ => true
  }

  ghost predicate TakeTurns(s: State, schedule: seq<Label>, ttlMs: int) {
    schedule == [] ||
      var n := |schedule| - 1;
      TakeTurns(s, schedule[..n], ttlMs) && TakesTurn(Exec(s, schedule[..n]), schedule[n], ttlMs)
  }

  predicate CallInTurn(s: State, c: CallId, ttlMs: int)
    requires c in s.calls
  {
    && (PromiseOf(s, c).Some? ==> PromiseOf(s, c).value.expiresAt <= s.clock + EffectiveTtl(ttlMs))
    && match s.calls[c]
       case HeartbeatWrite(r, _, now, ttl) =>
         ttl == ttlMs && (r in s.held ==> s.held[r].expiresAt <= now + EffectiveTtl(ttlMs))
       case ReleaseWrite(r, leaseId) => r in s.held ==> s.held[r].leaseId != leaseId
       case AcquireRead(_, _, ttl) => ttl == ttlMs
       case AcquireClaim(_, _, _, ttl) => ttl == ttlMs
       case Answer(_, _) => true
  }

  /** Of several calls of one runner each is abandoned or a release, so none of them promises anything. */
  predicate PairInTurn(s: State, c: CallId, c': CallId) {
    c in s.calls && c' in s.calls && c != c' && s.calls[c].r == s.calls[c'].r ==>
      c in s.abandoned || s.calls[c].ReleaseWrite? || s.calls[c] == Answer(s.calls[c].r, None)
  }

  ghost predicate TurnInv(s: State, ttlMs: int) {
    && (s.row.expiresAt.Some? ==> s.row.expiresAt.value <= s.clock + EffectiveTtl(ttlMs))
    && (forall r :: r in s.held ==> s.held[r].expiresAt <= s.clock + EffectiveTtl(ttlMs))
    && (forall c, c' :: PairInTurn(s, c, c'))
    && (forall c :: c in s.calls ==> CallInTurn(s, c, ttlMs))
  }

  lemma NoUndercutInTurn(s: State, l: Label, ttlMs: int)
    requires Inv(s) && TurnInv(s, ttlMs)
    ensures !Undercuts(s, l)
  {
    if Enabled(s, l) && (l.CommitHeartbeat? || l.CommitRelease?) {
      assert CallInTurn(s, l.c, ttlMs);
      forall r ensures !UndercutsHeld(s, l, r) {
        assert r in s.held ==> Backed(s, r, s.held[r]);
      }
      forall c ensures !UndercutsCall(s, l, c) {
        assert PairInTurn(s, c, l.c);
      }
    }
  }

  /** A call that makes no step stays in turn; a delivered grant is of another runner. */
  lemma BystanderInTurn(s: State, l: Label, c: CallId, ttlMs: int)
    requires TurnInv(s, ttlMs) && Enabled(s, l) && c in s.calls && !StepsCall(l, c)
    ensures c in Next(s, l).calls && CallInTurn(Next(s, l), c, ttlMs)
  {
    assert CallInTurn(s, c, ttlMs);
    if l.Deliver? {
      assert PairInTurn(s, l.c, c);
    }
  }

  lemma ActorInTurn(s: State, l: Label, c: CallId, ttlMs: int)
    requires ProtocolInv(s) && TurnInv(s, ttlMs) && Enabled(s, l) && TakesTurn(s, l, ttlMs)
    requires StepsCall(l, c) && c in Next(s, l).calls
    ensures CallInTurn(Next(s, l), c, ttlMs)
  {
    if c in s.calls {
      assert CallInTurn(s, c, ttlMs) && CallInv(s, s.calls[c]);
    }
  }

  lemma PairKeptByBegin(s: State, l: Label, c: CallId, c': CallId, ttlMs: int)
    requires TurnInv(s, ttlMs) && Enabled(s, l) && TakesTurn(s, l, ttlMs) && Begins(l)
    ensures PairInTurn(Next(s, l), c, c')
  {
    assert PairInTurn(s, c, c');
    if l.BeginRelease? {
      assert forall x :: x in s.calls && s.calls[x].r == l.r ==> x in s.abandoned;
    } else {
      assert forall x :: x in s.calls ==> s.calls[x].r != l.r;
    }
  }

  lemma PairKept(s: State, l: Label, c: CallId, c': CallId, ttlMs: int)
    requires TurnInv(s, ttlMs) && Enabled(s, l) && TakesTurn(s, l, ttlMs)
    ensures PairInTurn(Next(s, l), c, c')
  {
    if Begins(l) {
      PairKeptByBegin(s, l, c, c', ttlMs);
    } else {
      assert PairInTurn(s, c, c');
    }
  }

  lemma TurnInvKept(s: State, l: Label, ttlMs: int)
    requires ProtocolInv(s) && TurnInv(s, ttlMs) && Enabled(s, l) && TakesTurn(s, l, ttlMs)
    ensures TurnInv(Next(s, l), ttlMs)
  {
    var s' := Next(s, l);
    forall c | c in s'.calls ensures CallInTurn(s', c, ttlMs) {
      if StepsCall(l, c) {
        ActorInTurn(s, l, c, ttlMs);
      } else {
        BystanderInTurn(s, l, c, ttlMs);
      }
    }
    forall c, c' ensures PairInTurn(s', c, c') {
      PairKept(s, l, c, c', ttlMs);
    }
    if l.ClaimLease? || l.CommitHeartbeat? || l.Deliver? {
      assert CallInTurn(s, l.c, ttlMs) && CallInv(s, s.calls[l.c]);
    }
  }

  /** Runners that take turns never undercut a live grant, so `LeaseExclusive` applies to them. */
  lemma {:induction false} TurnsAreCalm(start: State, schedule: seq<Label>, ttlMs: int)
    requires Init(start) && TakeTurns(start, schedule, ttlMs)
    ensures Calm(start, schedule)
    ensures TurnInv(Exec(start, schedule), ttlMs)
  {
    if schedule != [] {
      var n := |schedule| - 1;
      var s := Exec(start, schedule[..n]);
      TurnsAreCalm(start, schedule[..n], ttlMs);
      InvStays(start, schedule[..n]);
      NoUndercutInTurn(s, schedule[n], ttlMs);
      if Enabled(s, schedule[n]) {
        TurnInvKept(s, schedule[n], ttlMs);
      }
    }
  }

  // ----- a heartbeat sent again

  /** The runner gives up on a heartbeat and sends another while the first can still be written. */
  lemma HeartbeatSentAgain(s: State, r: RunnerId, leaseId: LeaseId) returns (schedule: seq<Label>)
    requires s.calls == map[] && s.abandoned == {}
    ensures OneAwaited(s, schedule)
    ensures Exec(s, schedule) == s.(
      clock := s.clock + 1,
      calls := map[0 := HeartbeatWrite(r, leaseId, s.clock, MIN_TTL_MS),
                   1 := HeartbeatWrite(r, leaseId, s.clock + 1, MIN_TTL_MS)],
      abandoned := {0})
  {
    schedule := [BeginHeartbeat(0, r, leaseId, MIN_TTL_MS)];
    OneStep(s, schedule[0]);
    AwaitedSnoc(s, [], schedule[0]);
    assert [] + schedule == schedule;
    ExecSnoc(s, schedule, Abandon(0));
    AwaitedSnoc(s, schedule, Abandon(0));
    schedule := schedule + [Abandon(0)];
    ExecSnoc(s, schedule, Tick(1));
    AwaitedSnoc(s, schedule, Tick(1));
    schedule := schedule + [Tick(1)];
    ExecSnoc(s, schedule, BeginHeartbeat(1, r, leaseId, MIN_TTL_MS));
    AwaitedSnoc(s, schedule, BeginHeartbeat(1, r, leaseId, MIN_TTL_MS));
    schedule := schedule + [BeginHeartbeat(1, r, leaseId, MIN_TTL_MS)];
  }

  /** The second heartbeat is written and answered, and then the first is written. */
  lemma FirstWrittenLast(s: State, r: RunnerId, leaseId: LeaseId) returns (schedule: seq<Label>)
    requires s.calls == map[0 := HeartbeatWrite(r, leaseId, s.clock - 1, MIN_TTL_MS),
                            1 := HeartbeatWrite(r, leaseId, s.clock, MIN_TTL_MS)]
    requires s.abandoned == {0} && HeartbeatGuard(s.row, leaseId, r, s.clock)
    ensures OneAwaited(s, schedule)
    ensures
      var s' := Exec(s, schedule);
      && s'.clock == s.clock && s'.held == s.held[r := Grant(leaseId, s.clock + MIN_TTL_MS)]
      && s'.row == s.row.(expiresAt := Some(s.clock - 1 + MIN_TTL_MS))
      && s'.calls.Keys == {0} && s'.calls[0].r == r
  {
    schedule := [CommitHeartbeat(1)];
    OneStep(s, CommitHeartbeat(1));
    ExecSnoc(s, schedule, Deliver(1));
    schedule := schedule + [Deliver(1)];
    var answered := Exec(s, schedule);
    assert answered.calls == map[0 := HeartbeatWrite(r, leaseId, s.clock - 1, MIN_TTL_MS)];
    ExecSnoc(s, schedule, CommitHeartbeat(0));
    schedule := schedule + [CommitHeartbeat(0)];
    NothingBegun(s, schedule);
  }

  /**
   From every fresh active job there is a run in which no runner ever awaits two answers, and yet two
   runners hold the job: a heartbeat that was given up on is written after the next one was answered.
   */
  lemma OverlappingHeartbeatsLoseTheLease(start: State, r: RunnerId) returns (schedule: seq<Label>)
    requires Init(start) && IsActive(start.row.status)
    ensures OneAwaited(start, schedule) && TwoHolders(Exec(start, schedule))
  {
    var acquire := AcquireAlone(start, 0, r, 0, MIN_TTL_MS);
    var leased := Exec(start, acquire);
    var again := HeartbeatSentAgain(leased, r, 0);
    var both := Exec(leased, again);
    var late := FirstWrittenLast(both, r, 0);
    var shortened := Exec(both, late);
    var taken := FreeRowIsTaken(shortened, r, shortened.clock - 1 + MIN_TTL_MS);
    schedule := acquire + again + late + taken;
    ExecConcat(start, acquire, again);
    ExecConcat(start, acquire + again, late);
    ExecConcat(start, acquire + again + late, taken);
    AwaitedConcat(start, acquire, again);
    AwaitedConcat(start, acquire + again, late);
    AwaitedConcat(start, acquire + again + late, taken);
  }
}
