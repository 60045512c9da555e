/**
 The "pending:" claims that let any number of workers append one chat message for a job.

 The slot is the `resultMessageId` or the `liveFrameMessageId` column of the job row. A worker reads
 the row, claims the empty slot by compare-and-set, appends a message, and then either names the
 message in the slot or gives the claim back. Every database access is a step of its own; a worker
 may crash between any two of them, and messages may be deleted at any time.
 */
module MessageClaims {
  import opened Common

  type ClaimId = nat
  type MessageId = nat
  type WorkerId = nat

  datatype Kind = ResultMessage | LiveFrame

  datatype Slot = Empty | Pending(claim: ClaimId) | Named(message: MessageId)

  datatype Phase =
    | Idle
    | Read(seen: Slot)
    | Missing(message: MessageId)
    | Wanting
    | Claimed(claim: ClaimId)
    | Appended(claim: ClaimId, message: MessageId)
    | Releasing(claim: ClaimId)

  /**
   `author` records every message ever appended and the claim it was appended under. `stray` are
   the appended messages whose worker went on to give its claim back.
   */
  datatype State = State(
    slot: Slot,
    claims: set<ClaimId>,
    author: map<MessageId, ClaimId>,
    existing: set<MessageId>,
    stray: set<MessageId>,
    workers: map<WorkerId, Phase>)

  datatype Label =
    | ReadRow(w: WorkerId)
    | Check(w: WorkerId)
    | ClearMissing(w: WorkerId)
    | Claim(w: WorkerId, freshClaim: ClaimId)
    | Append(w: WorkerId, freshMessage: MessageId)
    | AppendNothing(w: WorkerId)
    | AppendThrowsAfterCreate(w: WorkerId, freshMessage: MessageId)
    | Finalize(w: WorkerId)
    | FinalizeFails(w: WorkerId)
    | Release(w: WorkerId)
    | Crash(w: WorkerId)
    | Delete(message: MessageId)

  const INITIAL := State(Empty, {}, map[], {}, {}, map[])

  function PhaseOf(s: State, w: WorkerId): Phase {
    if w in s.workers then s.workers[w] else Idle
  }

  function With(s: State, w: WorkerId, phase: Phase): State {
    s.(workers := s.workers[w := phase])
  }

  function Posted(s: State, message: MessageId, claim: ClaimId): State {
    s.(author := s.author[message := claim], existing := s.existing + {message})
  }

  /** What a worker does with the row it read. */
  function AfterCheck(kind: Kind, s: State, seen: Slot): Phase {
    match kind
    case ResultMessage => if seen.Empty? then Wanting else Idle
    case LiveFrame =>
      if seen.Named? then (if seen.message in s.existing then Idle else Missing(seen.message))
      else Wanting
  }

  predicate Enabled(s: State, l: Label) {
    match l
    case ReadRow(w) => PhaseOf(s, w).Idle?
    case Check(w) => PhaseOf(s, w).Read?
    case ClearMissing(w) => PhaseOf(s, w).Missing?
    case Claim(w, freshClaim) => PhaseOf(s, w).Wanting? && freshClaim !in s.claims
    case Append(w, freshMessage) => PhaseOf(s, w).Claimed? && freshMessage !in s.author
    case AppendNothing(w) => PhaseOf(s, w).Claimed?
    case AppendThrowsAfterCreate(w, freshMessage) => PhaseOf(s, w).Claimed? && freshMessage !in s.author
    case Finalize(w) => PhaseOf(s, w).Appended?
    case FinalizeFails(w) => PhaseOf(s, w).Appended?
    case Release(w) => PhaseOf(s, w).Releasing?
    case Crash(w) => true
    case Delete(_) => true
  }

  function Next(kind: Kind, s: State, l: Label): State
    requires Enabled(s, l)
  {
    match l
    case ReadRow(w) => With(s, w, Read(s.slot))
    case Check(w) => With(s, w, AfterCheck(kind, s, PhaseOf(s, w).seen))
    case ClearMissing(w) =>
      var message := PhaseOf(s, w).message;
      With(s, w, Wanting).(slot := if s.slot == Named(message) then Empty else s.slot)
    case Claim(w, freshClaim) =>
      if s.slot.Empty? then
        With(s, w, Claimed(freshClaim)).(slot := Pending(freshClaim), claims := s.claims + {freshClaim})
      else With(s, w, Idle).(claims := s.claims + {freshClaim})
    case Append(w, freshMessage) =>
      var claim := PhaseOf(s, w).claim;
      With(Posted(s, freshMessage, claim), w, Appended(claim, freshMessage))
    case AppendNothing(w) => With(s, w, Releasing(PhaseOf(s, w).claim))
    case AppendThrowsAfterCreate(w, freshMessage) =>
      var claim := PhaseOf(s, w).claim;
      With(Posted(s, freshMessage, claim), w, Releasing(claim)).(stray := s.stray + {freshMessage})
    case Finalize(w) =>
      var Appended(claim, message) := PhaseOf(s, w);
      With(s, w, Idle).(slot := if s.slot == Pending(claim) then Named(message) else s.slot)
    case FinalizeFails(w) =>
      var Appended(claim, message) := PhaseOf(s, w);
      With(s, w, Releasing(claim)).(stray := s.stray + {message})
    case Release(w) =>
      With(s, w, Idle).(slot := if s.slot == Pending(PhaseOf(s, w).claim) then Empty else s.slot)
    case Crash(w) => With(s, w, Idle)
    case Delete(message) => s.(existing := s.existing - {message})
  }

  /** The state after any schedule of steps; a step that is not enabled is skipped. */
  function Exec(kind: Kind, schedule: seq<Label>): State {
    if schedule == [] then INITIAL
    else
      var s := Exec(kind, schedule[..|schedule| - 1]);
      var l := schedule[|schedule| - 1];
      if Enabled(s, l) then Next(kind, s, l) else s
  }

  // ----- the invariant

  /** The message was appended and its worker did not give the claim back. */
  predicate Kept(s: State, m: MessageId) {
    m in s.author && m !in s.stray
  }

  predicate OwnsClaim(s: State, w: WorkerId) {
    PhaseOf(s, w).Claimed? || PhaseOf(s, w).Appended? || PhaseOf(s, w).Releasing?
  }

  /** A kept message is named by the slot, or the slot still waits for its name. */
  predicate MessageInv(kind: Kind, s: State, m: MessageId) {
    Kept(s, m) && (kind.ResultMessage? || m in s.existing) ==>
      s.slot == Named(m) || s.slot == Pending(s.author[m])
  }

  predicate AuthorInv(s: State, m: MessageId, m': MessageId) {
    Kept(s, m) && Kept(s, m') && m != m' ==> s.author[m] != s.author[m']
  }

  ghost predicate WorkerInv(kind: Kind, s: State, w: WorkerId) {
    match PhaseOf(s, w)
    case Missing(m) => kind.LiveFrame? && m in s.author && m !in s.existing
    case Claimed(c) => s.slot == Pending(c) && forall m :: m in s.author ==> s.author[m] != c
    case Appended(c, m) => s.slot == Pending(c) && Kept(s, m) && s.author[m] == c
    case Releasing(c) => s.slot == Pending(c) && forall m :: Kept(s, m) ==> s.author[m] != c
    case Read(seen) => seen.Named? ==> seen.message in s.author
    case _ => true
  }

  ghost predicate StoreInv(s: State) {
    && s.existing <= s.author.Keys
    && s.stray <= s.author.Keys
    && (forall m :: m in s.author ==> s.author[m] in s.claims)
    && (s.slot.Pending? ==> s.slot.claim in s.claims)
    && (s.slot.Named? ==> Kept(s, s.slot.message))
  }

  ghost predicate Inv(kind: Kind, s: State) {
    && StoreInv(s)
    && (forall m :: MessageInv(kind, s, m))
    && (forall m, m' :: AuthorInv(s, m, m'))
    && (forall w :: WorkerInv(kind, s, w))
    && (forall w, w' :: OwnsClaim(s, w) && OwnsClaim(s, w') ==> w == w')
  }

  lemma InvPreserved(kind: Kind, s: State, l: Label)
    requires Inv(kind, s) && Enabled(s, l)
    ensures Inv(kind, Next(kind, s, l))
  {
    var s' := Next(kind, s, l);
    assert !l.Delete? ==> WorkerInv(kind, s, l.w);
    forall w ensures WorkerInv(kind, s', w) {
      WorkerKept(kind, s, l, w);
    }
    forall m ensures MessageInv(kind, s', m) {
      MessageKept(kind, s, l, m);
    }
    forall m, m' ensures AuthorInv(s', m, m') {
      AuthorsKept(kind, s, l, m, m');
    }
    forall w, w' | OwnsClaim(s', w) && OwnsClaim(s', w') ensures w == w' {
      OneOwner(kind, s, l, w, w');
    }
  }

  lemma WorkerKept(kind: Kind, s: State, l: Label, w: WorkerId)
    requires Inv(kind, s) && Enabled(s, l)
    ensures WorkerInv(kind, Next(kind, s, l), w)
  {
    assert WorkerInv(kind, s, w);
    if !l.Delete? && l.w != w {
      assert WorkerInv(kind, s, l.w);
      assert !(OwnsClaim(s, w) && OwnsClaim(s, l.w));
    }
    if l.FinalizeFails? && l.w == w {
      forall m | Kept(Next(kind, s, l), m) ensures s.author[m] != PhaseOf(s, w).claim {
        assert AuthorInv(s, m, PhaseOf(s, w).message);
      }
    }
  }

  lemma MessageKept(kind: Kind, s: State, l: Label, m: MessageId)
    requires Inv(kind, s) && Enabled(s, l)
    ensures MessageInv(kind, Next(kind, s, l), m)
  {
    assert MessageInv(kind, s, m);
    assert !l.Delete? ==> WorkerInv(kind, s, l.w);
    if l.Finalize? {
      assert AuthorInv(s, m, PhaseOf(s, l.w).message);
    }
  }

  lemma AuthorsKept(kind: Kind, s: State, l: Label, m: MessageId, m': MessageId)
    requires Inv(kind, s) && Enabled(s, l)
    ensures AuthorInv(Next(kind, s, l), m, m')
  {
    assert AuthorInv(s, m, m');
    assert !l.Delete? ==> WorkerInv(kind, s, l.w);
  }

  lemma OneOwner(kind: Kind, s: State, l: Label, w: WorkerId, w': WorkerId)
    requires Inv(kind, s) && Enabled(s, l)
    requires OwnsClaim(Next(kind, s, l), w) && OwnsClaim(Next(kind, s, l), w')
    ensures w == w'
  {
    assert WorkerInv(kind, s, w) && WorkerInv(kind, s, w');
    assert OwnsClaim(s, w) && OwnsClaim(s, w') ==> w == w';
  }

  lemma {:induction false} InvAlways(kind: Kind, schedule: seq<Label>)
    ensures Inv(kind, Exec(kind, schedule))
  {
    if schedule != [] {
      InvAlways(kind, schedule[..|schedule| - 1]);
      var s := Exec(kind, schedule[..|schedule| - 1]);
      var l := schedule[|schedule| - 1];
      if Enabled(s, l) {
        InvPreserved(kind, s, l);
      }
    }
  }

  // ----- the promises

  lemma AtMostOneKept(kind: Kind, schedule: seq<Label>, m: MessageId, m': MessageId)
    requires Kept(Exec(kind, schedule), m) && Kept(Exec(kind, schedule), m')
    requires kind.ResultMessage? || {m, m'} <= Exec(kind, schedule).existing
    ensures m == m'
  {
    InvAlways(kind, schedule);
    var s := Exec(kind, schedule);
    assert MessageInv(kind, s, m) && MessageInv(kind, s, m') && AuthorInv(s, m, m');
  }

  lemma AtMostOneElement(s: set<MessageId>)
    requires forall m, m' :: m in s && m' in s ==> m == m'
    ensures |s| <= 1
  {
    if s != {} {
      var m :| m in s;
      assert s == {m};
    }
  }

  /** A message becomes stray only by an append that throws late or by a finalize write that fails. */
  predicate LosesMessage(l: Label) {
    l.AppendThrowsAfterCreate? || l.FinalizeFails?
  }

  function Failures(schedule: seq<Label>): nat {
    if schedule == [] then 0
    else Failures(schedule[..|schedule| - 1]) + if LosesMessage(schedule[|schedule| - 1]) then 1 else 0
  }

  lemma {:induction false} StrayByFailure(kind: Kind, schedule: seq<Label>)
    ensures |Exec(kind, schedule).stray| <= Failures(schedule)
  {
    if schedule != [] {
      StrayByFailure(kind, schedule[..|schedule| - 1]);
    }
  }

  /**
   Under every schedule at most one result message is ever appended, plus one for each append that
   threw after creating its message and each finalize write that failed; and the column, once it is
   not a pending claim, names an appended message.
   */
  lemma ResultMessageOnce(schedule: seq<Label>)
    ensures
      var s := Exec(ResultMessage, schedule);
      && |s.author.Keys| <= 1 + |s.stray| <= 1 + Failures(schedule)
      && (s.slot.Named? ==> s.author.Keys - s.stray == {s.slot.message})
  {
    var s := Exec(ResultMessage, schedule);
    InvAlways(ResultMessage, schedule);
    StrayByFailure(ResultMessage, schedule);
    var kept := s.author.Keys - s.stray;
    forall m, m' | m in kept && m' in kept ensures m == m' {
      AtMostOneKept(ResultMessage, schedule, m, m');
    }
    AtMostOneElement(kept);
    assert s.author.Keys == kept + s.stray;
  }

  /** The same bound for the live-frame messages that exist, even when messages are deleted. */
  lemma LiveFrameMessageOnce(schedule: seq<Label>)
    ensures
      var s := Exec(LiveFrame, schedule);
      && |s.existing| <= 1 + |s.stray| <= 1 + Failures(schedule)
      && (s.slot.Named? && s.slot.message in s.existing ==> s.existing - s.stray == {s.slot.message})
  {
    var s := Exec(LiveFrame, schedule);
    InvAlways(LiveFrame, schedule);
    StrayByFailure(LiveFrame, schedule);
    var kept := s.existing - s.stray;
    forall m, m' | m in kept && m' in kept ensures m == m' {
      AtMostOneKept(LiveFrame, schedule, m, m');
    }
    AtMostOneElement(kept);
    assert s.existing == kept + s.existing * s.stray;
    CardinalityMonotone(s.existing * s.stray, s.stray);
  }

  lemma {:induction false} CardinalityMonotone(a: set<MessageId>, b: set<MessageId>)
    requires a <= b
    ensures |a| <= |b|
  {
    if a != {} {
      var m :| m in a;
      CardinalityMonotone(a - {m}, b - {m});
    }
  }

  lemma {:induction false} NoFailures(schedule: seq<Label>)
    requires forall i :: 0 <= i < |schedule| ==> !LosesMessage(schedule[i])
    ensures Failures(schedule) == 0
  {
    if schedule != [] {
      NoFailures(schedule[..|schedule| - 1]);
    }
  }

  /** Without those two failures the bound is one message per job. */
  lemma OneMessageWithoutFailure(schedule: seq<Label>)
    requires forall i :: 0 <= i < |schedule| ==> !LosesMessage(schedule[i])
    ensures |Exec(ResultMessage, schedule).author.Keys| <= 1
    ensures |Exec(LiveFrame, schedule).existing| <= 1
  {
    NoFailures(schedule);
    ResultMessageOnce(schedule);
    LiveFrameMessageOnce(schedule);
  }

  lemma ExecSnoc(kind: Kind, schedule: seq<Label>, l: Label)
    requires Enabled(Exec(kind, schedule), l)
    ensures Exec(kind, schedule + [l]) == Next(kind, Exec(kind, schedule), l)
  {
    assert (schedule + [l])[..|schedule|] == schedule;
  }

  /** A worker that reads the empty slot and is not interrupted appends its message and names it. */
  lemma UninterruptedTurn(kind: Kind, schedule: seq<Label>, w: WorkerId, c: ClaimId, m: MessageId)
    requires
      var s := Exec(kind, schedule);
      PhaseOf(s, w).Idle? && s.slot.Empty? && c !in s.claims && m !in s.author
    ensures
      var s := Exec(kind, schedule);
      var s' := Exec(kind, schedule + [ReadRow(w)] + [Check(w)] + [Claim(w, c)] + [Append(w, m)] + [Finalize(w)]);
      && s'.slot == Named(m)
      && s'.author == s.author[m := c]
      && s'.existing == s.existing + {m}
      && s'.stray == s.stray
  {
    ExecSnoc(kind, schedule, ReadRow(w));
    ExecSnoc(kind, schedule + [ReadRow(w)], Check(w));
    ExecSnoc(kind, schedule + [ReadRow(w)] + [Check(w)], Claim(w, c));
    ExecSnoc(kind, schedule + [ReadRow(w)] + [Check(w)] + [Claim(w, c)], Append(w, m));
    ExecSnoc(kind, schedule + [ReadRow(w)] + [Check(w)] + [Claim(w, c)] + [Append(w, m)], Finalize(w));
  }

  // ----- when a second message can appear

  /** The messages of which there should be one: all result messages, or the live frames that exist. */
  function Messages(kind: Kind, s: State): set<MessageId> {
    if kind.ResultMessage? then s.author.Keys else s.existing
  }

  /** The step leaves a message behind that still counts, and lets the claim on the slot go. */
  predicate LeavesMessage(kind: Kind, s: State, l: Label) {
    && Enabled(s, l)
    && (l.AppendThrowsAfterCreate? || (l.FinalizeFails? && PhaseOf(s, l.w).message in Messages(kind, s)))
  }

  /** Some way to go on, without any further failure, ends with two messages. */
  ghost predicate CanDuplicate(kind: Kind, schedule: seq<Label>) {
    exists more :: Failures(more) == 0 && |Messages(kind, Exec(kind, schedule + more))| >= 2
  }

  lemma {:induction false} FailuresConcat(a: seq<Label>, b: seq<Label>)
    ensures Failures(a + b) == Failures(a) + Failures(b)
  {
    if b == [] {
      assert a + b == a;
    } else {
      var n := |b| - 1;
      FailuresConcat(a, b[..n]);
      assert (a + b)[..|a + b| - 1] == a + b[..n];
    }
  }

  /** After a failure the claim is given back, and the slot is empty for another worker. */
  lemma FailureEmptiesSlot(kind: Kind, schedule: seq<Label>, l: Label)
    requires Enabled(Exec(kind, schedule), l) && LosesMessage(l)
    ensures
      var s := Exec(kind, schedule + [l]);
      var s' := Exec(kind, schedule + [l] + [Release(l.w)]);
      s'.slot.Empty? && s'.author == s.author && s'.existing == s.existing
  {
    ExecSnoc(kind, schedule, l);
    InvAlways(kind, schedule + [l]);
    assert WorkerInv(kind, Exec(kind, schedule + [l]), l.w);
    ExecSnoc(kind, schedule + [l], Release(l.w));
  }

  /** A fresh worker that finds the slot empty adds a message. */
  lemma AnotherMessage(kind: Kind, schedule: seq<Label>) returns (more: seq<Label>, m: MessageId)
    requires Exec(kind, schedule).slot.Empty?
    ensures Failures(more) == 0 && m !in Exec(kind, schedule).author
    ensures
      var s := Exec(kind, schedule);
      var s' := Exec(kind, schedule + more);
      s'.author.Keys == s.author.Keys + {m} && s'.existing == s.existing + {m}
  {
    var s := Exec(kind, schedule);
    var w := FreshNumber(s.workers.Keys);
    var c := FreshNumber(s.claims);
    m := FreshNumber(s.author.Keys);
    more := [ReadRow(w), Check(w), Claim(w, c), Append(w, m), Finalize(w)];
    UninterruptedTurn(kind, schedule, w, c, m);
    assert schedule + more == schedule + [ReadRow(w)] + [Check(w)] + [Claim(w, c)] + [Append(w, m)] + [Finalize(w)];
    NoFailures(more);
  }

  lemma LeftMessageCounts(kind: Kind, schedule: seq<Label>, l: Label)
    requires LeavesMessage(kind, Exec(kind, schedule), l)
    ensures Messages(kind, Exec(kind, schedule + [l])) != {}
    ensures Exec(kind, schedule + [l]).existing <= Exec(kind, schedule + [l]).author.Keys
  {
    ExecSnoc(kind, schedule, l);
    InvAlways(kind, schedule + [l]);
    var s := Exec(kind, schedule + [l]);
    if l.FinalizeFails? {
      assert PhaseOf(Exec(kind, schedule), l.w).message in Messages(kind, s);
    } else {
      assert l.freshMessage in Messages(kind, s);
    }
  }

  /** A message that was left behind gets a second one beside it. */
  lemma LeftMessageIsDoubled(kind: Kind, schedule: seq<Label>, l: Label) returns (more: seq<Label>)
    requires LeavesMessage(kind, Exec(kind, schedule), l)
    ensures Failures(more) == 0 && |Messages(kind, Exec(kind, schedule + [l] + more))| >= 2
  {
    var released := schedule + [l] + [Release(l.w)];
    LeftMessageCounts(kind, schedule, l);
    FailureEmptiesSlot(kind, schedule, l);
    var turn, m := AnotherMessage(kind, released);
    more := [Release(l.w)] + turn;
    assert schedule + [l] + more == released + turn;
    NoFailures([Release(l.w)]);
    FailuresConcat([Release(l.w)], turn);
    var before := Messages(kind, Exec(kind, schedule + [l]));
    assert m !in before;
    assert Messages(kind, Exec(kind, schedule + [l] + more)) == before + {m};
  }

  lemma StrayStep(kind: Kind, s: State, l: Label)
    requires Inv(kind, s) && Enabled(s, l) && !LosesMessage(l) && s.stray !! s.existing
    ensures Next(kind, s, l).stray !! Next(kind, s, l).existing
  {
    assert Next(kind, s, l).stray == s.stray;
    if l.Append? {
      assert l.freshMessage !in s.stray;
    }
  }

  /** Stray messages that were deleted stay away, and without failures there are no new ones. */
  lemma {:induction false} StrayStaysAway(kind: Kind, schedule: seq<Label>, more: seq<Label>)
    requires Exec(kind, schedule).stray !! Exec(kind, schedule).existing && Failures(more) == 0
    ensures Exec(kind, schedule + more).stray !! Exec(kind, schedule + more).existing
  {
    if more == [] {
      assert schedule + more == schedule;
    } else {
      var n := |more| - 1;
      StrayStaysAway(kind, schedule, more[..n]);
      InvAlways(kind, schedule + more[..n]);
      assert (schedule + more)[..|schedule + more| - 1] == schedule + more[..n];
      if Enabled(Exec(kind, schedule + more[..n]), more[n]) {
        StrayStep(kind, Exec(kind, schedule + more[..n]), more[n]);
      }
    }
  }

  /** Without a stray message that exists there is at most one message. */
  lemma OneWithoutStray(kind: Kind, schedule: seq<Label>)
    requires Exec(kind, schedule).stray !! Messages(kind, Exec(kind, schedule))
    ensures |Messages(kind, Exec(kind, schedule))| <= 1
  {
    var s := Exec(kind, schedule);
    InvAlways(kind, schedule);
    forall m, m' | m in Messages(kind, s) && m' in Messages(kind, s) ensures m == m' {
      AtMostOneKept(kind, schedule, m, m');
    }
    AtMostOneElement(Messages(kind, s));
  }

  lemma NothingLeftNothingDoubled(kind: Kind, schedule: seq<Label>, l: Label, more: seq<Label>)
    requires Failures(schedule) == 0 && Enabled(Exec(kind, schedule), l)
    requires !LeavesMessage(kind, Exec(kind, schedule), l) && Failures(more) == 0
    ensures |Messages(kind, Exec(kind, schedule + [l] + more))| <= 1
  {
    ExecSnoc(kind, schedule, l);
    InvAlways(kind, schedule);
    StrayByFailure(kind, schedule);
    assert !l.Delete? ==> WorkerInv(kind, Exec(kind, schedule), l.w);
    if LosesMessage(l) {
      StrayStaysAway(kind, schedule + [l], more);
    } else {
      FailuresConcat(schedule, [l]);
      NoFailures([l]);
      FailuresConcat(schedule + [l], more);
      StrayByFailure(kind, schedule + [l] + more);
    }
    OneWithoutStray(kind, schedule + [l] + more);
  }

  /**
   After a schedule without failures, a step makes a second message possible, with no further failure,
   exactly when it is an append that throws after it created its message, or a finalize write that fails
   while its message still counts.
   */
  lemma DuplicatesExactly(kind: Kind, schedule: seq<Label>, l: Label)
    requires Failures(schedule) == 0 && Enabled(Exec(kind, schedule), l)
    ensures LeavesMessage(kind, Exec(kind, schedule), l) <==> CanDuplicate(kind, schedule + [l])
  {
    if LeavesMessage(kind, Exec(kind, schedule), l) {
      var more := LeftMessageIsDoubled(kind, schedule, l);
    } else {
      forall more | Failures(more) == 0 ensures |Messages(kind, Exec(kind, schedule + [l] + more))| < 2 {
        NothingLeftNothingDoubled(kind, schedule, l, more);
      }
    }
  }

  // ----- the two failures

  lemma FirstClaim(kind: Kind) returns (schedule: seq<Label>)
    ensures Failures(schedule) == 0
    ensures Exec(kind, schedule) == State(Pending(0), {0}, map[], {}, {}, map[0 := Claimed(0)])
  {
    schedule := [ReadRow(0)];
    ExecSnoc(kind, [], ReadRow(0));
    assert Exec(kind, schedule).workers == map[0 := Read(Empty)];
    ExecSnoc(kind, schedule, Check(0));
    schedule := schedule + [Check(0)];
    assert Exec(kind, schedule).workers == map[0 := Wanting];
    ExecSnoc(kind, schedule, Claim(0, 0));
    schedule := schedule + [Claim(0, 0)];
    NoFailures(schedule);
  }

  /** One append that throws late is enough for a second message: the bound above is tight. */
  lemma LateThrowDuplicates(kind: Kind) returns (schedule: seq<Label>)
    ensures Failures(schedule) == 1 && |Messages(kind, Exec(kind, schedule))| == 2
  {
    var claimed := FirstClaim(kind);
    schedule := OneFailure(kind, claimed, AppendThrowsAfterCreate(0, 0));
  }

  /** So is one finalize write that fails. */
  lemma FailedFinalizeDuplicates(kind: Kind) returns (schedule: seq<Label>)
    ensures Failures(schedule) == 1 && |Messages(kind, Exec(kind, schedule))| == 2
  {
    var claimed := FirstClaim(kind);
    ExecSnoc(kind, claimed, Append(0, 0));
    FailuresConcat(claimed, [Append(0, 0)]);
    NoFailures([Append(0, 0)]);
    schedule := OneFailure(kind, claimed + [Append(0, 0)], FinalizeFails(0));
  }

  lemma OneFailure(kind: Kind, schedule: seq<Label>, l: Label) returns (all: seq<Label>)
    requires Failures(schedule) == 0 && LeavesMessage(kind, Exec(kind, schedule), l)
    ensures Failures(all) == 1 && |Messages(kind, Exec(kind, all))| == 2
  {
    var more := LeftMessageIsDoubled(kind, schedule, l);
    all := schedule + [l] + more;
    FailuresConcat(schedule, [l]);
    FailuresConcat(schedule + [l], more);
    assert [l][..0] == [];
    assert Failures([l]) == 1;
    if kind.ResultMessage? {
      ResultMessageOnce(all);
    } else {
      LiveFrameMessageOnce(all);
    }
  }

  /** A worker that finds the named live-frame message deleted clears the name and posts a new message. */
  lemma DeletedFrameReplaced(schedule: seq<Label>, w: WorkerId, c: ClaimId, m: MessageId)
    requires
      var s := Exec(LiveFrame, schedule);
      PhaseOf(s, w).Idle? && s.slot.Named? && s.slot.message !in s.existing && c !in s.claims && m !in s.author
    ensures
      var s := Exec(LiveFrame, schedule);
      var cleared := schedule + [ReadRow(w)] + [Check(w)] + [ClearMissing(w)];
      var s' := Exec(LiveFrame, cleared + [Claim(w, c)] + [Append(w, m)] + [Finalize(w)]);
      s'.slot == Named(m) && s'.existing == s.existing + {m}
  {
    ExecSnoc(LiveFrame, schedule, ReadRow(w));
    ExecSnoc(LiveFrame, schedule + [ReadRow(w)], Check(w));
    ExecSnoc(LiveFrame, schedule + [ReadRow(w)] + [Check(w)], ClearMissing(w));
    var cleared := schedule + [ReadRow(w)] + [Check(w)] + [ClearMissing(w)];
    ExecSnoc(LiveFrame, cleared, Claim(w, c));
    ExecSnoc(LiveFrame, cleared + [Claim(w, c)], Append(w, m));
    ExecSnoc(LiveFrame, cleared + [Claim(w, c)] + [Append(w, m)], Finalize(w));
  }
}
