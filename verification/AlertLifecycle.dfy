/** How an alert changes when its condition is observed again, and when a notification is due. */
module AlertLifecycle {
  import opened Common

  /** Milliseconds. */
  type Time = int

  datatype AlertStatus = Open | Acknowledged | Snoozed | Resolved | Suppressed

  /** A stored alert; the status is absent when the stored text is not a known status. */
  datatype Alert = Alert(
    status: Option<AlertStatus>,
    firstSeenAt: Time,
    lastSeenAt: Time,
    occurrenceCount: int,
    acknowledgedAt: Option<Time>,
    snoozedUntil: Option<Time>,
    resolvedAt: Option<Time>,
    suppressedUntil: Option<Time>)

  datatype Plan = Plan(
    status: AlertStatus,
    firstSeenAt: Time,
    lastSeenAt: Time,
    occurrenceCount: int,
    acknowledgedAt: Option<Time>,
    snoozedUntil: Option<Time>,
    resolvedAt: Option<Time>,
    suppressedUntil: Option<Time>,
    duplicateSuppressed: bool,
    reopened: bool,
    snoozeExpired: bool,
    notificationSuggested: bool)

  function Distance(a: Time, b: Time): nat {
    if a < b then b - a else a - b
  }

  function WindowMs(windowSeconds: Option<int>): nat {
    1000 * Max(0, if windowSeconds.Some? then windowSeconds.value else 0)
  }

  function StatusOf(a: Alert): AlertStatus {
    if a.status.Some? then a.status.value else Open
  }

  predicate WithinDedupeWindow(a: Alert, now: Time, window: nat) {
    window > 0 && Distance(now, a.lastSeenAt) < window
  }

  predicate StillUntil(until: Option<Time>, now: Time) {
    until.Some? && until.value > now
  }

  function PlanAlertLifecycle(existing: Option<Alert>, now: Time, windowSeconds: Option<int>): Plan {
    if existing.None? then Plan(Open, now, now, 1, None, None, None, None, false, false, false, true)
    else
      var a := existing.value;
      var within := WithinDedupeWindow(a, now, WindowMs(windowSeconds));
      var base := Plan(
        StatusOf(a), a.firstSeenAt, now, Max(0, a.occurrenceCount) + 1,
        a.acknowledgedAt, a.snoozedUntil, a.resolvedAt, a.suppressedUntil, within, false, false, false);
      match StatusOf(a)
      case Resolved =>
        base.(status := Open, acknowledgedAt := None, snoozedUntil := None, resolvedAt := None,
              reopened := true, notificationSuggested := !within)
      case Snoozed =>
        if StillUntil(a.snoozedUntil, now) then base.(duplicateSuppressed := true)
        else base.(status := Open, snoozedUntil := None, snoozeExpired := true, notificationSuggested := !within)
      case Suppressed =>
        if StillUntil(a.suppressedUntil, now) then base.(duplicateSuppressed := true)
        else base.(status := Open, suppressedUntil := None, notificationSuggested := !within)
      case _ =>
        if within then base else base.(notificationSuggested := StatusOf(a).Open?)
  }

  /** The stored alert after the plan is saved. */
  function Saved(p: Plan): Alert {
    Alert(Some(p.status), p.firstSeenAt, p.lastSeenAt, p.occurrenceCount,
          p.acknowledgedAt, p.snoozedUntil, p.resolvedAt, p.suppressedUntil)
  }

  // ----- one observation

  /** The alert is silenced by an operator at this time. */
  predicate Silenced(a: Alert, now: Time) {
    || StatusOf(a).Acknowledged?
    || (StatusOf(a).Snoozed? && StillUntil(a.snoozedUntil, now))
    || (StatusOf(a).Suppressed? && StillUntil(a.suppressedUntil, now))
  }

  /** A known alert notifies exactly when it is outside the window and not silenced. */
  lemma NotifiesExactly(a: Alert, now: Time, windowSeconds: Option<int>)
    ensures PlanAlertLifecycle(Some(a), now, windowSeconds).notificationSuggested <==>
      !WithinDedupeWindow(a, now, WindowMs(windowSeconds)) && !Silenced(a, now)
  {
  }

  /** After an observation the alert is open unless an operator's silence still holds. */
  lemma StatusAfterObservation(a: Alert, now: Time, windowSeconds: Option<int>)
    ensures PlanAlertLifecycle(Some(a), now, windowSeconds).status == if Silenced(a, now) then StatusOf(a) else Open
  {
  }

  // ----- every history

  datatype Event =
    | Observed(now: Time)
    | Operated(
        status: Option<AlertStatus>,
        acknowledgedAt: Option<Time>,
        snoozedUntil: Option<Time>,
        resolvedAt: Option<Time>,
        suppressedUntil: Option<Time>)

  datatype History = History(alert: Option<Alert>, seen: seq<Time>, notified: seq<Time>)

  function Step(h: History, e: Event, windowSeconds: Option<int>): History {
    match e
    case Observed(now) =>
      var p := PlanAlertLifecycle(h.alert, now, windowSeconds);
      History(Some(Saved(p)), h.seen + [now], if p.notificationSuggested then h.notified + [now] else h.notified)
    case Operated(status, acknowledgedAt, snoozedUntil, resolvedAt, suppressedUntil) =>
      if h.alert.None? then h
      else h.(alert := Some(h.alert.value.(
                status := status, acknowledgedAt := acknowledgedAt, snoozedUntil := snoozedUntil,
                resolvedAt := resolvedAt, suppressedUntil := suppressedUntil)))
  }

  function Exec(events: seq<Event>, windowSeconds: Option<int>): History {
    if events == [] then History(None, [], [])
    else
      var n := |events| - 1;
      Step(Exec(events[..n], windowSeconds), events[n], windowSeconds)
  }

  ghost predicate TimesAscend(events: seq<Event>) {
    forall i, j :: 0 <= i < j < |events| && events[i].Observed? && events[j].Observed?
      ==> events[i].now <= events[j].now
  }

  ghost predicate Apart(times: seq<Time>, window: nat) {
    forall i, j :: 0 <= i < j < |times| ==> times[j] - times[i] >= window
  }

  ghost predicate Inv(h: History, window: nat) {
    && (h.alert.None? <==> h.seen == [])
    && (h.alert.Some? ==>
          && h.alert.value.firstSeenAt == h.seen[0]
          && h.alert.value.lastSeenAt == h.seen[|h.seen| - 1]
          && h.alert.value.occurrenceCount == |h.seen|)
    && (forall t :: t in h.notified ==> h.seen != [] && t <= h.seen[|h.seen| - 1])
    && Apart(h.notified, window)
  }

  lemma StepKeeps(h: History, e: Event, windowSeconds: Option<int>)
    requires Inv(h, WindowMs(windowSeconds))
    requires e.Observed? && h.seen != [] ==> h.seen[|h.seen| - 1] <= e.now
    ensures Inv(Step(h, e, windowSeconds), WindowMs(windowSeconds))
  {
    if e.Observed? {
      var h' := Step(h, e, windowSeconds);
      forall i, j | 0 <= i < j < |h'.notified| ensures h'.notified[j] - h'.notified[i] >= WindowMs(windowSeconds) {
        if j == |h.notified| {
          assert h.notified[i] in h.notified;
          NotifiesExactly(h.alert.value, e.now, windowSeconds);
        }
      }
    }
  }

  lemma {:induction false} SeenAreObserved(events: seq<Event>, windowSeconds: Option<int>)
    ensures forall t :: t in Exec(events, windowSeconds).seen ==>
      exists i :: 0 <= i < |events| && events[i] == Observed(t)
  {
    if events != [] {
      var n := |events| - 1;
      SeenAreObserved(events[..n], windowSeconds);
      forall t | t in Exec(events, windowSeconds).seen
        ensures exists i :: 0 <= i < |events| && events[i] == Observed(t)
      {
        if t in Exec(events[..n], windowSeconds).seen {
          var i :| 0 <= i < n && events[..n][i] == Observed(t);
          assert events[i] == Observed(t);
        } else {
          assert events[n] == Observed(t);
        }
      }
    }
  }

  lemma {:induction false} InvAlways(events: seq<Event>, windowSeconds: Option<int>)
    requires TimesAscend(events)
    ensures Inv(Exec(events, windowSeconds), WindowMs(windowSeconds))
  {
    if events != [] {
      var n := |events| - 1;
      InvAlways(events[..n], windowSeconds);
      SeenAreObserved(events[..n], windowSeconds);
      var h := Exec(events[..n], windowSeconds);
      if events[n].Observed? && h.seen != [] {
        var last := h.seen[|h.seen| - 1];
        assert last in h.seen;
        var i :| 0 <= i < n && events[..n][i] == Observed(last);
        assert events[i] == Observed(last);
      }
      StepKeeps(h, events[n], windowSeconds);
    }
  }

  function Observations(events: seq<Event>): nat {
    if events == [] then 0
    else
      var n := |events| - 1;
      Observations(events[..n]) + if events[n].Observed? then 1 else 0
  }

  lemma {:induction false} SeenAreCounted(events: seq<Event>, windowSeconds: Option<int>)
    ensures |Exec(events, windowSeconds).seen| == Observations(events)
  {
    if events != [] {
      SeenAreCounted(events[..|events| - 1], windowSeconds);
    }
  }

  /**
   For any observations in order of time, with any operator changes in between, two notifications are
   at least the window apart, every observation is counted, and the first one is never forgotten.
   */
  lemma NotificationsSpaced(events: seq<Event>, windowSeconds: Option<int>)
    requires TimesAscend(events)
    ensures
      var h := Exec(events, windowSeconds);
      && Apart(h.notified, WindowMs(windowSeconds))
      && (h.alert.Some? <==> Observations(events) > 0)
      && (h.alert.Some? ==>
            && h.alert.value.occurrenceCount == Observations(events)
            && h.seen != [] && h.alert.value.firstSeenAt == h.seen[0]
            && h.notified != [] && h.notified[0] == h.seen[0])
  {
    InvAlways(events, windowSeconds);
    SeenAreCounted(events, windowSeconds);
    FirstNotifies(events, windowSeconds);
  }

  /** The first observation always notifies. */
  lemma {:induction false} FirstNotifies(events: seq<Event>, windowSeconds: Option<int>)
    ensures
      var h := Exec(events, windowSeconds);
      if h.alert.None? then h.seen == [] && h.notified == []
      else h.seen != [] && h.notified != [] && h.notified[0] == h.seen[0]
  {
    if events != [] {
      FirstNotifies(events[..|events| - 1], windowSeconds);
    }
  }
}
