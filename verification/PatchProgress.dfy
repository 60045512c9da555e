/**
 The projection of agents' patch progress reports into action rows. Reports arrive at least once and
 in any order; a row takes a report only if it is not finished and not newer than the report.
 */
module PatchProgress {
  import opened Common

  type Time = int

  datatype ProgressStatus = Running | Completed | Failed | Cancelled

  /** The status column of an action row; `Planned` is any text that no report writes. */
  datatype RowStatus = Planned(text: string) | Reported(status: ProgressStatus)

  predicate IsTerminal(s: ProgressStatus) {
    !s.Running?
  }

  predicate Finished(s: RowStatus) {
    s.Reported? && IsTerminal(s.status)
  }

  datatype ActionType = Scan | Download | Install | Reboot | Unknown(text: string)

  predicate KnownType(t: ActionType) {
    !t.Unknown?
  }

  datatype Key = Key(organizationId: string, agentId: string, operationId: string)

  datatype Item = Item(
    key: Key,
    eventType: Option<string>,
    status: ProgressStatus,
    phase: string,
    reportedAt: Time,
    downloaded: real,
    installed: real,
    error: Option<string>,
    updateKeys: seq<string>,
    progress: string,
    evidence: string)

  /** An action row without its `updated_at`; `actionResult` is the result merged into the evidence. */
  datatype Row = Row(
    actionType: ActionType,
    status: RowStatus,
    phase: Option<string>,
    updateKeys: seq<string>,
    progress: string,
    evidence: string,
    actionResult: Option<string>,
    error: Option<string>,
    reportedAt: Option<Time>,
    startedAt: Option<Time>,
    finishedAt: Option<Time>)

  datatype Override = Override(
    organizationId: string,
    deviceScoped: bool,
    scopeKey: string,
    operationId: Option<string>,
    oneShot: bool,
    enabled: bool)

  /** Work done once when an operation finishes. */
  datatype Effect =
    | OverridesDisabled(key: Key)
    | ResultRecorded(key: Key, actionType: ActionType, status: ProgressStatus)

  datatype Store = Store(rows: map<Key, Row>, overrides: seq<Override>, effects: seq<Effect>)

  datatype Transition = Apply | DuplicateTerminal | TerminalConflict | Stale

  // ----- one report

  function Classify(existing: Option<Row>, item: Item): Transition {
    if existing.None? then Apply
    else if Finished(existing.value.status) then
      if existing.value.status == Reported(item.status) then DuplicateTerminal else TerminalConflict
    else if existing.value.reportedAt.Some? && existing.value.reportedAt.value > item.reportedAt then Stale
    else Apply
  }

  /** The condition of the conditional upsert. */
  predicate UpsertGuard(row: Row, item: Item) {
    && !Finished(row.status)
    && (row.reportedAt.None? || row.reportedAt.value <= item.reportedAt)
  }

  function InferActionType(item: Item, existing: Option<ActionType>): ActionType {
    if existing.Some? && KnownType(existing.value) then existing.value
    else InferredFromReport(item)
  }

  predicate ReportsScan(item: Item) {
    item.eventType == Some("patch.scan.progress") || item.phase == "scanning"
  }

  /** A finished report that downloaded something and installed nothing. */
  predicate DownloadedOnly(item: Item) {
    item.status.Completed? && item.downloaded > 0.0 && item.installed == 0.0
  }

  function InferredFromReport(item: Item): (t: ActionType)
    ensures t.Scan? <==> ReportsScan(item)
    ensures t.Download? <==>
      !ReportsScan(item) && (item.phase == "downloading" || (item.phase != "installing" && DownloadedOnly(item)))
    ensures !t.Scan? && !t.Download? ==> t.Install?
  {
    if item.eventType == Some("patch.scan.progress") then Scan
    else if item.phase == "scanning" then Scan
    else if item.phase == "downloading" then Download
    else if item.phase == "finalizing" && DownloadedOnly(item) then Download
    else if item.phase == "installing" || item.phase == "finalizing" then Install
    else if item.installed > 0.0 then Install
    else if item.status.Failed? then Install
    else if DownloadedOnly(item) then Download
    else Install
  }

  function RecordsResult(item: Item, actionType: ActionType): bool {
    (item.status.Completed? || item.status.Failed?) && (actionType.Download? || actionType.Install?)
  }

  /** The row after the report is inserted, or merged over the row that is there. */
  function Upserted(existing: Option<Row>, item: Item): Row {
    var inferred := InferActionType(item, if existing.Some? then Some(existing.value.actionType) else None);
    var reported := Some(item.reportedAt);
    var result := if RecordsResult(item, inferred) then Some(item.evidence) else None;
    match existing
    case None =>
      Row(inferred, Reported(item.status), Some(item.phase), item.updateKeys, item.progress, item.evidence, result,
          item.error, reported,
          if item.status.Running? then reported else None,
          if IsTerminal(item.status) then reported else None)
    case Some(row) =>
      Row(if KnownType(row.actionType) then row.actionType else inferred,
          Reported(item.status), Some(item.phase),
          if |item.updateKeys| > 0 then item.updateKeys else row.updateKeys,
          item.progress, item.evidence, result, item.error, reported,
          Coalesce(row.startedAt, reported),
          if IsTerminal(item.status) then Coalesce(row.finishedAt, reported) else row.finishedAt)
  }

  function RowOf(rows: map<Key, Row>, key: Key): Option<Row> {
    if key in rows then Some(rows[key]) else None
  }

  function Disabled(o: Override, key: Key): Override {
    if o.organizationId == key.organizationId && o.deviceScoped && o.scopeKey == key.agentId
       && o.operationId == Some(key.operationId) && o.oneShot
    then o.(enabled := false) else o
  }

  function DisabledAll(os: seq<Override>, key: Key): (r: seq<Override>)
    ensures |r| == |os|
    ensures forall i :: 0 <= i < |os| ==> r[i] == Disabled(os[i], key)
  {
    seq(|os|, i requires 0 <= i < |os| => Disabled(os[i], key))
  }

  function EffectsOf(item: Item, actionType: ActionType): seq<Effect> {
    [OverridesDisabled(item.key)]
    + (if RecordsResult(item, actionType) then [ResultRecorded(item.key, actionType, item.status)] else [])
  }

  predicate Applies(s: Store, item: Item) {
    Classify(RowOf(s.rows, item.key), item).Apply?
  }

  function Projected(s: Store, item: Item): Store {
    if !Applies(s, item) then s
    else
      var row := Upserted(RowOf(s.rows, item.key), item);
      var rows := s.rows[item.key := row];
      if !IsTerminal(item.status) then s.(rows := rows)
      else Store(rows, DisabledAll(s.overrides, item.key), s.effects + EffectsOf(item, row.actionType))
  }

  // ----- runs of reports

  /** The store after a list of reports; a batch, or any sequence of batches end to end. */
  function Project(s: Store, items: seq<Item>): Store {
    if items == [] then s
    else
      var n := |items| - 1;
      Projected(Project(s, items[..n]), items[n])
  }

  function Updates(s: Store, items: seq<Item>): nat {
    if items == [] then 0
    else
      var n := |items| - 1;
      Updates(s, items[..n]) + if Applies(Project(s, items[..n]), items[n]) then 1 else 0
  }

  /** The first report whose device is not in its organization. */
  function ScopeError(devices: map<string, string>, items: seq<Item>): (r: Option<nat>)
    ensures r.None? <==> forall i :: 0 <= i < |items| ==> InScope(devices, items[i])
    ensures r.Some? ==> r.value < |items| && !InScope(devices, items[r.value])
    ensures r.Some? ==> forall i :: 0 <= i < r.value ==> InScope(devices, items[i])
  {
    if items == [] then None
    else
      var n := |items| - 1;
      var earlier := ScopeError(devices, items[..n]);
      if earlier.Some? then earlier else if InScope(devices, items[n]) then None else Some(n)
  }

  predicate InScope(devices: map<string, string>, item: Item) {
    item.key.agentId in devices && devices[item.key.agentId] == item.key.organizationId
  }

  // ----- the stored actions

  datatype BatchResult = Counted(updated: nat, ignored: nat) | ScopeRejected(itemIndex: nat)

  class PatchActionStore {
    var rows: map<Key, Row>
    var overrides: seq<Override>
    var effects: seq<Effect>

    function View(): Store
      reads this
    {
      Store(rows, overrides, effects)
    }

    method DisableOneShotOverrides(key: Key)
      modifies this`overrides
      ensures overrides == DisabledAll(old(overrides), key)
    {
      for k := 0 to |overrides|
        invariant |overrides| == |old(overrides)|
        invariant forall i :: 0 <= i < k ==> overrides[i] == Disabled(old(overrides)[i], key)
        invariant forall i :: k <= i < |overrides| ==> overrides[i] == old(overrides)[i]
      {
        overrides := overrides[k := Disabled(overrides[k], key)];
      }
    }

    method ProjectItem(item: Item) returns (applied: bool)
      modifies this
      ensures applied <==> old(Applies(View(), item))
      ensures View() == Projected(old(View()), item)
    {
      var existing := RowOf(rows, item.key);
      applied := Classify(existing, item).Apply?;
      if !applied { return; }
      if existing.Some? && !UpsertGuard(existing.value, item) {
        assert false;
      }
      var row := Upserted(existing, item);
      rows := rows[item.key := row];
      if IsTerminal(item.status) {
        DisableOneShotOverrides(item.key);
        effects := effects + [OverridesDisabled(item.key)];
        if RecordsResult(item, row.actionType) {
          effects := effects + [ResultRecorded(item.key, row.actionType, item.status)];
        }
      }
    }

    /** All or nothing on the scope test, then report by report with a count of each kind. */
    method ProjectPatchProgressBatch(devices: map<string, string>, items: seq<Item>) returns (result: BatchResult)
      modifies this
      ensures result.ScopeRejected? <==> exists i :: 0 <= i < |items| && !InScope(devices, items[i])
      ensures result.ScopeRejected? ==> ScopeError(devices, items) == Some(result.itemIndex) && View() == old(View())
      ensures result.Counted? ==>
        && View() == Project(old(View()), items)
        && result.updated == Updates(old(View()), items)
        && result.updated + result.ignored == |items|
    {
      var invalid := ScopeError(devices, items);
      if invalid.Some? { return ScopeRejected(invalid.value); }
      var updated, ignored := 0, 0;
      for k := 0 to |items|
        invariant View() == Project(old(View()), items[..k])
        invariant updated == Updates(old(View()), items[..k])
        invariant updated + ignored == k
      {
        assert items[..k + 1][..k] == items[..k];
        var applied := ProjectItem(items[k]);
        if applied {
          updated := updated + 1;
        } else {
          ignored := ignored + 1;
        }
      }
      assert items[..|items|] == items;
      result := Counted(updated, ignored);
    }
  }

  // ----- what every report keeps

  /** The in-memory classification applies a report exactly when the conditional upsert would. */
  lemma ClassifyIsGuard(row: Row, item: Item)
    ensures Classify(Some(row), item).Apply? <==> UpsertGuard(row, item)
  {
  }

  /** How a row may change: not at all once finished, never back in time, never to another known type. */
  predicate RowAdvances(before: Row, after: Row) {
    && (Finished(before.status) ==> after == before)
    && (before.reportedAt.Some? ==> after.reportedAt.Some? && before.reportedAt.value <= after.reportedAt.value)
    && (KnownType(before.actionType) ==> after.actionType == before.actionType)
    && (before.startedAt.Some? ==> after.startedAt == before.startedAt)
    && (before.finishedAt.Some? ==> after.finishedAt == before.finishedAt)
  }

  /** Over any sequence of batches every row only advances. */
  lemma {:induction false} RowsAdvance(s: Store, items: seq<Item>, key: Key)
    requires key in s.rows
    ensures key in Project(s, items).rows
    ensures RowAdvances(s.rows[key], Project(s, items).rows[key])
  {
    if items != [] {
      RowsAdvance(s, items[..|items| - 1], key);
    }
  }

  lemma {:induction false} ProjectConcat(s: Store, a: seq<Item>, b: seq<Item>)
    ensures Project(s, a + b) == Project(Project(s, a), b)
  {
    if b == [] {
      assert a + b == a;
    } else {
      var n := |b| - 1;
      ProjectConcat(s, a, b[..n]);
      assert (a + b)[..|a + b| - 1] == a + b[..n];
    }
  }

  function Count(effects: seq<Effect>, key: Key): nat {
    if effects == [] then 0
    else Count(effects[..|effects| - 1], key) + if effects[|effects| - 1] == OverridesDisabled(key) then 1 else 0
  }

  function CountResults(effects: seq<Effect>, key: Key): nat {
    if effects == [] then 0
    else
      var e := effects[|effects| - 1];
      CountResults(effects[..|effects| - 1], key) + if e.ResultRecorded? && e.key == key then 1 else 0
  }

  predicate RowFinished(s: Store, key: Key) {
    key in s.rows && Finished(s.rows[key].status)
  }

  lemma CountAppended(effects: seq<Effect>, item: Item, actionType: ActionType, key: Key)
    ensures Count(effects + EffectsOf(item, actionType), key) == Count(effects, key) + if item.key == key then 1 else 0
    ensures CountResults(effects + EffectsOf(item, actionType), key)
         == CountResults(effects, key) + if item.key == key && RecordsResult(item, actionType) then 1 else 0
  {
    var one := effects + [OverridesDisabled(item.key)];
    assert one[..|effects|] == effects;
    if RecordsResult(item, actionType) {
      var two := one + [ResultRecorded(item.key, actionType, item.status)];
      assert two[..|one|] == one;
      assert effects + EffectsOf(item, actionType) == two;
    } else {
      assert effects + EffectsOf(item, actionType) == one;
    }
  }

  function JustFinished(before: Store, after: Store, key: Key): nat {
    if RowFinished(after, key) && !RowFinished(before, key) then 1 else 0
  }

  /** An applied report finishes its own operation exactly when it is final, and no other. */
  lemma FinishesOwnRow(s: Store, item: Item, key: Key)
    ensures JustFinished(s, Projected(s, item), key)
         == if Applies(s, item) && IsTerminal(item.status) && item.key == key then 1 else 0
    ensures RowFinished(s, key) ==> RowFinished(Projected(s, item), key)
  {
  }

  lemma FinishingStep(s: Store, item: Item, key: Key)
    ensures Count(Projected(s, item).effects, key) == Count(s.effects, key) + JustFinished(s, Projected(s, item), key)
    ensures CountResults(Projected(s, item).effects, key)
         <= CountResults(s.effects, key) + JustFinished(s, Projected(s, item), key)
    ensures RowFinished(s, key) ==> RowFinished(Projected(s, item), key)
  {
    FinishesOwnRow(s, item, key);
    if Applies(s, item) && IsTerminal(item.status) {
      var actionType := Upserted(RowOf(s.rows, item.key), item).actionType;
      assert Projected(s, item).effects == s.effects + EffectsOf(item, actionType);
      CountAppended(s.effects, item, actionType, key);
    }
  }

  lemma {:induction false} StaysFinished(s: Store, items: seq<Item>, key: Key)
    requires RowFinished(s, key)
    ensures RowFinished(Project(s, items), key)
  {
    RowsAdvance(s, items, key);
  }

  /**
   Over any sequence of batches the finishing work of an operation runs at most once: exactly once if
   the operation finishes in the run, and never if it was finished before.
   */
  lemma {:induction false} FinishingWorkOnce(s: Store, items: seq<Item>, key: Key)
    ensures Count(Project(s, items).effects, key) == Count(s.effects, key) + JustFinished(s, Project(s, items), key)
    ensures CountResults(Project(s, items).effects, key)
         <= CountResults(s.effects, key) + JustFinished(s, Project(s, items), key)
  {
    if items != [] {
      var n := |items| - 1;
      FinishingWorkOnce(s, items[..n], key);
      FinishingStep(Project(s, items[..n]), items[n], key);
      if RowFinished(s, key) {
        StaysFinished(s, items[..n], key);
      }
    }
  }

  // ----- one operation at a time

  function ItemsFor(items: seq<Item>, key: Key): (r: seq<Item>)
    ensures forall x :: x in r ==> x.key == key
  {
    if items == [] then []
    else
      var n := |items| - 1;
      ItemsFor(items[..n], key) + if items[n].key == key then [items[n]] else []
  }

  function FoldItem(row: Option<Row>, item: Item): Option<Row> {
    if Classify(row, item).Apply? then Some(Upserted(row, item)) else row
  }

  function FoldRow(row: Option<Row>, items: seq<Item>): Option<Row> {
    if items == [] then row
    else
      var n := |items| - 1;
      FoldItem(FoldRow(row, items[..n]), items[n])
  }

  lemma ProjectedRow(s: Store, item: Item, key: Key)
    ensures RowOf(Projected(s, item).rows, key)
         == if item.key == key then FoldItem(RowOf(s.rows, key), item) else RowOf(s.rows, key)
  {
  }

  lemma FoldSnoc(row: Option<Row>, items: seq<Item>, x: Item)
    ensures FoldRow(row, items + [x]) == FoldItem(FoldRow(row, items), x)
  {
    assert (items + [x])[..|items|] == items;
  }

  /** An operation's row depends only on the reports of that operation. */
  lemma {:induction false} ProjectByOperation(s: Store, items: seq<Item>, key: Key)
    ensures RowOf(Project(s, items).rows, key) == FoldRow(RowOf(s.rows, key), ItemsFor(items, key))
  {
    if items != [] {
      var n := |items| - 1;
      ProjectByOperation(s, items[..n], key);
      ProjectedRow(Project(s, items[..n]), items[n], key);
      if items[n].key == key {
        FoldSnoc(RowOf(s.rows, key), ItemsFor(items[..n], key), items[n]);
      } else {
        assert ItemsFor(items, key) == ItemsFor(items[..n], key);
      }
    }
  }

  /** The reports made at the given time, in order of delivery. */
  function At(items: seq<Item>, t: Option<Time>): (r: seq<Item>)
    ensures forall x :: x in r <==> x in items && Some(x.reportedAt) == t
  {
    if items == [] then []
    else
      var n := |items| - 1;
      assert items == items[..n] + [items[n]];
      At(items[..n], t) + if Some(items[n].reportedAt) == t then [items[n]] else []
  }

  /** The last update keys that are not empty, if any. */
  function LastKeys(items: seq<Item>, default: seq<string>): seq<string> {
    if items == [] then default
    else
      var n := |items| - 1;
      if |items[n].updateKeys| > 0 then items[n].updateKeys else LastKeys(items[..n], default)
  }

  /** The row shows exactly this report. */
  predicate Shows(row: Row, item: Item) {
    && row.status == Reported(item.status)
    && row.phase == Some(item.phase)
    && row.progress == item.progress
    && row.evidence == item.evidence
    && row.error == item.error
    && row.reportedAt == Some(item.reportedAt)
    && row.actionResult.None?
  }

  predicate Unfinished(row: Option<Row>) {
    row.Some? ==> !Finished(row.value.status)
  }

  /** Every report is old news to the row: none is newer, and a final one is strictly older. */
  ghost predicate Covers(row: Row, items: seq<Item>) {
    forall x :: x in items ==>
      && row.reportedAt.Some?
      && x.reportedAt <= row.reportedAt.value
      && (IsTerminal(x.status) ==> x.reportedAt < row.reportedAt.value)
  }

  /** The reports of the row's own time have left their mark on it. */
  ghost predicate Marked(row: Row, latest: seq<Item>) {
    latest != [] ==>
      && Shows(row, latest[|latest| - 1])
      && LastKeys(latest, row.updateKeys) == row.updateKeys
      && KnownType(row.actionType)
      && row.startedAt.Some?
  }

  /** What folding reports into a row leaves behind, as long as the operation is not finished. */
  lemma {:induction false} FoldFacts(row: Option<Row>, items: seq<Item>)
    requires FoldRow(row, items).Some? && Unfinished(FoldRow(row, items))
    ensures Covers(FoldRow(row, items).value, items)
    ensures Marked(FoldRow(row, items).value, At(items, FoldRow(row, items).value.reportedAt))
    ensures At(items, FoldRow(row, items).value.reportedAt) == [] ==> FoldRow(row, items) == row
  {
    if items != [] {
      var n := |items| - 1;
      var x := items[n];
      var before := FoldRow(row, items[..n]);
      assert items == items[..n] + [x];
      if before.Some? {
        FoldFacts(row, items[..n]);
      } else {
        FoldIsSome(row, items[..n]);
      }
      if Classify(before, x).Apply? {
        ReportMarks(before, x, items[..n]);
        assert At(items, Some(x.reportedAt)) == At(items[..n], Some(x.reportedAt)) + [x];
      } else {
        assert At(items, before.value.reportedAt) == At(items[..n], before.value.reportedAt);
      }
    }
  }

  lemma FoldIsSome(row: Option<Row>, items: seq<Item>)
    ensures items != [] || row.Some? ==> FoldRow(row, items).Some?
  {
  }

  lemma UpsertShows(before: Option<Row>, x: Item)
    requires x.status.Running?
    ensures Shows(Upserted(before, x), x)
    ensures KnownType(Upserted(before, x).actionType) && Upserted(before, x).startedAt.Some?
    ensures Upserted(before, x).updateKeys
         == if |x.updateKeys| > 0 || before.None? then x.updateKeys else before.value.updateKeys
  {
  }

  lemma ReportMarks(before: Option<Row>, x: Item, earlier: seq<Item>)
    requires Classify(before, x).Apply? && x.status.Running?
    requires before.Some? ==>
      Covers(before.value, earlier) && Marked(before.value, At(earlier, before.value.reportedAt))
    requires before.None? ==> earlier == []
    ensures Covers(Upserted(before, x), earlier + [x])
    ensures Marked(Upserted(before, x), At(earlier, Some(x.reportedAt)) + [x])
  {
    UpsertShows(before, x);
    if before.Some? {
      KeysOfSameTime(before.value, x, earlier);
      KeysMark(At(earlier, Some(x.reportedAt)), x, before.value.updateKeys);
    }
  }

  lemma KeysOfSameTime(row: Row, x: Item, earlier: seq<Item>)
    requires Covers(row, earlier) && Marked(row, At(earlier, row.reportedAt))
    requires row.reportedAt.Some? ==> row.reportedAt.value <= x.reportedAt
    ensures LastKeys(At(earlier, Some(x.reportedAt)), row.updateKeys) == row.updateKeys
  {
    var latest := At(earlier, Some(x.reportedAt));
    if latest != [] {
      assert latest[0] in latest;
      assert row.reportedAt == Some(x.reportedAt);
    }
  }

  lemma KeysMark(latest: seq<Item>, x: Item, keys: seq<string>)
    requires LastKeys(latest, keys) == keys
    ensures
      var keys' := if |x.updateKeys| > 0 then x.updateKeys else keys;
      LastKeys(latest + [x], keys') == keys'
  {
    assert (latest + [x])[..|latest|] == latest;
  }

  /** What redelivery makes of a row: only the reports of its own time are written again. */
  function Replayed(row: Row, latest: seq<Item>): Row {
    if latest == [] then row
    else
      var last := latest[|latest| - 1];
      row.(status := Reported(last.status), phase := Some(last.phase), updateKeys := LastKeys(latest, row.updateKeys),
           progress := last.progress, evidence := last.evidence, actionResult := None, error := last.error,
           reportedAt := Some(last.reportedAt))
  }

  /** Writing one more running report of the row's own time over a replayed row. */
  lemma ReplayOne(row: Row, latest: seq<Item>, x: Item)
    requires KnownType(row.actionType) && row.startedAt.Some? && !Finished(row.status)
    requires x.status.Running? && row.reportedAt == Some(x.reportedAt)
    requires forall y :: y in latest ==> y.status.Running? && Some(y.reportedAt) == row.reportedAt
    ensures FoldItem(Some(Replayed(row, latest)), x) == Some(Replayed(row, latest + [x]))
  {
    assert (latest + [x])[..|latest|] == latest;
    assert latest != [] ==> latest[|latest| - 1] in latest;
    var r := Replayed(row, latest);
    assert Classify(Some(r), x).Apply?;
    assert Upserted(Some(r), x).updateKeys == LastKeys(latest + [x], row.updateKeys);
    assert Upserted(Some(r), x) == Replayed(row, latest + [x]);
  }

  /** An older report is ignored, and a replayed row stays unfinished at its own time. */
  lemma ReplayStale(row: Row, latest: seq<Item>, x: Item)
    requires !Finished(row.status) && row.reportedAt.Some?
    requires forall y :: y in latest ==> y.status.Running? && Some(y.reportedAt) == row.reportedAt
    ensures !Finished(Replayed(row, latest).status) && Replayed(row, latest).reportedAt == row.reportedAt
    ensures x.reportedAt < row.reportedAt.value ==>
      FoldItem(Some(Replayed(row, latest)), x) == Some(Replayed(row, latest))
  {
    assert latest != [] ==> latest[|latest| - 1] in latest;
  }

  lemma CoveredPrefix(row: Row, items: seq<Item>)
    requires items != [] && Covers(row, items)
    ensures
      var n := |items| - 1;
      && Covers(row, items[..n])
      && row.reportedAt.Some? && items[n].reportedAt <= row.reportedAt.value
      && (IsTerminal(items[n].status) ==> items[n].reportedAt < row.reportedAt.value)
      && (forall y :: y in At(items[..n], row.reportedAt) ==> y.status.Running? && Some(y.reportedAt) == row.reportedAt)
      && At(items, row.reportedAt) == At(items[..n], row.reportedAt)
           + if items[n].reportedAt == row.reportedAt.value then [items[n]] else []
  {
    assert items[|items| - 1] in items;
    assert forall x :: x in items[..|items| - 1] ==> x in items;
  }

  lemma {:induction false} Replay(row: Row, items: seq<Item>)
    requires !Finished(row.status) && Covers(row, items)
    requires At(items, row.reportedAt) != [] ==> KnownType(row.actionType) && row.startedAt.Some?
    ensures FoldRow(Some(row), items) == Some(Replayed(row, At(items, row.reportedAt)))
    ensures FoldRow(Some(row), items).value.reportedAt == row.reportedAt
    ensures Unfinished(FoldRow(Some(row), items))
  {
    if items != [] {
      var n := |items| - 1;
      var x := items[n];
      var before := At(items[..n], row.reportedAt);
      CoveredPrefix(row, items);
      Replay(row, items[..n]);
      ReplayStale(row, before, x);
      if x.reportedAt == row.reportedAt.value {
        ReplayOne(row, before, x);
        ReplayStale(row, before + [x], x);
      } else {
        assert before + [] == before;
      }
    }
  }

  lemma {:induction false} FinishedStays(row: Row, items: seq<Item>)
    requires Finished(row.status)
    ensures FoldRow(Some(row), items) == Some(row)
  {
    if items != [] {
      FinishedStays(row, items[..|items| - 1]);
    }
  }

  /** A prefix of the redelivered reports leaves the row at its own time, or finished as it was. */
  lemma RedeliveredPrefix(row: Option<Row>, items: seq<Item>, some: seq<Item>)
    requires items != [] && forall x :: x in some ==> x in items
    ensures FoldRow(row, items).Some?
    ensures
      var after := FoldRow(row, items);
      var again := FoldRow(after, some);
      if Finished(after.value.status) then again == after
      else
        && again.Some? && Unfinished(again) && again.value.reportedAt == after.value.reportedAt
        && Covers(after.value, items)
  {
    FoldIsSome(row, items);
    var after := FoldRow(row, items).value;
    if Finished(after.status) {
      FinishedStays(after, some);
    } else {
      FoldFacts(row, items);
      if At(some, after.reportedAt) != [] {
        assert At(some, after.reportedAt)[0] in At(items, after.reportedAt);
      }
      Replay(after, some);
    }
  }

  lemma RedeliveredRow(row: Option<Row>, items: seq<Item>)
    ensures FoldRow(FoldRow(row, items), items) == FoldRow(row, items)
  {
    FoldIsSome(row, items);
    if items != [] {
      var after := FoldRow(row, items).value;
      if Finished(after.status) {
        FinishedStays(after, items);
      } else {
        FoldFacts(row, items);
        Replay(after, items);
      }
    }
  }

  lemma {:induction false} ItemsForPrefix(items: seq<Item>, k: nat, key: Key)
    requires k <= |items|
    ensures forall x :: x in ItemsFor(items[..k], key) ==> x in ItemsFor(items, key)
    ensures k < |items| && items[k].key == key ==> items[k] in ItemsFor(items, key)
  {
    if k == |items| {
      assert items[..k] == items;
    } else if k == |items| - 1 {
    } else {
      var n := |items| - 1;
      ItemsForPrefix(items[..n], k, key);
      assert items[..n][..k] == items[..k];
    }
  }

  /** A final report that was delivered once is never applied again. */
  lemma FinalReportNotReapplied(s: Store, batch: seq<Item>, k: nat)
    requires k < |batch| && IsTerminal(batch[k].status)
    ensures !Applies(Project(Project(s, batch), batch[..k]), batch[k])
  {
    var x := batch[k];
    ProjectByOperation(s, batch, x.key);
    ProjectByOperation(Project(s, batch), batch[..k], x.key);
    ItemsForPrefix(batch, k, x.key);
    RedeliveredPrefix(RowOf(s.rows, x.key), ItemsFor(batch, x.key), ItemsFor(batch[..k], x.key));
  }

  lemma {:induction false} RedeliveryNoEffects(s: Store, batch: seq<Item>, k: nat)
    requires k <= |batch|
    ensures Project(Project(s, batch), batch[..k]).effects == Project(s, batch).effects
    ensures Project(Project(s, batch), batch[..k]).overrides == Project(s, batch).overrides
  {
    if k > 0 {
      RedeliveryNoEffects(s, batch, k - 1);
      assert batch[..k][..k - 1] == batch[..k - 1];
      if IsTerminal(batch[k - 1].status) {
        FinalReportNotReapplied(s, batch, k - 1);
      }
    }
  }

  /**
   Redelivering a whole batch changes nothing, from any store: no action row, no override, and no
   finishing work runs again.
   */
  lemma RedeliveryIsIdempotent(s: Store, batch: seq<Item>)
    ensures Project(Project(s, batch), batch) == Project(s, batch)
  {
    var once := Project(s, batch);
    var twice := Project(once, batch);
    RedeliveryNoEffects(s, batch, |batch|);
    assert batch[..|batch|] == batch;
    forall key ensures RowOf(twice.rows, key) == RowOf(once.rows, key) {
      ProjectByOperation(s, batch, key);
      ProjectByOperation(once, batch, key);
      RedeliveredRow(RowOf(s.rows, key), ItemsFor(batch, key));
    }
    SameRows(twice.rows, once.rows);
  }

  lemma SameRows(a: map<Key, Row>, b: map<Key, Row>)
    requires forall key :: RowOf(a, key) == RowOf(b, key)
    ensures a == b
  {
    assert forall key :: key in a <==> RowOf(a, key).Some?;
    assert forall key :: key in b <==> RowOf(b, key).Some?;
    forall key | key in a ensures key in b && a[key] == b[key] {
      assert RowOf(a, key) == RowOf(b, key);
    }
  }

  // ----- redelivery at any later point

  /** The second report hides nothing of the first. */
  predicate Agrees(x: Item, y: Item) {
    && x.phase == y.phase && x.progress == y.progress && x.evidence == y.evidence && x.error == y.error
    && (x.updateKeys == y.updateKeys || x.updateKeys == [] || y.updateKeys == [])
  }

  /** Running reports of one operation made at one time agree. */
  predicate Alike(x: Item, y: Item) {
    x.key == y.key && x.reportedAt == y.reportedAt && x.status.Running? && y.status.Running? ==> Agrees(x, y)
  }

  lemma {:induction false} ItemsForMember(items: seq<Item>, key: Key)
    ensures forall x :: x in ItemsFor(items, key) <==> x in items && x.key == key
  {
    if items != [] {
      var n := |items| - 1;
      ItemsForMember(items[..n], key);
      assert items == items[..n] + [items[n]];
    }
  }

  /** Reports that agree with one that has update keys leave these keys. */
  lemma {:induction false} LastKeysAgree(items: seq<Item>, x: Item, default: seq<string>)
    requires x in items && x.updateKeys != [] && forall y :: y in items ==> Agrees(x, y)
    ensures LastKeys(items, default) == x.updateKeys
  {
    var n := |items| - 1;
    assert items == items[..n] + [items[n]];
    assert Agrees(x, items[n]);
    if items[n].updateKeys == [] {
      LastKeysAgree(items[..n], x, default);
    }
  }

  /** Writing a report of the row's own time again, when all reports of that time agree with it. */
  lemma SameTimeIsInert(row: Row, latest: seq<Item>, x: Item)
    requires !Finished(row.status) && Marked(row, latest) && x in latest && x.status.Running?
    requires row.reportedAt == Some(x.reportedAt)
    requires forall y :: y in latest ==> y.status.Running? && Agrees(x, y)
    ensures Upserted(Some(row), x) == row
  {
    var last := latest[|latest| - 1];
    assert last in latest;
    assert Shows(row, last) && Agrees(x, last);
    if x.updateKeys != [] {
      LastKeysAgree(latest, x, row.updateKeys);
    }
  }

  /** A row that already took the report takes it again without a change. */
  lemma FoldedReportIsInert(row: Option<Row>, items: seq<Item>, x: Item)
    requires x in items && forall y :: y in items ==> y.key == x.key && Alike(x, y)
    ensures FoldItem(FoldRow(row, items), x) == FoldRow(row, items)
    ensures Classify(FoldRow(row, items), x).Apply? ==> x.status.Running?
  {
    FoldIsSome(row, items);
    var after := FoldRow(row, items).value;
    if !Finished(after.status) {
      FoldFacts(row, items);
      if x.reportedAt == after.reportedAt.value {
        SameTimeIsInert(after, At(items, after.reportedAt), x);
      }
    }
  }

  /**
   In any run in which the reports of one operation and time agree, delivering a report of the run again
   at any later point changes nothing: no action row, no override, and no finishing work runs again.
   */
  lemma RedeliveryAnyTime(s: Store, run: seq<Item>, x: Item)
    requires x in run && forall y :: y in run ==> Alike(x, y)
    ensures Projected(Project(s, run), x) == Project(s, run)
  {
    var after := Project(s, run);
    ProjectByOperation(s, run, x.key);
    ItemsForMember(run, x.key);
    FoldedReportIsInert(RowOf(s.rows, x.key), ItemsFor(run, x.key), x);
    if Applies(after, x) {
      assert after.rows[x.key := after.rows[x.key]] == after.rows;
    }
  }

  /**
   Two running reports of one operation at one time: once both have been taken, delivering the first
   again changes nothing exactly when the second agrees with it.
   */
  lemma EqualTimesCollide(s: Store, x: Item, y: Item)
    requires x.status.Running? && y.status.Running? && x.key == y.key && x.reportedAt == y.reportedAt
    requires Applies(s, x)
    ensures Projected(Project(s, [x, y]), x) == Project(s, [x, y]) <==> Agrees(x, y)
  {
    var first := Projected(s, x);
    var both := Projected(first, y);
    assert [x, y][..1] == [x] && [x][..0] == [];
    assert Project(s, [x]) == first && Project(s, [x, y]) == both;
    var row := both.rows[x.key];
    assert Applies(both, x);
    assert Upserted(Some(row), x) == row <==> Agrees(x, y);
    assert Projected(both, x).rows == both.rows[x.key := Upserted(Some(row), x)];
    assert Projected(both, x).rows[x.key] == Upserted(Some(row), x);
    if Agrees(x, y) {
      assert Projected(both, x).rows == both.rows;
    }
  }

  /** A report of the run, delivered again after it, changes nothing. */
  ghost predicate InertAfter(s: Store, run: seq<Item>, x: Item) {
    x in run ==> Projected(Project(s, run), x) == Project(s, run)
  }

  ghost predicate DrawnFrom(run: seq<Item>, reports: set<Item>) {
    forall x :: x in run ==> x in reports
  }

  /**
   Whatever is delivered of a set of reports, in any order, with any repetitions and to any store, late
   redelivery changes nothing, exactly when the running reports of each operation and time agree.
   */
  lemma RedeliveryExactly(reports: set<Item>)
    ensures (forall s, run, x :: DrawnFrom(run, reports) ==> InertAfter(s, run, x))
      <==> forall x, y :: x in reports && y in reports ==> Alike(x, y)
  {
    if forall x, y :: x in reports && y in reports ==> Alike(x, y) {
      forall s, run, x | DrawnFrom(run, reports) ensures InertAfter(s, run, x) {
        if x in run {
          RedeliveryAnyTime(s, run, x);
        }
      }
    } else {
      var x, y :| x in reports && y in reports && !Alike(x, y);
      var empty := Store(map[], [], []);
      EqualTimesCollide(empty, x, y);
      assert DrawnFrom([x, y], reports) && !InertAfter(empty, [x, y], x);
    }
  }

  // ----- delivery order

  ghost predicate DistinctTimes(items: seq<Item>) {
    forall i, j :: 0 <= i < j < |items| ==> items[i].reportedAt != items[j].reportedAt
  }

  lemma {:induction false} RunningStaysUnfinished(row: Option<Row>, items: seq<Item>)
    requires Unfinished(row) && forall x :: x in items ==> x.status.Running?
    ensures Unfinished(FoldRow(row, items))
  {
    if items != [] {
      var n := |items| - 1;
      assert items[n] in items;
      assert forall x :: x in items[..n] ==> x in items;
      RunningStaysUnfinished(row, items[..n]);
    }
  }

  /** With distinct times, the row shows the one report made at the row's time, whatever the order. */
  lemma LatestShows(row: Option<Row>, items: seq<Item>, z: Item)
    requires Unfinished(row) && (forall x :: x in items ==> x.status.Running?) && DistinctTimes(items)
    requires z in items && FoldRow(row, items).Some?
    requires FoldRow(row, items).value.reportedAt == Some(z.reportedAt)
    ensures Shows(FoldRow(row, items).value, z)
  {
    RunningStaysUnfinished(row, items);
    FoldFacts(row, items);
    var latest := At(items, Some(z.reportedAt));
    assert z in latest;
    var last := latest[|latest| - 1];
    assert last in latest;
    var i :| 0 <= i < |items| && items[i] == z;
    var j :| 0 <= j < |items| && items[j] == last;
    assert i == j;
  }

  /** The time of the row is the latest of its old time and the reports' times. */
  lemma FinalTime(row: Option<Row>, items: seq<Item>)
    requires Unfinished(row) && (forall x :: x in items ==> x.status.Running?) && items != []
    ensures FoldRow(row, items).Some? && FoldRow(row, items).value.reportedAt.Some?
    ensures
      var t := FoldRow(row, items).value.reportedAt.value;
      && (forall x :: x in items ==> x.reportedAt <= t)
      && (row.Some? && row.value.reportedAt.Some? ==> row.value.reportedAt.value <= t)
      && ((exists x :: x in items && x.reportedAt == t) || FoldRow(row, items) == row)
  {
    RunningStaysUnfinished(row, items);
    FoldIsSome(row, items);
    FoldFacts(row, items);
    assert items[0] in items;
    var after := FoldRow(row, items).value;
    var latest := At(items, after.reportedAt);
    if latest != [] {
      assert latest[0] in latest;
    }
    FoldAdvances(row, items);
  }

  lemma {:induction false} FoldAdvances(row: Option<Row>, items: seq<Item>)
    ensures row.Some? ==> FoldRow(row, items).Some? && RowAdvances(row.value, FoldRow(row, items).value)
  {
    if items != [] {
      FoldAdvances(row, items[..|items| - 1]);
    }
  }

  /**
   Running reports with distinct times, delivered in two different orders to the same unfinished
   operation, leave the same status, phase, progress, evidence, error and `reported_at`.
   */
  lemma RunningOrderDoesNotMatter(row: Option<Row>, items: seq<Item>, items': seq<Item>)
    requires Unfinished(row) && items != [] && items' != []
    requires forall x :: x in items ==> x.status.Running?
    requires forall x :: x in items <==> x in items'
    requires DistinctTimes(items) && DistinctTimes(items')
    ensures FoldRow(row, items).Some? && FoldRow(row, items').Some?
    ensures
      var a := FoldRow(row, items).value;
      var b := FoldRow(row, items').value;
      && a.reportedAt == b.reportedAt && a.status == b.status && a.phase == b.phase
      && a.progress == b.progress && a.evidence == b.evidence && a.error == b.error
  {
    FinalTime(row, items);
    FinalTime(row, items');
    var t := FoldRow(row, items).value.reportedAt.value;
    if z :| z in items && z.reportedAt == t {
      assert z.reportedAt == FoldRow(row, items').value.reportedAt.value;
      LatestShows(row, items, z);
      LatestShows(row, items', z);
    } else {
      assert FoldRow(row, items) == row;
    }
  }
}
