/** The last pass of the planner: at most one macOS version update is installed in one run. */
module MacosSelection {
  import opened Common
  import opened PatchTypes
  import opened StableSort

  type Version = seq<nat>

  // ----- version comparison

  function Part(v: Version, i: nat): nat {
    if i < |v| then v[i] else 0
  }

  /** The first difference from position `i` on, positive when the second version is newer. */
  function DifferenceFrom(a: Version, b: Version, i: nat): int
    decreases Max(|a|, |b|) - i
  {
    if i >= Max(|a|, |b|) then 0
    else if Part(b, i) != Part(a, i) then Part(b, i) - Part(a, i)
    else DifferenceFrom(a, b, i + 1)
  }

  function CompareDesc(a: Version, b: Version): int {
    DifferenceFrom(a, b, 0)
  }

  method CompareVersionPartsDesc(a: Option<Version>, b: Option<Version>) returns (r: int)
    ensures r == CompareDesc(if a.Some? then a.value else [], if b.Some? then b.value else [])
  {
    var left := if a.Some? then a.value else [];
    var right := if b.Some? then b.value else [];
    var length := Max(|left|, |right|);
    var index := 0;
    while index < length
      invariant DifferenceFrom(left, right, index) == CompareDesc(left, right)
    {
      var diff := Part(right, index) - Part(left, index);
      if diff != 0 { return diff; }
      index := index + 1;
    }
    r := 0;
  }

  /** `b` is newer than `a`: some part is larger and all parts before it agree, missing parts being 0. */
  ghost predicate NewerAt(a: Version, b: Version, k: nat) {
    Part(a, k) < Part(b, k) && forall i: nat :: i < k ==> Part(a, i) == Part(b, i)
  }

  ghost predicate SameVersion(a: Version, b: Version) {
    forall i: nat :: Part(a, i) == Part(b, i)
  }

  lemma {:induction false} DifferenceMeaning(a: Version, b: Version, i: nat)
    requires forall j: nat :: j < i ==> Part(a, j) == Part(b, j)
    ensures DifferenceFrom(a, b, i) > 0 <==> exists k: nat :: NewerAt(a, b, k)
    ensures DifferenceFrom(a, b, i) < 0 <==> exists k: nat :: NewerAt(b, a, k)
    ensures DifferenceFrom(a, b, i) == 0 <==> SameVersion(a, b)
    decreases Max(|a|, |b|) - i
  {
    if i < Max(|a|, |b|) {
      if Part(a, i) == Part(b, i) {
        DifferenceMeaning(a, b, i + 1);
      } else if Part(a, i) < Part(b, i) {
        assert NewerAt(a, b, i);
      } else {
        assert NewerAt(b, a, i);
      }
    }
  }

  /** The sign of the comparison is the zero-padded version order. */
  lemma CompareMeaning(a: Version, b: Version)
    ensures CompareDesc(a, b) > 0 <==> exists k: nat :: NewerAt(a, b, k)
    ensures CompareDesc(a, b) < 0 <==> exists k: nat :: NewerAt(b, a, k)
    ensures CompareDesc(a, b) == 0 <==> SameVersion(a, b)
  {
    DifferenceMeaning(a, b, 0);
  }

  lemma CompareTotal(a: Version, b: Version)
    ensures CompareDesc(a, b) <= 0 || CompareDesc(b, a) <= 0
    ensures CompareDesc(a, b) == 0 <==> CompareDesc(b, a) == 0
  {
    CompareMeaning(a, b);
    CompareMeaning(b, a);
  }

  lemma CompareTransitive(a: Version, b: Version, c: Version)
    requires CompareDesc(a, b) <= 0 && CompareDesc(b, c) <= 0
    ensures CompareDesc(a, c) <= 0
    ensures CompareDesc(a, c) == 0 ==> CompareDesc(a, b) == 0 && CompareDesc(b, c) == 0
  {
    CompareMeaning(a, b);
    CompareMeaning(b, c);
    CompareMeaning(a, c);
    if CompareDesc(a, b) < 0 {
      var k: nat :| NewerAt(b, a, k);
      if CompareDesc(b, c) < 0 {
        var m: nat :| NewerAt(c, b, m);
        assert NewerAt(c, a, if k < m then k else m);
      } else {
        assert NewerAt(c, a, k);
      }
    } else if CompareDesc(b, c) < 0 {
      var m: nat :| NewerAt(c, b, m);
      assert NewerAt(c, a, m);
    }
  }

  // ----- the selection

  /** The updates to install, by key; a later update of the same key takes the place of the earlier. */
  function SelectedByKey(updates: seq<Update>, keys: seq<string>): (r: seq<Update>)
    ensures forall u :: u in r ==> u in updates && u.key in keys
    ensures forall u :: u in updates && u.key in keys ==> HasKey(r, u.key)
    ensures DistinctKeys(r)
  {
    if updates == [] then []
    else
      var n := |updates| - 1;
      var u := updates[n];
      assert updates == updates[..n] + [u];
      var earlier := SelectedByKey(updates[..n], keys);
      if u.key !in keys then earlier else Placed(earlier, u)
  }

  function IndexOf(s: seq<Update>, key: string): (r: Option<nat>)
    ensures r.Some? ==> r.value < |s| && s[r.value].key == key
    ensures r.None? ==> forall i :: 0 <= i < |s| ==> s[i].key != key
  {
    if s == [] then None
    else
      var n := |s| - 1;
      if s[n].key == key then Some(n) else IndexOf(s[..n], key)
  }

  ghost predicate HasKey(s: seq<Update>, key: string) {
    exists i :: 0 <= i < |s| && s[i].key == key
  }

  ghost predicate DistinctKeys(s: seq<Update>) {
    forall i, j :: 0 <= i < j < |s| ==> s[i].key != s[j].key
  }

  function Placed(s: seq<Update>, u: Update): (r: seq<Update>)
    ensures forall x :: x in r ==> x == u || x in s
    ensures HasKey(r, u.key)
    ensures forall k :: HasKey(s, k) ==> HasKey(r, k)
    ensures DistinctKeys(s) ==> DistinctKeys(r)
  {
    var i := IndexOf(s, u.key);
    var r := if i.Some? then s[i.value := u] else s + [u];
    assert r[if i.Some? then i.value else |s|].key == u.key;
    assert forall k :: 0 <= k < |s| ==> r[k].key == s[k].key;
    r
  }

  predicate IsOsVersionUpdate(u: Update) {
    u.category.Feature? && u.osVersion.Some? && |u.osVersion.value| > 0
  }

  function VersionOf(u: Update): Version {
    if u.osVersion.Some? then u.osVersion.value else []
  }

  /** The host's order of texts: any total preorder. */
  type Collation = le: (string, string) -> bool | TotalPreorder(le) witness (a: string, b: string) => true

  /** Newest version first, then by title in the host's collation order. */
  predicate Preferred(collation: Collation, a: Update, b: Update) {
    var c := CompareDesc(VersionOf(a), VersionOf(b));
    c < 0 || (c == 0 && collation(a.title, b.title))
  }

  function Preference(collation: Collation): (Update, Update) -> bool {
    (a, b) => Preferred(collation, a, b)
  }

  lemma PreferenceIsPreorder(collation: Collation)
    ensures TotalPreorder(Preference(collation))
  {
    var le := Preference(collation);
    forall a, b ensures le(a, b) || le(b, a) {
      CompareTotal(VersionOf(a), VersionOf(b));
    }
    forall a, b, c | le(a, b) && le(b, c) ensures le(a, c) {
      CompareTransitive(VersionOf(a), VersionOf(b), VersionOf(c));
    }
  }

  function Keys(updates: seq<Update>): (r: set<string>)
    ensures forall k :: k in r <==> HasKey(updates, k)
  {
    set i | 0 <= i < |updates| :: updates[i].key
  }

  function Candidates(updates: seq<Update>, installKeys: seq<string>): seq<Update> {
    Filter(SelectedByKey(updates, installKeys), IsOsVersionUpdate)
  }

  function Newest(candidates: seq<Update>, collation: Collation): (u: Update)
    requires candidates != []
    ensures u in candidates
    ensures forall c :: c in candidates ==> CompareDesc(VersionOf(u), VersionOf(c)) <= 0
  {
    PreferenceIsPreorder(collation);
    FirstIsLeast(candidates, Preference(collation));
    Sort(candidates, Preference(collation))[0]
  }

  datatype Selection = Selection(installKeys: seq<string>, blocked: seq<Update>)

  function Constrained(isMacos: bool, updates: seq<Update>, installKeys: seq<string>, collation: Collation): Selection {
    var candidates := Candidates(updates, installKeys);
    if !isMacos || |candidates| <= 1 then Selection(installKeys, [])
    else
      var selectedKey := Newest(candidates, collation).key;
      var blocked := Filter(candidates, (u: Update) => u.key != selectedKey);
      var blockedKeys := Keys(blocked);
      Selection(Filter(installKeys, k => k !in blockedKeys), blocked)
  }

  lemma MemberHasKey(s: seq<Update>, u: Update)
    requires u in s
    ensures HasKey(s, u.key)
  {
    var i :| 0 <= i < |s| && s[i] == u;
  }

  /** Kept and blocked keys are exactly the keys to install, and no key is both. */
  lemma SelectionConserves(
    isMacos: bool, updates: seq<Update>, installKeys: seq<string>, collation: Collation, k: string)
    ensures
      var r := Constrained(isMacos, updates, installKeys, collation);
      && (k in installKeys <==> k in r.installKeys || k in Keys(r.blocked))
      && !(k in r.installKeys && k in Keys(r.blocked))
  {
    var r := Constrained(isMacos, updates, installKeys, collation);
    if HasKey(r.blocked, k) {
      var i :| 0 <= i < |r.blocked| && r.blocked[i].key == k;
      assert r.blocked[i] in r.blocked;
    }
  }

  lemma OneOfKey(s: seq<Update>, a: Update, b: Update)
    requires DistinctKeys(s) && a in s && b in s && a.key == b.key
    ensures a == b
  {
    var i :| 0 <= i < |s| && s[i] == a;
    var j :| 0 <= j < |s| && s[j] == b;
    assert i == j;
  }

  /** At most one version update is kept, and no blocked one is newer. */
  lemma NewestVersionKept(
    updates: seq<Update>, installKeys: seq<string>, collation: Collation, u: Update, other: Update)
    requires u in Candidates(updates, installKeys) && other in Candidates(updates, installKeys)
    requires u.key in Constrained(true, updates, installKeys, collation).installKeys
    ensures other.key in Constrained(true, updates, installKeys, collation).installKeys ==> other == u
    ensures other in Constrained(true, updates, installKeys, collation).blocked ==>
      CompareDesc(VersionOf(u), VersionOf(other)) <= 0
  {
    var candidates := Candidates(updates, installKeys);
    var r := Constrained(true, updates, installKeys, collation);
    if |candidates| <= 1 {
      assert u == candidates[0] && other == candidates[0];
    } else {
      var newest := Newest(candidates, collation);
      forall c | c in candidates && c.key != newest.key ensures c.key !in r.installKeys {
        MemberHasKey(r.blocked, c);
      }
      OneOfKey(SelectedByKey(updates, installKeys), u, newest);
      if other.key == newest.key {
        OneOfKey(SelectedByKey(updates, installKeys), other, newest);
      }
    }
  }

  lemma BlockedKeyIsCandidate(updates: seq<Update>, installKeys: seq<string>, collation: Collation, k: string)
    requires HasKey(Constrained(true, updates, installKeys, collation).blocked, k)
    ensures HasKey(Candidates(updates, installKeys), k)
    ensures k != Newest(Candidates(updates, installKeys), collation).key
  {
    var blocked := Constrained(true, updates, installKeys, collation).blocked;
    var i :| 0 <= i < |blocked| && blocked[i].key == k;
    assert blocked[i] in blocked;
    MemberHasKey(Candidates(updates, installKeys), blocked[i]);
  }

  /** Some version update is kept whenever there is one, and every other update is untouched. */
  lemma SelectionLosesNothingElse(updates: seq<Update>, installKeys: seq<string>, collation: Collation)
    ensures
      var r := Constrained(true, updates, installKeys, collation);
      var candidates := Candidates(updates, installKeys);
      && (candidates != [] ==> exists u :: u in candidates && u.key in r.installKeys)
      && (forall k :: k in installKeys && !HasKey(candidates, k) ==> k in r.installKeys)
      && (forall u :: u in r.blocked ==> u in candidates)
  {
    var r := Constrained(true, updates, installKeys, collation);
    var candidates := Candidates(updates, installKeys);
    if candidates != [] {
      var newest := Newest(candidates, collation);
      SelectionConserves(true, updates, installKeys, collation, newest.key);
      if HasKey(r.blocked, newest.key) {
        BlockedKeyIsCandidate(updates, installKeys, collation, newest.key);
      }
      assert newest.key in r.installKeys;
    }
    forall k | k in installKeys && !HasKey(candidates, k) ensures k in r.installKeys {
      SelectionConserves(true, updates, installKeys, collation, k);
      if HasKey(r.blocked, k) {
        BlockedKeyIsCandidate(updates, installKeys, collation, k);
      }
    }
  }

  lemma {:induction false} FilterKeepsDistinct(s: seq<Update>, p: Update -> bool)
    requires DistinctKeys(s)
    ensures DistinctKeys(Filter(s, p))
  {
    if s != [] {
      var n := |s| - 1;
      FilterKeepsDistinct(s[..n], p);
      var rest := Filter(s[..n], p);
      forall i | 0 <= i < |rest| ensures rest[i].key != s[n].key {
        assert rest[i] in rest;
      }
    }
  }

  /** No update is blocked twice. */
  lemma BlockedDistinct(isMacos: bool, updates: seq<Update>, installKeys: seq<string>, collation: Collation)
    ensures DistinctKeys(Constrained(isMacos, updates, installKeys, collation).blocked)
  {
    var candidates := Candidates(updates, installKeys);
    FilterKeepsDistinct(SelectedByKey(updates, installKeys), IsOsVersionUpdate);
    if isMacos && |candidates| > 1 {
      var selectedKey := Newest(candidates, collation).key;
      FilterKeepsDistinct(candidates, (u: Update) => u.key != selectedKey);
    }
  }
}
