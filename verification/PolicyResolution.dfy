/** Which patch policy applies to a device. */
module PolicyResolution {
  import opened Common
  import opened StableSort

  datatype PolicyScope = OrganizationScope | CustomerScope | SiteScope | DeviceScope

  datatype OsFamily = Windows | Linux | Macos | UnknownOs(text: string)

  /** `targetOs` is absent for all systems, `priority` when it is not an integer. */
  datatype Policy = Policy(
    id: string,
    scopeType: PolicyScope,
    scopeKey: string,
    targetOs: Option<OsFamily>,
    priority: Option<int>,
    enabled: bool,
    isDefault: bool,
    updatedAt: Option<int>)

  datatype Scope = Scope(
    organizationId: string,
    customerId: Option<string>,
    siteId: Option<string>,
    agentId: Option<string>,
    osFamily: Option<OsFamily>)

  const CUSTOM_PATCH_POLICY_DEFAULT_PRIORITY: int := 100
  const DEFAULT_PATCH_POLICY_PRIORITY: int := 10000

  function Priority(p: Policy): int {
    if p.priority.Some? then p.priority.value
    else if p.isDefault then DEFAULT_PATCH_POLICY_PRIORITY
    else CUSTOM_PATCH_POLICY_DEFAULT_PRIORITY
  }

  function Specificity(p: Policy): nat {
    if p.isDefault then 0
    else match p.scopeType
      case OrganizationScope => 1
      case CustomerScope => 2
      case SiteScope => 3
      case DeviceScope => 4
  }

  function UpdatedAt(p: Policy): int {
    if p.updatedAt.Some? then p.updatedAt.value else 0
  }

  predicate IsCandidate(p: Policy, scope: Scope) {
    && p.enabled
    && (p.targetOs.Some? ==> p.targetOs == scope.osFamily)
    && (if p.isDefault then p.scopeType.OrganizationScope?
        else match p.scopeType
          case DeviceScope => Some(p.scopeKey) == scope.agentId
          case SiteScope => Some(p.scopeKey) == scope.siteId
          case CustomerScope => Some(p.scopeKey) == scope.customerId
          case OrganizationScope => p.scopeKey == scope.organizationId)
  }

  /** The comparator: lower priority number, then more specific, then more recent. */
  function Delta(a: Policy, b: Policy): int {
    if Priority(a) != Priority(b) then Priority(a) - Priority(b)
    else if Specificity(a) != Specificity(b) then Specificity(b) - Specificity(a)
    else UpdatedAt(b) - UpdatedAt(a)
  }

  predicate NotAfter(a: Policy, b: Policy) {
    Delta(a, b) <= 0
  }

  function Candidates(policies: seq<Policy>, scope: Scope): seq<Policy> {
    Filter(policies, (p: Policy) => IsCandidate(p, scope))
  }

  function Resolve(policies: seq<Policy>, scope: Scope): Option<Policy> {
    var candidates := Candidates(policies, scope);
    if candidates == [] then None
    else
      NotAfterIsPreorder();
      FirstIsLeast(candidates, NotAfter);
      Some(Sort(candidates, NotAfter)[0])
  }

  lemma NotAfterIsPreorder()
    ensures TotalPreorder(NotAfter)
  {
  }

  predicate Tied(a: Policy, b: Policy) {
    Priority(a) == Priority(b) && Specificity(a) == Specificity(b) && UpdatedAt(a) == UpdatedAt(b)
  }

  /** `a` is ahead of `b` on the first of priority, specificity and recency on which they differ. */
  predicate Ahead(a: Policy, b: Policy) {
    || Priority(a) < Priority(b)
    || (Priority(a) == Priority(b) && Specificity(a) > Specificity(b))
    || (Priority(a) == Priority(b) && Specificity(a) == Specificity(b) && UpdatedAt(a) > UpdatedAt(b))
  }

  /** A policy is found exactly when there is a candidate, and it is a best one. */
  lemma ResolvesBest(policies: seq<Policy>, scope: Scope)
    ensures Resolve(policies, scope).None? <==> forall p :: p in policies ==> !IsCandidate(p, scope)
    ensures Resolve(policies, scope).Some? ==>
      var best := Resolve(policies, scope).value;
      && best in policies && IsCandidate(best, scope)
      && forall p :: p in policies && IsCandidate(p, scope) ==> Ahead(best, p) || Tied(best, p)
  {
    var candidates := Candidates(policies, scope);
    if candidates == [] {
      forall p | p in policies ensures !IsCandidate(p, scope) {
        assert p in candidates <==> IsCandidate(p, scope);
      }
    } else {
      NotAfterIsPreorder();
      FirstIsLeast(candidates, NotAfter);
      assert candidates[0] in candidates;
    }
  }

  lemma {:induction false} FirstOfTies(s: seq<Policy>, x: Policy)
    requires s != [] && Delta(s[0], x) <= 0 && Delta(x, s[0]) <= 0
    ensures Ties(s, x, NotAfter) != [] && Ties(s, x, NotAfter)[0] == s[0]
  {
  }

  /** Among tied candidates the earliest listed is taken. */
  lemma EarliestOfTies(policies: seq<Policy>, scope: Scope)
    requires Resolve(policies, scope).Some?
    ensures
      var best := Resolve(policies, scope).value;
      var ties := Ties(Candidates(policies, scope), best, NotAfter);
      ties != [] && ties[0] == best
  {
    var candidates := Candidates(policies, scope);
    var best := Resolve(policies, scope).value;
    NotAfterIsPreorder();
    FirstIsLeast(candidates, NotAfter);
    SortIsStableSort(candidates, best, NotAfter);
    FirstOfTies(Sort(candidates, NotAfter), best);
  }

  /** With no two candidates tied, the order in which the policies are listed does not matter. */
  lemma ListOrderDoesNotMatter(policies: seq<Policy>, policies': seq<Policy>, scope: Scope)
    requires forall p :: p in policies <==> p in policies'
    requires forall p, q ::
      p in policies && q in policies && IsCandidate(p, scope) && IsCandidate(q, scope) && p != q ==> !Tied(p, q)
    ensures Resolve(policies, scope) == Resolve(policies', scope)
  {
    ResolvesBest(policies, scope);
    ResolvesBest(policies', scope);
  }

  /** An enabled organization-wide default for all systems always leaves a policy. */
  lemma DefaultAlwaysApplies(policies: seq<Policy>, scope: Scope, p: Policy)
    requires p in policies && p.enabled && p.isDefault && p.scopeType.OrganizationScope? && p.targetOs.None?
    ensures Resolve(policies, scope).Some?
  {
    ResolvesBest(policies, scope);
    assert IsCandidate(p, scope);
  }
}
