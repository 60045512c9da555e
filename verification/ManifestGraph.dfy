/** The walk over the local Cargo manifests that a dependency update has to fetch. */
module ManifestGraph {
  import opened Common

  /** A manifest's local paths by the section that names them; an entry without a path is absent. */
  datatype Manifest = Manifest(
    members: seq<string>,
    dependencies: seq<Option<string>>,
    workspaceDependencies: seq<Option<string>>,
    targetDependencies: seq<Option<string>>,
    patches: seq<Option<string>>,
    replacements: seq<Option<string>>)

  /**
   The readable manifests by normalized path, and the host's path rule: the normalized path of the
   manifest in directory `local`, as seen from a manifest.
   */
  datatype Graph = Graph(files: map<string, Manifest>, resolve: (string, string) -> string)

  function Present(paths: seq<Option<string>>): seq<string> {
    if paths == [] then []
    else (if paths[0].Some? then [paths[0].value] else []) + Present(paths[1..])
  }

  function Locals(m: Manifest): seq<string> {
    m.members + Present(m.dependencies) + Present(m.workspaceDependencies) + Present(m.targetDependencies)
    + Present(m.patches) + Present(m.replacements)
  }

  predicate Escapes(path: string) {
    "../" <= path || "/" <= path
  }

  predicate HasGlob(local: string) {
    exists c :: c in local && c in "?*[]{}"
  }

  // ----- what the walk should find

  ghost predicate Child(g: Graph, p: string, q: string) {
    p in g.files && exists local :: local in Locals(g.files[p]) && q == g.resolve(p, local)
  }

  /** The manifest stays in the repository, can be read, and names no glob. */
  ghost predicate Good(g: Graph, p: string) {
    !Escapes(p) && p in g.files && forall local :: local in Locals(g.files[p]) ==> !HasGlob(local)
  }

  ghost predicate Trail(g: Graph, trail: seq<string>) {
    forall i :: 0 <= i < |trail| - 1 ==> Child(g, trail[i], trail[i + 1])
  }

  ghost predicate Reachable(g: Graph, p: string, q: string) {
    exists trail :: |trail| > 0 && trail[0] == p && trail[|trail| - 1] == q && Trail(g, trail)
  }

  lemma ReachesItself(g: Graph, p: string)
    ensures Reachable(g, p, p)
  {
    assert Trail(g, [p]);
  }

  lemma ReachesThroughChild(g: Graph, p: string, c: string, q: string)
    requires Child(g, p, c) && Reachable(g, c, q)
    ensures Reachable(g, p, q)
  {
    var trail :| |trail| > 0 && trail[0] == c && trail[|trail| - 1] == q && Trail(g, trail);
    var longer := [p] + trail;
    forall i | 0 <= i < |longer| - 1 ensures Child(g, longer[i], longer[i + 1]) {
      if i > 0 {
        assert Child(g, trail[i - 1], trail[i]);
      }
    }
    assert Trail(g, longer);
  }

  /** Every child of the manifest has been visited. */
  ghost predicate Expanded(g: Graph, p: string, visited: seq<string>) {
    Good(g, p) && forall q :: Child(g, p, q) ==> q in visited
  }

  lemma {:induction false} ClosedContainsTrail(g: Graph, visited: seq<string>, trail: seq<string>)
    requires |trail| > 0 && trail[0] in visited && Trail(g, trail)
    requires forall p :: p in visited ==> Expanded(g, p, visited)
    ensures trail[|trail| - 1] in visited
  {
    if |trail| > 1 {
      assert Child(g, trail[0], trail[1]);
      assert Expanded(g, trail[0], visited);
      forall i | 0 <= i < |trail[1..]| - 1 ensures Child(g, trail[1..][i], trail[1..][i + 1]) {
        assert Child(g, trail[i + 1], trail[i + 2]);
      }
      ClosedContainsTrail(g, visited, trail[1..]);
    }
  }

  /** Everything visited since `before` is reachable from the manifest. */
  ghost predicate ReachedFrom(g: Graph, path: string, before: seq<string>, visited: seq<string>) {
    forall p :: p in visited ==> p in before || Reachable(g, path, p)
  }

  /** Everything visited since `before` has all its children visited. */
  ghost predicate AllExpanded(g: Graph, before: seq<string>, visited: seq<string>) {
    forall p :: p in visited ==> p in before || Expanded(g, p, visited)
  }

  lemma ReachedThroughChild(
    g: Graph, path: string, child: string, before: seq<string>, mid: seq<string>, visited: seq<string>)
    requires Child(g, path, child)
    requires ReachedFrom(g, path, before, mid) && ReachedFrom(g, child, mid, visited)
    ensures ReachedFrom(g, path, before, visited)
  {
    forall p | p in visited ensures p in before || Reachable(g, path, p) {
      if p !in mid {
        ReachesThroughChild(g, path, child, p);
      }
    }
  }

  lemma ExpandedTogether(g: Graph, before: seq<string>, mid: seq<string>, visited: seq<string>)
    requires AllExpanded(g, before, mid) && AllExpanded(g, mid, visited) && mid <= visited
    ensures AllExpanded(g, before, visited)
  {
    forall p | p in visited && p !in before ensures Expanded(g, p, visited) {
      if p in mid {
        assert Expanded(g, p, mid);
        assert forall q :: q in mid ==> q in visited;
      }
    }
  }

  /** A visited manifest whose locals are all visited joins the expanded ones. */
  lemma ExpandedWithPath(g: Graph, before: seq<string>, path: string, visited: seq<string>)
    requires AllExpanded(g, before + [path], visited) && Expanded(g, path, visited)
    ensures AllExpanded(g, before, visited)
  {
    forall p | p in visited && p !in before ensures Expanded(g, p, visited) {
      assert p == path || p !in before + [path];
    }
  }

  /** Visiting more leaves less; visiting a readable manifest for the first time leaves strictly less. */
  lemma UnvisitedShrinks(g: Graph, before: seq<string>, after: seq<string>)
    requires before <= after
    ensures |Unvisited(g, after)| <= |Unvisited(g, before)|
    ensures (exists p :: p in g.files && p in after && p !in before) ==> |Unvisited(g, after)| < |Unvisited(g, before)|
  {
    var gone := Unvisited(g, before) - Unvisited(g, after);
    assert Unvisited(g, before) == Unvisited(g, after) + gone;
    if p :| p in g.files && p in after && p !in before {
      assert p in gone;
    }
  }

  function Unvisited(g: Graph, visited: seq<string>): set<string> {
    set p | p in g.files && p !in visited
  }

  // ----- the walk

  class ManifestWalk {
    const graph: Graph
    var visited: seq<string>

    constructor (graph: Graph)
      ensures this.graph == graph && visited == []
    {
      this.graph := graph;
      visited := [];
    }

    /** Depth-first visit; false when it throws. */
    method Visit(path: string) returns (ok: bool)
      requires Distinct(visited)
      modifies this
      ensures Distinct(visited) && old(visited) <= visited
      ensures ReachedFrom(graph, path, old(visited), visited)
      ensures ok ==> path in visited && AllExpanded(graph, old(visited), visited)
      ensures !ok ==> exists p :: Reachable(graph, path, p) && !Good(graph, p)
      decreases |Unvisited(graph, visited)|, 0
    {
      ReachesItself(graph, path);
      if Escapes(path) { return false; }
      if path in visited { return true; }
      visited := visited + [path];
      if path !in graph.files { return false; }
      UnvisitedShrinks(graph, old(visited), visited);
      ok := VisitLocals(path);
      if ok {
        assert visited[|old(visited)|] == path;
        ExpandedWithPath(graph, old(visited), path, visited);
      }
    }

    /** Visits one manifest that a manifest names. */
    method VisitLocal(path: string, local: string) returns (ok: bool)
      requires Distinct(visited) && path in graph.files && local in Locals(graph.files[path])
      modifies this
      ensures Distinct(visited) && old(visited) <= visited
      ensures ReachedFrom(graph, path, old(visited), visited)
      ensures ok ==> !HasGlob(local) && graph.resolve(path, local) in visited
      ensures ok ==> AllExpanded(graph, old(visited), visited)
      ensures !ok ==> exists p :: Reachable(graph, path, p) && !Good(graph, p)
      decreases |Unvisited(graph, visited)|, 1
    {
      ReachesItself(graph, path);
      if HasGlob(local) { return false; }
      var child := graph.resolve(path, local);
      ok := Visit(child);
      ReachedThroughChild(graph, path, child, old(visited), old(visited), visited);
      if !ok {
        ghost var p :| Reachable(graph, child, p) && !Good(graph, p);
        ReachesThroughChild(graph, path, child, p);
      }
    }

    /** Visits the manifests that a manifest names, in order. */
    method VisitLocals(path: string) returns (ok: bool)
      requires Distinct(visited) && path in graph.files
      modifies this
      ensures Distinct(visited) && old(visited) <= visited
      ensures ReachedFrom(graph, path, old(visited), visited)
      ensures ok ==> AllExpanded(graph, old(visited), visited)
      ensures ok ==> forall local :: local in Locals(graph.files[path]) ==>
        !HasGlob(local) && graph.resolve(path, local) in visited
      ensures !ok ==> exists p :: Reachable(graph, path, p) && !Good(graph, p)
      decreases |Unvisited(graph, visited)|, 2
    {
      var paths := Locals(graph.files[path]);
      for k := 0 to |paths|
        invariant Distinct(visited) && old(visited) <= visited
        invariant ReachedFrom(graph, path, old(visited), visited)
        invariant AllExpanded(graph, old(visited), visited)
        invariant forall j :: 0 <= j < k ==> !HasGlob(paths[j]) && graph.resolve(path, paths[j]) in visited
      {
        ghost var mid := visited;
        UnvisitedShrinks(graph, old(visited), mid);
        ok := VisitLocal(path, paths[k]);
        if !ok { return; }
        ExpandedTogether(graph, old(visited), mid, visited);
      }
      ok := true;
    }
  }

  /**
   Succeeds exactly when every manifest reachable from the entry is good, and then returns exactly the
   reachable manifests, each once.
   */
  method CheckCargoManifestGraph(graph: Graph, entry: string) returns (r: Option<seq<string>>)
    ensures r.Some? <==> forall p :: Reachable(graph, entry, p) ==> Good(graph, p)
    ensures r.Some? ==> Distinct(r.value) && forall p :: p in r.value <==> Reachable(graph, entry, p)
  {
    var walk := new ManifestWalk(graph);
    var ok := walk.Visit(entry);
    if !ok { return None; }
    forall p | Reachable(graph, entry, p) ensures p in walk.visited {
      var trail :| |trail| > 0 && trail[0] == entry && trail[|trail| - 1] == p && Trail(graph, trail);
      ClosedContainsTrail(graph, walk.visited, trail);
    }
    r := Some(walk.visited);
  }
}
