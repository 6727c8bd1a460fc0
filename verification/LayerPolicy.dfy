/**
 * The layer policy of the include graph (check_arch.py): which layers may not depend on which, and
 * the worklist search that holds an application to it through everything it includes.
 */
module LayerPolicy {
  import opened Bytes
  import opened CheckArch

  type Layer = string

  datatype ForbiddenEdge = ForbiddenEdge(from: set<Layer>, to: set<Layer>, reason: string)

  /** The layers files belong to, and the forbidden edges in the order of the policy. */
  datatype Policy = Policy(layerOf: map<Node, Layer>, forbidden: seq<ForbiddenEdge>)

  /** Why a dependency is forbidden. */
  datatype Violation = Violation(reason: string, source: Layer, target: Layer)

  // ---------------------------------------------------------------- one dependency

  predicate Forbids(e: ForbiddenEdge, source: Layer, target: Layer) { source in e.from && target in e.to }

  predicate IsFirst(edges: seq<ForbiddenEdge>, j: nat, source: Layer, target: Layer) {
    j < |edges| && Forbids(edges[j], source, target) && forall i :: 0 <= i < j ==> !Forbids(edges[i], source, target)
  }

  /** `repository_layer_violation`: the first forbidden edge that matches, if any does. */
  method RepositoryLayerViolation(policy: Policy, source: Layer, target: Layer) returns (r: Option<Violation>)
    ensures r == LayerViolation(policy.forbidden, source, target)
  {
    for k := 0 to |policy.forbidden|
      invariant LayerViolation(policy.forbidden, source, target) == LayerViolation(policy.forbidden[k..], source, target)
    {
      var edge := policy.forbidden[k];
      if source in edge.from && target in edge.to {
        return Some(Violation(edge.reason, source, target));
      }
    }
    return None;
  }

  function LayerViolation(edges: seq<ForbiddenEdge>, source: Layer, target: Layer): (r: Option<Violation>)
    ensures r.Some? ==> r.value.source == source && r.value.target == target
  {
    if edges == [] then None
    else if Forbids(edges[0], source, target) then Some(Violation(edges[0].reason, source, target))
    else LayerViolation(edges[1..], source, target)
  }

  lemma {:induction false} FirstEdgeDecides(edges: seq<ForbiddenEdge>, source: Layer, target: Layer)
    ensures LayerViolation(edges, source, target).None? <==> forall e :: e in edges ==> !Forbids(e, source, target)
    ensures forall j: nat :: IsFirst(edges, j, source, target) ==>
      LayerViolation(edges, source, target) == Some(Violation(edges[j].reason, source, target))
  {
    if edges != [] {
      var rest := edges[1..];
      FirstEdgeDecides(rest, source, target);
      assert edges == [edges[0]] + rest;
      forall j: nat | IsFirst(edges, j, source, target)
        ensures LayerViolation(edges, source, target) == Some(Violation(edges[j].reason, source, target))
      {
        if j > 0 {
          assert IsFirst(rest, j - 1, source, target);
        }
      }
    }
  }

  /** What `layer_edge_violation` finds: nothing when either file is in no layer. */
  function EdgeViolation(policy: Policy, source: Node, target: Node): Option<Violation> {
    if source !in policy.layerOf || target !in policy.layerOf then None
    else LayerViolation(policy.forbidden, policy.layerOf[source], policy.layerOf[target])
  }

  method LayerEdgeViolation(policy: Policy, source: Node, target: Node) returns (r: Option<Violation>)
    ensures r == EdgeViolation(policy, source, target)
    ensures r.Some? <==>
      && source in policy.layerOf && target in policy.layerOf
      && exists e :: e in policy.forbidden && Forbids(e, policy.layerOf[source], policy.layerOf[target])
  {
    if source !in policy.layerOf || target !in policy.layerOf {
      return None;
    }
    r := RepositoryLayerViolation(policy, policy.layerOf[source], policy.layerOf[target]);
    FirstEdgeDecides(policy.forbidden, policy.layerOf[source], policy.layerOf[target]);
  }

  predicate Violates(policy: Policy, source: Node, target: Node) { EdgeViolation(policy, source, target).Some? }

  // ---------------------------------------------------------------- dependencies through includes

  /** `p` leads from `origin`, by at least one include, to its last file. */
  predicate Leads(g: Graph, origin: Node, p: seq<Node>, target: Node) {
    Walk(g, p) && |p| >= 2 && p[0] == origin && p[|p| - 1] == target
  }

  /** No file strictly between the ends violates the policy against the origin. */
  predicate Clean(policy: Policy, origin: Node, p: seq<Node>) {
    forall i :: 0 < i < |p| - 1 ==> !Violates(policy, origin, p[i])
  }

  ghost predicate Reachable(g: Graph, origin: Node, target: Node) { exists p :: Leads(g, origin, p, target) }

  ghost predicate CleanlyReachable(g: Graph, policy: Policy, origin: Node, target: Node) {
    exists p :: Leads(g, origin, p, target) && Clean(policy, origin, p)
  }

  /** What the search is to report about `origin`. */
  ghost predicate Reported(g: Graph, policy: Policy, origin: Node, target: Node) {
    Violates(policy, origin, target) && CleanlyReachable(g, policy, origin, target)
  }

  lemma DirectlyReachable(g: Graph, policy: Policy, origin: Node, child: Node)
    requires child in Next(g, origin)
    ensures CleanlyReachable(g, policy, origin, child)
  {
    assert Leads(g, origin, [origin, child], child) && Clean(policy, origin, [origin, child]);
  }

  lemma ReachableThrough(g: Graph, policy: Policy, origin: Node, via: Node, child: Node)
    requires CleanlyReachable(g, policy, origin, via) && !Violates(policy, origin, via) && child in Next(g, via)
    ensures CleanlyReachable(g, policy, origin, child)
  {
    var p :| Leads(g, origin, p, via) && Clean(policy, origin, p);
    assert Leads(g, origin, p + [child], child) && Clean(policy, origin, p + [child]);
  }

  /**
   * Cutting the search off at violations hides no guilty origin: it is reported if and only if
   * something it includes, however indirectly, violates the policy.
   */
  lemma PruningHidesNoOrigin(g: Graph, policy: Policy, origin: Node)
    ensures (exists t :: Reported(g, policy, origin, t)) <==>
      (exists t :: Violates(policy, origin, t) && Reachable(g, origin, t))
  {
    forall t | Reported(g, policy, origin, t)
      ensures Violates(policy, origin, t) && Reachable(g, origin, t)
    {
      var p :| Leads(g, origin, p, t) && Clean(policy, origin, p);
    }
    forall t | Violates(policy, origin, t) && Reachable(g, origin, t)
      ensures exists t' :: Reported(g, policy, origin, t')
    {
      var p :| Leads(g, origin, p, t);
      FirstViolation(g, policy, origin, p, 1);
    }
  }

  lemma {:induction false} FirstViolation(g: Graph, policy: Policy, origin: Node, p: seq<Node>, k: nat)
    requires Walk(g, p) && 1 <= k < |p| && p[0] == origin && Violates(policy, origin, p[|p| - 1])
    requires forall i :: 0 < i < k ==> !Violates(policy, origin, p[i])
    ensures exists t :: Reported(g, policy, origin, t)
    decreases |p| - k
  {
    if Violates(policy, origin, p[k]) {
      var q := p[..k + 1];
      assert Leads(g, origin, q, p[k]) && Clean(policy, origin, q);
      assert Reported(g, policy, origin, p[k]);
    } else {
      FirstViolation(g, policy, origin, p, k + 1);
    }
  }

  // ---------------------------------------------------------------- the worklist

  /** All includes of the origin and of every visited file that does not violate are known. */
  ghost predicate Expanded(g: Graph, policy: Policy, origin: Node, visited: set<Node>, pending: seq<Node>) {
    && (forall c :: c in Next(g, origin) ==> c in visited || c in pending)
    && forall v, c :: v in visited && !Violates(policy, origin, v) && c in Next(g, v) ==> c in visited || c in pending
  }

  ghost predicate Sound(g: Graph, policy: Policy, origin: Node, visited: set<Node>, pending: seq<Node>) {
    forall n :: n in visited || n in pending ==> CleanlyReachable(g, policy, origin, n)
  }

  /** A finished search has visited whatever is cleanly reachable, and nothing else. */
  lemma {:induction false} WalkIsVisited(g: Graph, policy: Policy, origin: Node, visited: set<Node>, p: seq<Node>, k: nat)
    requires Expanded(g, policy, origin, visited, [])
    requires Walk(g, p) && p[0] == origin && Clean(policy, origin, p) && 0 < k < |p|
    ensures p[k] in visited
  {
    assert p[k] in Next(g, p[k - 1]);
    if k > 1 {
      WalkIsVisited(g, policy, origin, visited, p, k - 1);
      assert !Violates(policy, origin, p[k - 1]);
    }
  }

  lemma VisitedIsReachable(g: Graph, policy: Policy, origin: Node, visited: set<Node>, n: Node)
    requires Expanded(g, policy, origin, visited, []) && Sound(g, policy, origin, visited, [])
    ensures n in visited <==> CleanlyReachable(g, policy, origin, n)
  {
    if CleanlyReachable(g, policy, origin, n) {
      var p :| Leads(g, origin, p, n) && Clean(policy, origin, p);
      WalkIsVisited(g, policy, origin, visited, p, |p| - 1);
    }
  }

  lemma Pruned(g: Graph, policy: Policy, origin: Node, visited: set<Node>, pending: seq<Node>, rest: seq<Node>, n: Node)
    requires Expanded(g, policy, origin, visited, pending) && Sound(g, policy, origin, visited, pending)
    requires pending == rest + [n] && (n in visited || Violates(policy, origin, n))
    ensures Expanded(g, policy, origin, visited + {n}, rest) && Sound(g, policy, origin, visited + {n}, rest)
  {
    assert forall m :: m in pending <==> m in rest || m == n;
  }

  lemma Followed(g: Graph, policy: Policy, origin: Node, visited: set<Node>, pending: seq<Node>, rest: seq<Node>, n: Node)
    requires Expanded(g, policy, origin, visited, pending) && Sound(g, policy, origin, visited, pending)
    requires pending == rest + [n] && !Violates(policy, origin, n)
    ensures Expanded(g, policy, origin, visited + {n}, rest + Next(g, n))
    ensures Sound(g, policy, origin, visited + {n}, rest + Next(g, n))
  {
    assert forall m :: m in pending <==> m in rest || m == n;
    assert forall m :: m in rest + Next(g, n) <==> m in rest || m in Next(g, n);
    forall c | c in Next(g, n)
      ensures CleanlyReachable(g, policy, origin, c)
    {
      ReachableThrough(g, policy, origin, n, c);
    }
  }

  lemma Started(g: Graph, policy: Policy, origin: Node)
    ensures Expanded(g, policy, origin, {}, Next(g, origin)) && Sound(g, policy, origin, {}, Next(g, origin))
  {
    forall c | c in Next(g, origin)
      ensures CleanlyReachable(g, policy, origin, c)
    {
      DirectlyReachable(g, policy, origin, c);
    }
  }

  /** A line of the report. */
  datatype Failure = Failure(origin: Node, target: Node, violation: Violation)

  /** The line is about this origin, and is what the policy says. */
  ghost predicate Justified(g: Graph, policy: Policy, f: Failure) {
    Reported(g, policy, f.origin, f.target) && EdgeViolation(policy, f.origin, f.target) == Some(f.violation)
  }

  ghost predicate Found(policy: Policy, origin: Node, visited: set<Node>, failures: set<Failure>) {
    forall f :: f in failures <==>
      f.origin == origin && f.target in visited && EdgeViolation(policy, origin, f.target) == Some(f.violation)
  }

  /** The search from one origin. */
  method SearchFrom(g: Graph, policy: Policy, origin: Node) returns (failures: set<Failure>)
    requires WellFormed(g)
    ensures forall f :: f in failures <==> f.origin == origin && Justified(g, policy, f)
  {
    failures := {};
    var pending := Next(g, origin);
    var visited: set<Node> := {};
    ghost var all := Universe(g);
    Started(g, policy, origin);
    while pending != []
      invariant Expanded(g, policy, origin, visited, pending) && Sound(g, policy, origin, visited, pending)
      invariant Found(policy, origin, visited, failures)
      invariant forall n :: n in pending ==> n in all
      decreases all - visited, |pending|
    {
      ghost var before := pending;
      var target := pending[|pending| - 1];
      pending := pending[..|pending| - 1];
      assert before == pending + [target] && target in before;
      if target in visited {
        Pruned(g, policy, origin, visited, before, pending, target);
        assert visited + {target} == visited;
        continue;
      }
      var violation := LayerEdgeViolation(policy, origin, target);
      ghost var unseen := all - visited;
      if violation.Some? {
        Pruned(g, policy, origin, visited, before, pending, target);
        failures := failures + {Failure(origin, target, violation.value)};
        visited := visited + {target};
      } else {
        Followed(g, policy, origin, visited, before, pending, target);
        visited := visited + {target};
        pending := pending + Next(g, target);
      }
      assert target in unseen && target !in all - visited;
    }
    forall f
      ensures f in failures <==> f.origin == origin && Justified(g, policy, f)
    {
      VisitedIsReachable(g, policy, origin, visited, f.target);
    }
  }

  predicate IsOrigin(policy: Policy, n: Node) { n in policy.layerOf && policy.layerOf[n] in {"app", "adapter"} }

  /** `transitive_layer_failures` */
  method TransitiveLayerFailures(g: Graph, policy: Policy) returns (failures: set<Failure>)
    requires WellFormed(g)
    ensures forall f :: f in failures <==> f.origin in g.files && IsOrigin(policy, f.origin) && Justified(g, policy, f)
  {
    failures := {};
    for k := 0 to |g.files|
      invariant forall f :: f in failures <==>
        f.origin in g.files[..k] && IsOrigin(policy, f.origin) && Justified(g, policy, f)
    {
      assert g.files[..k + 1] == g.files[..k] + [g.files[k]];
      if g.files[k] in policy.layerOf && policy.layerOf[g.files[k]] in {"app", "adapter"} {
        var more := SearchFrom(g, policy, g.files[k]);
        failures := failures + more;
      }
    }
    assert g.files[..|g.files|] == g.files;
  }
}
