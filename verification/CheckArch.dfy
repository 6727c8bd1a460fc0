/** The include graph of a source tree, and the depth-first search that reports its cycles (check_arch.py). */
module CheckArch {
  type Node = string

  /** Files in the order they were listed, and what each of them includes. */
  datatype Graph = Graph(files: seq<Node>, includes: map<Node, seq<Node>>)

  /** `graph.get(node, [])` */
  function Next(g: Graph, n: Node): seq<Node> { if n in g.includes then g.includes[n] else [] }

  /** Every list of includes is a listed file's. */
  predicate WellFormed(g: Graph) { forall n :: n in g.includes ==> n in g.files }

  predicate Walk(g: Graph, p: seq<Node>) {
    p != [] && forall i, j :: 0 <= i && j == i + 1 < |p| ==> p[j] in Next(g, p[i])
  }

  predicate Cycle(g: Graph, p: seq<Node>) { Walk(g, p) && |p| >= 2 && p[0] == p[|p| - 1] }

  predicate Distinct(p: seq<Node>) { forall i, j :: 0 <= i < j < |p| ==> p[i] != p[j] }

  /** A finite set that holds the listed files and everything they include. */
  predicate Closed(g: Graph, all: set<Node>) {
    (forall n :: n in g.files ==> n in all) && forall n, c :: n in g.includes && c in g.includes[n] ==> c in all
  }

  function Included(g: Graph, files: seq<Node>): set<Node> {
    if files == [] then {} else (set c | c in Next(g, files[0])) + Included(g, files[1..])
  }

  lemma {:induction false} IncludedIsAll(g: Graph, files: seq<Node>, n: Node)
    requires n in files
    ensures forall c :: c in Next(g, n) ==> c in Included(g, files)
  {
    if n != files[0] {
      IncludedIsAll(g, files[1..], n);
    }
  }

  function Universe(g: Graph): (all: set<Node>)
    requires WellFormed(g)
    ensures Closed(g, all)
  {
    assert forall n :: n in g.includes ==> n in g.files;
    UniverseIsClosed(g);
    (set n | n in g.files) + Included(g, g.files)
  }

  lemma UniverseIsClosed(g: Graph)
    requires WellFormed(g)
    ensures Closed(g, (set n | n in g.files) + Included(g, g.files))
  {
    forall n, c | n in g.includes && c in g.includes[n]
      ensures c in Included(g, g.files)
    {
      IncludedIsAll(g, g.files, n);
    }
  }

  // ---------------------------------------------------------------- cycles

  /** Some reported cycle closes with the edge from `n` to `c`. */
  predicate ClosesWith(f: seq<Node>, n: Node, c: Node) { |f| >= 2 && f[|f| - 2] == n && f[|f| - 1] == c }

  ghost predicate Closing(failures: seq<seq<Node>>, n: Node, c: Node) {
    exists f :: f in failures && ClosesWith(f, n, c)
  }

  /** Every include of a finished file finished before it, or was reported as closing a cycle. */
  ghost predicate Settled(g: Graph, finished: seq<Node>, failures: seq<seq<Node>>) {
    forall i, c :: 0 <= i < |finished| && c in Next(g, finished[i]) ==>
      c in finished[..i] || Closing(failures, finished[i], c)
  }

  /** Cycles without repeated files, each closed by its last include. */
  predicate Genuine(g: Graph, failures: seq<seq<Node>>) {
    forall f :: f in failures ==> Cycle(g, f) && Distinct(f[..|f| - 1])
  }

  lemma SettledGrows(g: Graph, finished: seq<Node>, failures: seq<seq<Node>>, more: seq<seq<Node>>)
    requires Settled(g, finished, failures) && failures <= more
    ensures Settled(g, finished, more)
  {
    forall n, c | Closing(failures, n, c)
      ensures Closing(more, n, c)
    {
      ClosingGrows(failures, more, n, c);
    }
  }

  lemma ClosingGrows(failures: seq<seq<Node>>, more: seq<seq<Node>>, n: Node, c: Node)
    requires Closing(failures, n, c) && failures <= more
    ensures Closing(more, n, c)
  {
    var f :| f in failures && ClosesWith(f, n, c);
    assert f in more;
  }

  lemma SettledFinish(g: Graph, finished: seq<Node>, failures: seq<seq<Node>>, n: Node)
    requires Settled(g, finished, failures)
    requires forall c :: c in Next(g, n) ==> c in finished || Closing(failures, n, c)
    ensures Settled(g, finished + [n], failures)
  {
    var all := finished + [n];
    forall i, c | 0 <= i < |all| && c in Next(g, all[i])
      ensures c in all[..i] || Closing(failures, all[i], c)
    {
      assert all[..i] == finished[..i];
    }
  }

  /** What closes on the stack is a cycle without repetitions. */
  lemma StackCloses(g: Graph, stack: seq<Node>, start: nat, n: Node)
    requires Walk(g, stack) && Distinct(stack) && start < |stack| && stack[start] == n
    requires n in Next(g, stack[|stack| - 1])
    ensures var f := stack[start..] + [n];
      Cycle(g, f) && Distinct(f[..|f| - 1]) && ClosesWith(f, stack[|stack| - 1], n)
  {
    var f := stack[start..] + [n];
    assert f[..|f| - 1] == stack[start..];
    forall i, j | 0 <= i && j == i + 1 < |f|
      ensures f[j] in Next(g, f[i])
    {
      if start + j < |stack| {
        assert stack[start + j] in Next(g, stack[start + i]);
      }
    }
  }

  function IndexOf(s: seq<Node>, n: Node): (i: nat)
    requires n in s
    ensures i < |s| && s[i] == n && n !in s[..i]
  {
    if s[0] == n then 0 else 1 + IndexOf(s[1..], n)
  }

  /** The walk uses the closing include of a reported cycle. */
  ghost predicate Crosses(failures: seq<seq<Node>>, p: seq<Node>) {
    exists i, j :: 0 <= i && j == i + 1 < |p| && Closing(failures, p[i], p[j])
  }

  /** Along a walk that avoids every closing include, files come ever earlier in finishing order. */
  lemma {:induction false} WalkDescends(g: Graph, finished: seq<Node>, failures: seq<seq<Node>>, p: seq<Node>, k: nat)
    requires Settled(g, finished, failures) && Distinct(finished) && Walk(g, p) && k < |p| && p[0] in finished
    requires !Crosses(failures, p)
    ensures p[k] in finished && IndexOf(finished, p[k]) + k <= IndexOf(finished, p[0])
  {
    if k > 0 {
      WalkDescends(g, finished, failures, p, k - 1);
      var i := IndexOf(finished, p[k - 1]);
      assert p[k] in Next(g, p[k - 1]) && !Closing(failures, p[k - 1], p[k]);
      assert p[k] in finished[..i];
    }
  }

  /** Every cycle uses the closing include of some reported cycle. */
  ghost predicate CutsEveryCycle(g: Graph, failures: seq<seq<Node>>) {
    forall p :: Cycle(g, p) ==> Crosses(failures, p)
  }

  lemma SettledCutsCycles(g: Graph, finished: seq<Node>, failures: seq<seq<Node>>)
    requires Settled(g, finished, failures) && Distinct(finished)
    requires forall n :: n in g.includes ==> n in finished
    ensures CutsEveryCycle(g, failures)
  {
    forall p | Cycle(g, p) && !Crosses(failures, p)
      ensures false
    {
      assert p[1] in Next(g, p[0]);
      WalkDescends(g, finished, failures, p, |p| - 1);
    }
  }

  /** Something is reported exactly when there is a cycle. */
  lemma ReportsExactlyCycles(g: Graph, failures: seq<seq<Node>>)
    requires Genuine(g, failures) && CutsEveryCycle(g, failures)
    ensures failures != [] <==> exists p :: Cycle(g, p)
  {
    if failures != [] {
      var f := failures[0];
      assert f in failures;
      assert Cycle(g, f);
    }
    forall p | Cycle(g, p)
      ensures failures != []
    {
      CrossingIsReported(failures, p);
    }
  }

  lemma CrossingIsReported(failures: seq<seq<Node>>, p: seq<Node>)
    requires Crosses(failures, p)
    ensures failures != []
  {
    var i, j :| 0 <= i && j == i + 1 < |p| && Closing(failures, p[i], p[j]);
  }

  /** The files being visited include each other in turn. */
  ghost predicate OnStack(g: Graph, visiting: set<Node>, stack: seq<Node>) {
    (forall n :: n in visiting <==> n in stack) && Distinct(stack) && (stack == [] || Walk(g, stack))
  }

  ghost predicate Done(visited: set<Node>, finished: seq<Node>) {
    (forall n :: n in visited <==> n in finished) && Distinct(finished)
  }

  ghost predicate Marks(g: Graph, visiting: set<Node>, visited: set<Node>, stack: seq<Node>, finished: seq<Node>) {
    OnStack(g, visiting, stack) && Done(visited, finished) && visiting !! visited
  }

  ghost predicate Reports(g: Graph, finished: seq<Node>, failures: seq<seq<Node>>) {
    Genuine(g, failures) && Settled(g, finished, failures)
  }

  lemma OnStackPop(g: Graph, visiting: set<Node>, stack: seq<Node>, below: seq<Node>, n: Node)
    requires OnStack(g, visiting, stack) && stack == below + [n]
    ensures OnStack(g, visiting - {n}, below) && n in visiting && n !in below
  {
    assert stack[|below|] == n && forall i :: 0 <= i < |below| ==> stack[i] == below[i];
    forall m
      ensures m in visiting - {n} <==> m in below
    {
      assert m in visiting <==> m in stack;
    }
  }

  lemma MarksPop(
    g: Graph, visiting: set<Node>, visited: set<Node>, stack: seq<Node>, finished: seq<Node>, below: seq<Node>, n: Node)
    requires Marks(g, visiting, visited, stack, finished) && stack == below + [n]
    ensures Marks(g, visiting - {n}, visited + {n}, below, finished + [n])
  {
    OnStackPop(g, visiting, stack, below, n);
    DonePush(visited, finished, n);
  }

  lemma FewerLeft(all: set<Node>, visiting: set<Node>, visited: set<Node>, n: Node)
    requires n in all && n !in visiting && n !in visited
    ensures all - (visiting + {n}) - visited < all - visiting - visited
  {
    assert n in all - visiting - visited && n !in all - (visiting + {n}) - visited;
  }

  lemma MarksPush(g: Graph, visiting: set<Node>, visited: set<Node>, stack: seq<Node>, finished: seq<Node>, n: Node)
    requires Marks(g, visiting, visited, stack, finished) && n !in visiting && n !in visited
    requires stack == [] || n in Next(g, stack[|stack| - 1])
    ensures Marks(g, visiting + {n}, visited, stack + [n], finished)
  {
  }

  lemma DonePush(visited: set<Node>, finished: seq<Node>, n: Node)
    requires Done(visited, finished) && n !in visited
    ensures Done(visited + {n}, finished + [n])
  {
  }

  /** The visit ended with the file finished, or with a report about the file on top of the stack. */
  ghost predicate Resolved(visited: set<Node>, stack: seq<Node>, failures: seq<seq<Node>>, n: Node) {
    n in visited || (stack != [] && Closing(failures, stack[|stack| - 1], n))
  }

  lemma ResolvedStays(
    v: set<Node>, stack: seq<Node>, f: seq<seq<Node>>, children: seq<Node>, v': set<Node>, f': seq<seq<Node>>)
    requires forall c :: c in children ==> Resolved(v, stack, f, c)
    requires v <= v' && f <= f'
    ensures forall c :: c in children ==> Resolved(v', stack, f', c)
  {
    forall c | c in children
      ensures Resolved(v', stack, f', c)
    {
      if c !in v {
        ClosingGrows(f, f', stack[|stack| - 1], c);
      }
    }
  }

  /** The variables that `visit` closes over. */
  class CycleSearch {
    const g: Graph
    /** Every file that a visit can get to. */
    ghost const all: set<Node>
    var visiting: set<Node>
    var visited: set<Node>
    var stack: seq<Node>
    var failures: seq<seq<Node>>
    /** The visited files, in the order their visits ended. */
    ghost var finished: seq<Node>

    ghost predicate Valid()
      reads this
    {
      Closed(g, all) && Marks(g, visiting, visited, stack, finished) && Reports(g, finished, failures)
    }

    constructor (g: Graph)
      requires WellFormed(g)
      ensures Valid() && this.g == g && stack == [] && visited == {} && failures == []
    {
      this.g := g;
      all := Universe(g);
      visiting, visited, stack, failures, finished := {}, {}, [], [], [];
    }

    /** A file is entered when the files on the stack include each other in turn, and it last. */
    predicate Enters(n: Node)
      reads this
    {
      stack == [] || n in Next(g, stack[|stack| - 1])
    }

    ghost predicate Left(n: Node)
      reads this
    {
      Resolved(visited, stack, failures, n)
    }

    method Visit(n: Node)
      requires Valid() && Enters(n) && n in all
      modifies this
      ensures Valid() && Left(n)
      ensures stack == old(stack) && visiting == old(visiting)
      ensures old(visited) <= visited && old(failures) <= failures
      decreases all - visiting - visited, 1
    {
      if n in visiting {
        Report(n);
        return;
      }
      if n in visited {
        return;
      }
      FewerLeft(all, visiting, visited, n);
      Push(n);
      VisitChildren(n);
      Pop(n);
      assert stack == old(stack) && visiting == old(visiting);
    }

    method Push(n: Node)
      requires Valid() && Enters(n) && n !in visiting && n !in visited
      modifies this`stack, this`visiting
      ensures Valid() && stack == old(stack) + [n] && visiting == old(visiting) + {n}
    {
      MarksPush(g, visiting, visited, stack, finished, n);
      visiting := visiting + {n};
      stack := stack + [n];
    }

    method Pop(n: Node)
      requires Valid() && stack != [] && stack[|stack| - 1] == n
      requires forall c :: c in Next(g, n) ==> c in visited || Closing(failures, n, c)
      modifies this`stack, this`visiting, this`visited, this`finished
      ensures Valid() && n in visited && old(visited) <= visited
      ensures stack == old(stack)[..|old(stack)| - 1] && visiting == old(visiting) - {n}
    {
      SettledFinish(g, finished, failures, n);
      MarksPop(g, visiting, visited, stack, finished, stack[..|stack| - 1], n);
      stack := stack[..|stack| - 1];
      visiting := visiting - {n};
      visited := visited + {n};
      finished := finished + [n];
    }

    method Report(n: Node)
      requires Valid() && Enters(n) && n in visiting
      modifies this`failures
      ensures Valid() && Left(n) && old(failures) <= failures
    {
      var start := IndexOf(stack, n);
      StackCloses(g, stack, start, n);
      SettledGrows(g, finished, failures, failures + [stack[start..] + [n]]);
      failures := failures + [stack[start..] + [n]];
      assert failures[|failures| - 1] in failures;
    }

    /** The loop over the includes of the file on top of the stack. */
    method VisitChildren(n: Node)
      requires Valid() && stack != [] && stack[|stack| - 1] == n && n in all
      modifies this
      ensures Valid() && forall c :: c in Next(g, n) ==> Left(c)
      ensures stack == old(stack) && visiting == old(visiting)
      ensures old(visited) <= visited && old(failures) <= failures
      decreases all - visiting - visited, 2
    {
      var children := Next(g, n);
      for k := 0 to |children|
        invariant Valid() && stack == old(stack) && visiting == old(visiting)
        invariant old(visited) <= visited && old(failures) <= failures
        invariant forall c :: c in children[..k] ==> Resolved(visited, stack, failures, c)
      {
        ghost var v, f := visited, failures;
        Visit(children[k]);
        ResolvedStays(v, stack, f, children[..k], visited, failures);
        assert children[..k + 1] == children[..k] + [children[k]];
      }
      assert children[..|children|] == children;
    }
  }

  /** `include_cycle_failures` */
  method IncludeCycleFailures(g: Graph) returns (failures: seq<seq<Node>>)
    requires WellFormed(g)
    ensures Genuine(g, failures) && CutsEveryCycle(g, failures)
    ensures failures != [] <==> exists p :: Cycle(g, p)
  {
    var search := new CycleSearch(g);
    for k := 0 to |g.files|
      invariant fresh(search) && search.Valid() && search.g == g && search.stack == []
      invariant forall i :: 0 <= i < k ==> g.files[i] in search.visited
    {
      search.Visit(g.files[k]);
    }
    failures := search.failures;
    SettledCutsCycles(g, search.finished, failures);
    ReportsExactlyCycles(g, failures);
  }
}
