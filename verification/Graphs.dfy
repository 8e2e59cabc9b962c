/** Dependency graphs and the orders they allow. */
module Graphs {
  import opened Basics
  import opened Ids

  /** Each collector with those of its dependencies that are registered. */
  type Graph = map<ID, set<ID>>

  ghost predicate Edge(g: Graph, a: ID, b: ID) {
    a in g && b in g[a]
  }

  ghost predicate WellFormed(g: Graph) {
    forall a, b | Edge(g, a, b) :: b in g
  }

  ghost predicate Steps(g: Graph, c: seq<ID>) {
    forall i | 0 < i < |c| :: Edge(g, c[i - 1], c[i])
  }

  /** c goes from a collector back to itself along dependencies. */
  ghost predicate ClosedPath(g: Graph, c: seq<ID>) {
    |c| >= 2 && c[0] == c[|c| - 1] && Steps(g, c)
  }

  ghost predicate Acyclic(g: Graph) {
    forall c :: !ClosedPath(g, c)
  }

  /** Every member comes after all it depends on. */
  ghost predicate DependenciesFirst(g: Graph, o: seq<ID>) {
    forall i, d | 0 <= i < |o| && Edge(g, o[i], d) :: d in o[..i]
  }

  /** o lists every collector once, dependencies first. */
  ghost predicate Topological(g: Graph, o: seq<ID>) {
    && NoDuplicates(o)
    && (forall id :: id in o <==> id in g)
    && DependenciesFirst(g, o)
  }

  ghost function IndexIn(o: seq<ID>, x: ID): (i: nat)
    requires x in o
    ensures i < |o| && o[i] == x
  {
    var i :| 0 <= i < |o| && o[i] == x; i
  }

  /** Following a dependency moves strictly towards the front. */
  lemma {:induction false} EdgeGoesDown(g: Graph, o: seq<ID>, a: ID, b: ID)
    requires Topological(g, o) && Edge(g, a, b)
    ensures a in o && b in o && IndexIn(o, b) < IndexIn(o, a)
  {
    var i := IndexIn(o, a);
    assert b in o[..i];
    var j :| 0 <= j < i && o[j] == b;
    assert IndexIn(o, b) == j;
  }

  lemma {:induction false} PathGoesDown(g: Graph, o: seq<ID>, c: seq<ID>, n: nat)
    requires Topological(g, o) && 1 <= n < |c| && Steps(g, c)
    ensures c[0] in o && c[n] in o && IndexIn(o, c[n]) < IndexIn(o, c[0])
  {
    EdgeGoesDown(g, o, c[n - 1], c[n]);
    if n > 1 { PathGoesDown(g, o, c, n - 1); }
  }

  /** A topological order leaves no room for a cycle. */
  lemma {:induction false} TopologicalIsAcyclic(g: Graph, o: seq<ID>)
    requires Topological(g, o)
    ensures Acyclic(g)
  {
    forall c ensures !ClosedPath(g, c) {
      if ClosedPath(g, c) { PathGoesDown(g, o, c, |c| - 1); }
    }
  }

  // ---------------------------------------------------------------- plans

  /** A collector that may come next: not planned, nothing it depends on unplanned. */
  ghost predicate Available(g: Graph, planned: set<ID>, id: ID) {
    id in g && id !in planned && g[id] <= planned
  }

  ghost predicate LeastAvailable(g: Graph, planned: set<ID>, id: ID) {
    Available(g, planned, id) && forall y | Available(g, planned, y) :: Leq(id, y)
  }

  /** Each member is the least collector available after those before it. */
  ghost predicate LeastReadyFirst(g: Graph, o: seq<ID>) {
    forall i | 0 <= i < |o| :: LeastAvailable(g, Members(o[..i]), o[i])
  }

  /** The plan: every collector, always the least available one. */
  ghost predicate IsPlan(g: Graph, o: seq<ID>) {
    && (forall id :: id in o <==> id in g)
    && LeastReadyFirst(g, o)
  }

  /** A plan is a permutation of the registry that puts dependencies first. */
  lemma {:induction false} PlanIsTopological(g: Graph, o: seq<ID>)
    requires IsPlan(g, o)
    ensures Topological(g, o)
  {
    forall i, j | 0 <= i < j < |o| ensures o[i] != o[j] {
      assert o[i] in Members(o[..j]);
      assert LeastAvailable(g, Members(o[..j]), o[j]);
    }
    forall i, d | 0 <= i < |o| && Edge(g, o[i], d) ensures d in o[..i] {
      assert LeastAvailable(g, Members(o[..i]), o[i]);
      assert d in Members(o[..i]);
    }
  }

  lemma {:induction false} SamePrefix(g: Graph, a: seq<ID>, b: seq<ID>, n: nat)
    requires LeastReadyFirst(g, a) && LeastReadyFirst(g, b) && n <= |a| == |b|
    ensures a[..n] == b[..n]
  {
    if n > 0 {
      SamePrefix(g, a, b, n - 1);
      var planned := Members(a[..n - 1]);
      assert LeastAvailable(g, planned, a[n - 1]) && LeastAvailable(g, planned, b[n - 1]);
      LeqAntisymmetric(a[n - 1], b[n - 1]);
      assert a[..n] == a[..n - 1] + [a[n - 1]] && b[..n] == b[..n - 1] + [b[n - 1]];
    }
  }

  /** There is only one plan: the order never depends on how a map was enumerated. */
  lemma {:induction false} PlanIsUnique(g: Graph, a: seq<ID>, b: seq<ID>)
    requires IsPlan(g, a) && IsPlan(g, b)
    ensures a == b
  {
    PlanIsTopological(g, a);
    PlanIsTopological(g, b);
    CountMembers(a);
    CountMembers(b);
    assert Members(a) == Members(b);
    SamePrefix(g, a, b, |a|);
    assert a[..|a|] == a && b[..|a|] == b;
  }

  /** While something is unplanned in an acyclic graph, something is available. */
  lemma {:induction false} SomethingAvailable(g: Graph, o: seq<ID>, planned: set<ID>, id: ID) returns (next: ID)
    requires Topological(g, o) && id in g && id !in planned
    ensures Available(g, planned, next)
    decreases IndexIn(o, id)
  {
    if exists d :: Edge(g, id, d) && d !in planned {
      var d :| Edge(g, id, d) && d !in planned;
      EdgeGoesDown(g, o, id, d);
      next := SomethingAvailable(g, o, planned, d);
    } else {
      assert forall d | d in g[id] :: Edge(g, id, d) ==> d in planned;
      next := id;
    }
  }

  /** What is planned never waits on something unplanned. */
  ghost predicate ClosedUnderDependencies(g: Graph, planned: set<ID>) {
    forall x | x in planned :: x in g && g[x] <= planned
  }
}
