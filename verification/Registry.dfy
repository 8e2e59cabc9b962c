/** Which collectors exist and in what order they run (internal/collect/collect.go). */
module Registry {
  import opened Basics
  import opened Ids
  import opened Graphs
  import Lex

  datatype Capability = CapNone | CapRoot | CapOther(code: int) {
    /** A capability nobody recognises is never satisfied. */
    predicate SatisfiedBy(euid: int) {
      CapNone? || (CapRoot? && euid == 0)
    }
  }
  datatype Cost = Cheap | Expensive

  /** A collector's declarations. */
  datatype Collector = Collector(
    id: ID, produces: seq<ID>, dependsOn: seq<ID>, requirement: Capability, cost: Cost)

  type Collectors = map<ID, Collector>

  /** Dependencies on collectors nobody registered impose no order. */
  ghost function KnownDeps(byID: Collectors): Graph {
    map id | id in byID :: Members(byID[id].dependsOn) * byID.Keys
  }

  /** The members of s that are (or are not) registered, in order. */
  method Filter(s: seq<ID>, known: set<ID>, want: bool) returns (out: seq<ID>)
    requires NoDuplicates(s)
    ensures NoDuplicates(out) && forall d :: d in out <==> d in s && (d in known) == want
  {
    out := [];
    for n := 0 to |s|
      invariant NoDuplicates(out)
      invariant forall d :: d in out <==> d in s[..n] && (d in known) == want
    {
      assert s[..n + 1] == s[..n] + [s[n]];
      assert s[n] !in s[..n];
      if (s[n] in known) == want { out := out + [s[n]]; }
    }
    assert s[..|s|] == s;
  }

  // ---------------------------------------------------------------- the cycle search

  datatype Mark = Open | Closed

  predicate IsOpen(state: map<ID, Mark>, id: ID) { id in state && state[id] == Open }

  predicate IsClosed(state: map<ID, Mark>, id: ID) { id in state && state[id] == Closed }

  /** The path holds the open collectors, and finished the closed ones, dependencies first. */
  ghost predicate SearchOk(g: Graph, state: map<ID, Mark>, path: seq<ID>, finished: seq<ID>) {
    && state.Keys <= g.Keys
    && NoDuplicates(path) && NoDuplicates(finished)
    && (forall id :: id in path <==> IsOpen(state, id))
    && (forall id :: id in finished <==> IsClosed(state, id))
    && Steps(g, path)
    && DependenciesFirst(g, finished)
  }

  lemma {:induction false} EnterOk(g: Graph, state: map<ID, Mark>, path: seq<ID>, finished: seq<ID>, id: ID)
    requires SearchOk(g, state, path, finished) && id in g && id !in state
    requires path != [] ==> Edge(g, path[|path| - 1], id)
    ensures SearchOk(g, state[id := Open], path + [id], finished)
  {
    assert !IsOpen(state, id);
  }

  lemma {:induction false} LeaveOk(g: Graph, state: map<ID, Mark>, path: seq<ID>, finished: seq<ID>, id: ID)
    requires SearchOk(g, state, path + [id], finished) && id in g
    requires forall d | Edge(g, id, d) :: d in finished
    ensures SearchOk(g, state[id := Closed], path, finished + [id])
  {
    var before, after, state' := path + [id], finished + [id], state[id := Closed];
    assert before[|path|] == id && id in before && IsOpen(state, id) && id !in finished;
    assert id !in path by {
      assert forall k | 0 <= k < |path| :: path[k] == before[k] && before[k] != before[|path|];
    }
    forall x ensures x in path <==> IsOpen(state', x) {
      assert x in before <==> x in path || x == id;
    }
    forall i, j | 0 <= i < j < |path| ensures path[i] != path[j] { assert before[i] == path[i] && before[j] == path[j]; }
    forall i | 0 < i < |path| ensures Edge(g, path[i - 1], path[i]) {
      assert before[i - 1] == path[i - 1] && before[i] == path[i];
    }
    forall i, d | 0 <= i < |after| && Edge(g, after[i], d) ensures d in after[..i] {
      if i < |finished| { assert after[..i] == finished[..i]; } else { assert after[..i] == finished; }
    }
  }

  /** The state of findCycle's depth-first search; finished records the order of closing. */
  class CycleSearch {
    const byID: Collectors
    var state: map<ID, Mark>
    var path: seq<ID>
    var cycle: seq<ID>
    ghost var finished: seq<ID>

    ghost predicate Valid()
      reads this
    {
      SearchOk(KnownDeps(byID), state, path, finished)
    }

    constructor (byID: Collectors)
      ensures Valid() && this.byID == byID && path == [] && state == map[] && finished == []
    {
      this.byID := byID;
      state, path, cycle, finished := map[], [], [], [];
    }

    /** Search below id; true when a cycle was found. */
    method Visit(id: ID) returns (found: bool)
      requires Valid() && id in byID && id !in state
      requires path != [] ==> Edge(KnownDeps(byID), path[|path| - 1], id)
      modifies this
      ensures found ==> ClosedPath(KnownDeps(byID), cycle)
      ensures !found ==> Valid() && path == old(path) && IsClosed(state, id)
      ensures !found ==> old(state).Keys <= state.Keys && forall x | IsClosed(old(state), x) :: IsClosed(state, x)
      decreases byID.Keys - state.Keys, 0
    {
      ghost var g := KnownDeps(byID);
      EnterOk(g, state, path, finished, id);
      state := state[id := Open];
      path := path + [id];
      var deps := Dedupe(byID[id].dependsOn);
      assert id in byID.Keys - old(state).Keys && byID.Keys - state.Keys == byID.Keys - old(state).Keys - {id};
      found := VisitAll(id, deps);
      if found { return true; }
      assert forall d | Edge(g, id, d) :: d in finished by {
        forall d | Edge(g, id, d) ensures d in finished { assert d in deps && IsClosed(state, d); }
      }
      LeaveOk(g, state, old(path), finished, id);
      path := path[..|path| - 1];
      state := state[id := Closed];
      finished := finished + [id];
      return false;
    }

    /** The loop over id's dependencies, id being the end of the path. */
    method VisitAll(id: ID, deps: seq<ID>) returns (found: bool)
      requires Valid() && path != [] && path[|path| - 1] == id
      requires forall d | d in deps && d in byID :: Edge(KnownDeps(byID), id, d)
      modifies this
      ensures found ==> ClosedPath(KnownDeps(byID), cycle)
      ensures !found ==> Valid() && path == old(path) && forall d | d in deps && d in byID :: IsClosed(state, d)
      ensures !found ==> old(state).Keys <= state.Keys && forall x | IsClosed(old(state), x) :: IsClosed(state, x)
      decreases byID.Keys - state.Keys, 1
    {
      for k := 0 to |deps|
        invariant Valid() && path == old(path)
        invariant old(state).Keys <= state.Keys && forall x | IsClosed(old(state), x) :: IsClosed(state, x)
        invariant forall j | 0 <= j < k && deps[j] in byID :: IsClosed(state, deps[j])
      {
        var d := deps[k];
        if d in byID {
          assert d in deps && Edge(KnownDeps(byID), id, d);
          if d in state && state[d] == Open {
            assert IsOpen(state, d);
            CloseCycle(d);
            return true;
          } else if d !in state {
            found := Visit(d);
            if found { return true; }
          }
        }
      }
      return false;
    }

    /** d is on the path and the last of the path depends on it: the path from d closes. */
    method CloseCycle(d: ID)
      requires Valid() && d in path && Edge(KnownDeps(byID), path[|path| - 1], d)
      modifies this`cycle
      ensures ClosedPath(KnownDeps(byID), cycle)
    {
      var i := 0;
      while path[i] != d
        invariant 0 <= i < |path|
        invariant d !in path[..i]
        decreases |path| - i
      {
        assert path == path[..i + 1] + path[i + 1..];
        i := i + 1;
      }
      cycle := path[i..] + [d];
    }
  }

  /** One dependency cycle, or nothing exactly when there is none. */
  method FindCycle(byID: Collectors) returns (cycle: seq<ID>, ghost order: seq<ID>)
    ensures cycle != [] ==> ClosedPath(KnownDeps(byID), cycle)
    ensures cycle == [] ==> Topological(KnownDeps(byID), order)
    ensures cycle == [] <==> Acyclic(KnownDeps(byID))
  {
    var ids := SortedKeys(byID.Keys);
    var search := new CycleSearch(byID);
    for k := 0 to |ids|
      invariant search.Valid() && search.path == [] && search.byID == byID
      invariant forall j | 0 <= j < k :: IsClosed(search.state, ids[j])
    {
      assert ids[k] in ids;
      if ids[k] !in search.state {
        var found := search.Visit(ids[k]);
        if found { return search.cycle, []; }
      } else {
        assert !IsOpen(search.state, ids[k]);
      }
    }
    order := search.finished;
    forall id ensures id in order <==> id in byID {
      if id in byID {
        assert id in ids;
        var j :| 0 <= j < |ids| && ids[j] == id;
        assert IsClosed(search.state, ids[j]);
      }
    }
    TopologicalIsAcyclic(KnownDeps(byID), order);
    return [], order;
  }

  // ---------------------------------------------------------------- the registry

  datatype RegisterError = EmptyID | DuplicateID | SelfDependency | Cycle(path: seq<ID>)

  class Registry {
    var byID: Collectors

    ghost predicate Valid()
      reads this
    {
      && (forall id | id in byID :: id != ID("") && byID[id].id == id && id !in byID[id].dependsOn)
      && exists o :: Topological(KnownDeps(byID), o)
    }

    constructor ()
      ensures Valid() && byID == map[]
    {
      byID := map[];
      new;
      assert Topological(KnownDeps(byID), []);
    }

    /** Add c, or refuse a graph that cannot be run and leave the registry as it was. */
    method Register(c: Collector) returns (r: Result<(), RegisterError>)
      requires Valid()
      modifies this
      ensures Valid()
      ensures byID == if r.Ok? then old(byID)[c.id := c] else old(byID)
      ensures r.Err? <==> c.id == ID("") || c.id in old(byID) || c.id in c.dependsOn || !Acyclic(KnownDeps(old(byID)[c.id := c]))
      ensures r.Err? && r.error.Cycle? ==> ClosedPath(KnownDeps(old(byID)[c.id := c]), r.error.path)
    {
      if c.id == ID("") { return Err(EmptyID); }
      if c.id in byID { return Err(DuplicateID); }
      for n := 0 to |c.dependsOn|
        invariant c.id !in c.dependsOn[..n]
      {
        assert c.dependsOn[..n + 1] == c.dependsOn[..n] + [c.dependsOn[n]];
        if c.dependsOn[n] == c.id { return Err(SelfDependency); }
      }
      assert c.dependsOn[..|c.dependsOn|] == c.dependsOn;
      byID := byID[c.id := c];
      ghost var order: seq<ID>;
      var cycle;
      cycle, order := FindCycle(byID);
      if cycle != [] {
        byID := byID - {c.id};
        assert byID == old(byID);
        return Err(Cycle(cycle));
      }
      return Ok(());
    }

    /** id's registered dependencies, deduplicated. */
    method KnownDependencies(id: ID) returns (out: seq<ID>)
      requires id in byID
      ensures NoDuplicates(out) && Members(out) == KnownDeps(byID)[id]
    {
      var deps := Dedupe(byID[id].dependsOn);
      out := Filter(deps, byID.Keys, true);
    }

    /** id's dependencies that nobody registered. */
    method Missing(id: ID) returns (out: seq<ID>)
      requires id in byID
      ensures Members(out) == Members(byID[id].dependsOn) - byID.Keys
      ensures out == [] <==> Members(byID[id].dependsOn) <= byID.Keys
    {
      var deps := Dedupe(byID[id].dependsOn);
      out := Filter(deps, byID.Keys, false);
      Lex.NonemptyHasMember(out);
      assert out == [] || out[0] in Members(out);
    }

    /** Collectors naming a dependency nobody registered, with the missing names. */
    method MissingDependencies() returns (out: map<ID, seq<ID>>)
      ensures forall id :: id in out <==> id in byID && !(Members(byID[id].dependsOn) <= byID.Keys)
      ensures forall id | id in out :: Members(out[id]) == Members(byID[id].dependsOn) - byID.Keys
    {
      out := map[];
      var ids := SortedKeys(byID.Keys);
      for k := 0 to |ids|
        invariant out.Keys <= byID.Keys
        invariant forall id | id in byID :: id in out <==> (id in ids[..k] && !(Members(byID[id].dependsOn) <= byID.Keys))
        invariant forall id | id in out :: Members(out[id]) == Members(byID[id].dependsOn) - byID.Keys
      {
        assert ids[k] in ids;
        assert ids[..k + 1] == ids[..k] + [ids[k]];
        var missing := Missing(ids[k]);
        if |missing| > 0 { out := out[ids[k] := missing]; }
      }
      assert ids[..|ids|] == ids;
    }

    /** The in-degrees and reverse edges of the whole registry. */
    method CountIncoming() returns (indegree: map<ID, nat>, dependents: map<ID, seq<ID>>)
      ensures CountsOk(KnownDeps(byID), {}, indegree)
      ensures DependentsOk(KnownDeps(byID), {}, dependents)
    {
      ghost var g := KnownDeps(byID);
      var ids := SortedKeys(byID.Keys);
      indegree := map id | id in byID :: 0;
      dependents := map[];
      ghost var todo := byID.Keys;
      for k := 0 to |ids|
        invariant todo == byID.Keys - Members(ids[..k])
        invariant HalfCounted(g, todo, indegree)
        invariant DependentsOk(g, todo, dependents)
      {
        var id := ids[k];
        assert id in ids;
        MembersStep(ids, k);
        var deps := KnownDependencies(id);
        CountMembers(deps);
        CountedOk(g, todo, indegree, id, |deps|);
        indegree, dependents := CountOne(g, todo, id, deps, indegree, dependents);
        todo := todo - {id};
      }
      assert ids[..|ids|] == ids;
      assert todo == {};
      EverythingCounted(g, indegree);
    }

    /** The plan: Kahn's algorithm, always taking the least ready collector. */
    method Order() returns (out: seq<ID>)
      requires Valid()
      ensures IsPlan(KnownDeps(byID), out)
    {
      ghost var g := KnownDeps(byID);
      ghost var topo :| Topological(g, topo);
      var indegree, dependents := CountIncoming();
      var ready := InitiallyReady(indegree);
      out := [];
      while ready != []
        invariant LeastReadyFirst(g, out) && ClosedUnderDependencies(g, Members(out))
        invariant CountsOk(g, Members(out), indegree) && DependentsOk(g, {}, dependents)
        invariant ReadyIs(indegree, Members(out), ready)
        decreases g.Keys - Members(out)
      {
        SortLists(ready);
        ready := Sort(ready);
        var id := ready[0];
        ReadyIsAvailable(g, Members(out), indegree, ready);
        TakeLeast(g, out, ready);
        DependentsWait(g, Members(out), id, indegree, Lookup(dependents, id));
        ghost var before, planned := indegree, Members(out);
        out := out + [id];
        indegree, ready := Release(planned + {id}, Lookup(dependents, id), indegree, ready[1..]);
        CountsAfter(g, planned, id, Lookup(dependents, id), before, indegree);
      }
      AllPlanned(g, topo, out, indegree);
    }
  }

  // ---------------------------------------------------------------- the counts of the topological sort

  function Lookup(m: map<ID, seq<ID>>, id: ID): seq<ID> { if id in m then m[id] else [] }

  /** The in-degree of a collector is how many of its dependencies are unplanned. */
  ghost predicate CountsOk(g: Graph, planned: set<ID>, indegree: map<ID, nat>) {
    indegree.Keys == g.Keys && forall x | x in g :: indegree[x] == |g[x] - planned|
  }

  /** The reverse edges of every collector outside todo, each once. */
  ghost predicate DependentsOk(g: Graph, todo: set<ID>, dependents: map<ID, seq<ID>>) {
    forall d :: DependentsOf(g, todo, d, Lookup(dependents, d))
  }

  ghost predicate DependentsOf(g: Graph, todo: set<ID>, d: ID, list: seq<ID>) {
    NoDuplicates(list) && forall x :: x in list <==> Edge(g, x, d) && x !in todo
  }

  ghost predicate HalfCounted(g: Graph, todo: set<ID>, indegree: map<ID, nat>) {
    indegree.Keys == g.Keys && forall x | x in g :: indegree[x] == if x in todo then 0 else |g[x]|
  }

  /** The unplanned collectors whose in-degree is zero. */
  ghost predicate ReadyIs(indegree: map<ID, nat>, planned: set<ID>, ready: seq<ID>) {
    NoDuplicates(ready) && forall x :: x in ready <==> x in indegree && x !in planned && indegree[x] == 0
  }

  lemma {:induction false} CountedOk(g: Graph, todo: set<ID>, indegree: map<ID, nat>, id: ID, n: nat)
    requires HalfCounted(g, todo, indegree) && id in todo && id in g && n == |g[id]|
    ensures HalfCounted(g, todo - {id}, indegree[id := n])
  {
  }

  lemma {:induction false} EverythingCounted(g: Graph, indegree: map<ID, nat>)
    requires HalfCounted(g, {}, indegree)
    ensures CountsOk(g, {}, indegree)
  {
    forall x | x in g ensures indegree[x] == |g[x] - {}| {
      assert g[x] - {} == g[x];
    }
  }

  /** Count the dependencies of one collector. */
  method CountOne(ghost g: Graph, ghost todo: set<ID>, id: ID, deps: seq<ID>, indegree0: map<ID, nat>, dependents0: map<ID, seq<ID>>)
      returns (indegree: map<ID, nat>, dependents: map<ID, seq<ID>>)
    requires id in todo && id in g && NoDuplicates(deps) && Members(deps) == g[id]
    requires HalfCounted(g, todo, indegree0) && DependentsOk(g, todo, dependents0)
    ensures indegree == indegree0[id := |deps|]
    ensures DependentsOk(g, todo - {id}, dependents)
  {
    indegree, dependents := indegree0, dependents0;
    for k := 0 to |deps|
      invariant indegree == indegree0[id := k]
      invariant forall d :: Lookup(dependents, d) == (if d in Members(deps[..k]) then Lookup(dependents0, d) + [id] else Lookup(dependents0, d))
    {
      MembersStep(deps, k);
      indegree := indegree[id := indegree[id] + 1];
      dependents := dependents[deps[k] := Lookup(dependents, deps[k]) + [id]];
    }
    assert deps[..|deps|] == deps;
    forall d ensures DependentsOf(g, todo - {id}, d, Lookup(dependents, d)) {
      OneMoreDependent(g, todo, id, d, Lookup(dependents0, d));
    }
  }

  lemma {:induction false} OneMoreDependent(g: Graph, todo: set<ID>, id: ID, d: ID, list: seq<ID>)
    requires DependentsOf(g, todo, d, list) && id in todo
    ensures DependentsOf(g, todo - {id}, d, if Edge(g, id, d) then list + [id] else list)
  {
    assert id !in list;
  }

  /** Every collector whose in-degree is zero. */
  method InitiallyReady(indegree: map<ID, nat>) returns (ready: seq<ID>)
    ensures ReadyIs(indegree, {}, ready)
  {
    ready := [];
    var ids := SortedKeys(indegree.Keys);
    for k := 0 to |ids|
      invariant NoDuplicates(ready)
      invariant forall x :: x in ready <==> x in ids[..k] && x in indegree && indegree[x] == 0
    {
      assert ids[..k + 1] == ids[..k] + [ids[k]];
      assert ids[k] in ids && ids[k] !in ids[..k];
      if indegree[ids[k]] == 0 { ready := ready + [ids[k]]; }
    }
    assert ids[..|ids|] == ids;
  }

  lemma {:induction false} ReadyIsAvailable(g: Graph, planned: set<ID>, indegree: map<ID, nat>, ready: seq<ID>)
    requires CountsOk(g, planned, indegree) && ReadyIs(indegree, planned, ready)
    ensures forall x :: x in ready <==> Available(g, planned, x)
  {
    forall x ensures x in ready <==> Available(g, planned, x) {
      if x in g {
        NothingLeft(g[x], planned);
      }
    }
  }

  lemma {:induction false} NothingLeft(deps: set<ID>, planned: set<ID>)
    ensures |deps - planned| == 0 <==> deps <= planned
  {
    assert |deps - planned| == 0 <==> deps - planned == {};
    if deps - planned == {} {
      forall d | d in deps ensures d in planned { assert d !in deps - planned; }
    }
  }

  /** The head of the sorted ready list is the least available collector. */
  lemma {:induction false} TakeLeast(g: Graph, out: seq<ID>, ready: seq<ID>)
    requires ready != [] && Lists(ready, Members(ready))
    requires forall x :: x in ready <==> Available(g, Members(out), x)
    requires LeastReadyFirst(g, out) && ClosedUnderDependencies(g, Members(out))
    ensures Available(g, Members(out), ready[0]) && LeastReadyFirst(g, out + [ready[0]])
    ensures Members(out + [ready[0]]) == Members(out) + {ready[0]}
    ensures ClosedUnderDependencies(g, Members(out + [ready[0]]))
    ensures NoDuplicates(ready[1..]) && forall x :: x in ready[1..] <==> x in ready && x != ready[0]
  {
    var id, o := ready[0], out + [ready[0]];
    assert id in ready;
    MembersSnoc(out, id);
    TailLists(ready, Members(ready));
    forall y | Available(g, Members(out), y) ensures Leq(id, y) {
      assert y in ready;
      Lex.LeqTotal(id.name, id.name);
    }
    assert LeastAvailable(g, Members(out), id);
    forall i | 0 <= i < |o| ensures LeastAvailable(g, Members(o[..i]), o[i]) {
      if i < |out| { assert o[..i] == out[..i]; } else { assert o[..i] == out; }
    }
  }

  /** Whatever depends on an available collector is itself unplanned and still counts it. */
  lemma {:induction false} DependentsWait(g: Graph, planned: set<ID>, id: ID, indegree: map<ID, nat>, dependents: seq<ID>)
    requires CountsOk(g, planned, indegree) && DependentsOf(g, {}, id, dependents)
    requires Available(g, planned, id) && ClosedUnderDependencies(g, planned)
    ensures forall d | d in dependents :: d in indegree && indegree[d] > 0 && d !in planned && d != id
  {
    forall d | d in dependents ensures d in indegree && indegree[d] > 0 && d !in planned && d != id {
      assert Edge(g, d, id);
      assert id in g[d] - planned;
    }
  }

  lemma {:induction false} CountsAfter(g: Graph, planned: set<ID>, id: ID, dependents: seq<ID>, indegree0: map<ID, nat>, indegree: map<ID, nat>)
    requires CountsOk(g, planned, indegree0) && DependentsOf(g, {}, id, dependents) && id !in planned
    requires Lowered(indegree0, Members(dependents), indegree)
    ensures CountsOk(g, planned + {id}, indegree)
  {
    forall x | x in g ensures indegree[x] == |g[x] - (planned + {id})| {
      assert x in dependents <==> Edge(g, x, id);
      assert g[x] - (planned + {id}) == (g[x] - planned) - {id};
    }
  }

  ghost predicate Lowered(indegree0: map<ID, nat>, told: set<ID>, indegree: map<ID, nat>) {
    && indegree.Keys == indegree0.Keys
    && forall x | x in indegree :: indegree[x] + (if x in told then 1 else 0) == indegree0[x]
  }

  lemma {:induction false} LowerOne(indegree0: map<ID, nat>, planned: set<ID>, told: set<ID>, indegree: map<ID, nat>, ready: seq<ID>, d: ID)
    requires Lowered(indegree0, told, indegree) && ReadyIs(indegree, planned, ready)
    requires d in indegree0 && d !in told && indegree0[d] > 0 && d !in planned
    ensures indegree[d] > 0
    ensures var n := indegree[d] - 1;
            && Lowered(indegree0, told + {d}, indegree[d := n])
            && ReadyIs(indegree[d := n], planned, if n == 0 then ready + [d] else ready)
  {
    assert d !in ready;
  }

  /** Lower the in-degree of every dependent; those that reach zero become ready. */
  method Release(ghost planned: set<ID>, dependents: seq<ID>, indegree0: map<ID, nat>, ready0: seq<ID>)
      returns (indegree: map<ID, nat>, ready: seq<ID>)
    requires NoDuplicates(dependents) && forall d | d in dependents :: d in indegree0 && indegree0[d] > 0 && d !in planned
    requires ReadyIs(indegree0, planned, ready0)
    ensures Lowered(indegree0, Members(dependents), indegree)
    ensures ReadyIs(indegree, planned, ready)
  {
    SortLists(dependents);
    var next := Sort(dependents);
    indegree, ready := indegree0, ready0;
    for k := 0 to |next|
      invariant Lowered(indegree0, Members(next[..k]), indegree)
      invariant ReadyIs(indegree, planned, ready)
    {
      var d := next[k];
      MembersStep(next, k);
      assert d in next;
      LowerOne(indegree0, planned, Members(next[..k]), indegree, ready, d);
      indegree := indegree[d := indegree[d] - 1];
      if indegree[d] == 0 { ready := ready + [d]; }
    }
    assert next[..|next|] == next;
    assert Members(next) == Members(dependents);
  }

  /** When nothing is ready any more, everything has been planned. */
  lemma {:induction false} AllPlanned(g: Graph, topo: seq<ID>, out: seq<ID>, indegree: map<ID, nat>)
    requires Topological(g, topo) && LeastReadyFirst(g, out)
    requires CountsOk(g, Members(out), indegree) && ReadyIs(indegree, Members(out), [])
    ensures IsPlan(g, out)
  {
    ReadyIsAvailable(g, Members(out), indegree, []);
    forall id ensures id in out <==> id in g {
      if id in g && id !in out {
        var next := SomethingAvailable(g, topo, Members(out), id);
        assert false;
      }
      if id in out {
        var i :| 0 <= i < |out| && out[i] == id;
        assert LeastAvailable(g, Members(out[..i]), out[i]);
      }
    }
  }
}
