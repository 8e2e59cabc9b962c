/** The runner never deadlocks, and every run is bounded. */
module RunnerProgress {
  import opened Basics
  import opened Ids
  import opened FactSet
  import opened Graphs
  import opened Registry
  import opened Runner
  import opened RunnerSafety

  predicate InsideCollect(s: State, c: ID) {
    c in s.tasks && s.tasks[c].phase.Running? && s.tasks[c].inner.Working?
  }

  /** c can move on its own, or is busy observing the host. */
  predicate Moving(setup: Setup, s: State, c: ID) {
    c in setup.byID && c in s.tasks && (InsideCollect(s, c) || CanProceed(setup, s, c))
  }

  /** An unfinished collector leads to one that is moving: along dependencies, or to the slot's holder. */
  lemma {:induction false} SomebodyMoves(setup: Setup, s: State, plan: seq<ID>, c: ID) returns (d: ID)
    requires Safe(setup, s) && Topological(KnownDeps(setup.byID), plan)
    requires c in setup.byID && !Finished(s, c)
    ensures Moving(setup, s, d)
    decreases IndexIn(plan, c)
  {
    var t := s.tasks[c];
    assert TaskOk(setup, s, c);
    if t.phase.Waiting? && !CanProceed(setup, s, c) {
      var dep := setup.Deps(c)[t.phase.next];
      EdgeGoesDown(KnownDeps(setup.byID), plan, c, dep);
      d := SomebodyMoves(setup, s, plan, dep);
    } else if t.phase.Queued? && s.slot.Some? {
      d := s.slot.value;
      assert TaskOk(setup, s, d);
    } else {
      d := c;
    }
  }

  /** In every reachable state with an unfinished collector, some collector is moving. */
  lemma {:induction false} NoCircularWait(setup: Setup, base: Ledger, steps: seq<Step>, s: State)
    requires Reaches(setup, base, steps, s)
    requires exists plan :: Topological(KnownDeps(setup.byID), plan)
    ensures Complete(s) || exists c :: Moving(setup, s, c)
  {
    ReachableIsSafe(setup, base, steps, s);
    if !Complete(s) {
      var c :| c in s.tasks && !s.tasks[c].phase.Closed?;
      var plan :| Topological(KnownDeps(setup.byID), plan);
      var d := SomebodyMoves(setup, s, plan, c);
    }
  }

  lemma {:induction false} MovingIsEnabled(setup: Setup, s: State, c: ID)
    ensures Moving(setup, s, c) ==> exists step :: Enabled(setup, s, step)
  {
    if Moving(setup, s, c) {
      assert Enabled(setup, s, Proceed(c)) || Enabled(setup, s, Return(c, Panicked("")));
    }
  }

  /** Where no step at all can happen any more, every collector has finished. */
  lemma {:induction false} StuckMeansComplete(setup: Setup, base: Ledger, steps: seq<Step>, s: State)
    requires Reaches(setup, base, steps, s)
    requires exists plan :: Topological(KnownDeps(setup.byID), plan)
    requires forall step :: !Enabled(setup, s, step)
    ensures Complete(s)
  {
    NoCircularWait(setup, base, steps, s);
    forall c ensures Moving(setup, s, c) ==> exists step :: Enabled(setup, s, step) { MovingIsEnabled(setup, s, c); }
  }

  // ---------------------------------------------------------------- every run is bounded

  function PhaseWork(setup: Setup, c: ID, p: Phase): nat
    requires c in setup.byID
  {
    match p
    case Starting => |setup.Deps(c)| + 9
    case Waiting(i) => 8 + if i < |setup.Deps(c)| then |setup.Deps(c)| - i else 0
    case Queued => 7
    case Cleared => 6
    case Running => 5
    case Reporting(_) => 4
    case Leaving(_) => 3
    case Released(_) => 2
    case Observed(_) => 1
    case Closed(_) => 0
  }

  function InnerWork(i: Inner): nat {
    match i
    case NotStarted => 2
    case Working => 1
    case Delivered(_) => 0
  }

  function TaskWork(setup: Setup, c: ID, t: Task): nat
    requires c in setup.byID
  {
    PhaseWork(setup, c, t.phase) + InnerWork(t.inner) + if t.expired then 0 else 1
  }

  function WorkOf(setup: Setup, o: seq<ID>, tasks: map<ID, Task>): nat
    requires forall c | c in o :: c in setup.byID && c in tasks
  {
    if o == [] then 0 else TaskWork(setup, o[0], tasks[o[0]]) + WorkOf(setup, o[1..], tasks)
  }

  function WorkLeft(setup: Setup, o: seq<ID>, s: State): nat
    requires forall c | c in o :: c in setup.byID && c in s.tasks
  {
    WorkOf(setup, o, s.tasks) + if s.cancelled then 0 else 1
  }

  lemma {:induction false} LessWork(setup: Setup, o: seq<ID>, tasks: map<ID, Task>, c: ID, t: Task)
    requires forall x | x in o :: x in setup.byID && x in tasks
    requires c in setup.byID && c in tasks && TaskWork(setup, c, t) < TaskWork(setup, c, tasks[c])
    ensures WorkOf(setup, o, tasks[c := t]) <= WorkOf(setup, o, tasks)
    ensures c in o ==> WorkOf(setup, o, tasks[c := t]) < WorkOf(setup, o, tasks)
  {
    if o != [] {
      LessWork(setup, o[1..], tasks, c, t);
    }
  }

  /** Every step uses some of it up. */
  lemma {:induction false} StepUsesWork(setup: Setup, o: seq<ID>, s: State, step: Step)
    requires forall c :: c in o <==> c in setup.byID
    requires s.tasks.Keys == setup.byID.Keys && Enabled(setup, s, step)
    requires forall c | c in s.tasks :: ControlOk(setup, s.slot, c, s.tasks[c])
    ensures Do(setup, s, step).tasks.Keys == setup.byID.Keys
    ensures WorkLeft(setup, o, Do(setup, s, step)) < WorkLeft(setup, o, s)
  {
    if !step.Cancel? {
      var t' := Do(setup, s, step).tasks[step.c];
      OneStepLess(setup, s, step);
      assert Do(setup, s, step).tasks == s.tasks[step.c := t'];
      LessWork(setup, o, s.tasks, step.c, t');
    }
  }

  lemma {:induction false} OneStepLess(setup: Setup, s: State, step: Step)
    requires !step.Cancel? && Enabled(setup, s, step) && ControlOk(setup, s.slot, step.c, s.tasks[step.c])
    ensures TaskWork(setup, step.c, Do(setup, s, step).tasks[step.c]) < TaskWork(setup, step.c, s.tasks[step.c])
  {
  }

  /** No run is longer than the work there was at the start: a few steps for each collector and dependency. */
  lemma {:induction false} EveryRunIsBounded(setup: Setup, base: Ledger, o: seq<ID>, steps: seq<Step>, s: State)
    requires forall c :: c in o <==> c in setup.byID
    requires Reaches(setup, base, steps, s)
    ensures s.tasks.Keys == setup.byID.Keys
    ensures |steps| + WorkLeft(setup, o, s) <= WorkLeft(setup, o, Begin(setup, base))
  {
    if steps != [] {
      var n := |steps| - 1;
      var before :|
        && Reaches(setup, base, steps[..n], before)
        && Enabled(setup, before, steps[n])
        && s == Do(setup, before, steps[n]);
      EveryRunIsBounded(setup, base, o, steps[..n], before);
      ReachableIsSafe(setup, base, steps[..n], before);
      assert forall c | c in before.tasks :: TaskOk(setup, before, c) ==> ControlOk(setup, before.slot, c, before.tasks[c]);
      StepUsesWork(setup, o, before, steps[n]);
    }
  }

  /** So a run of n collectors with d declared dependencies takes at most 12 n + d + 1 steps. */
  lemma {:induction false} RunLength(setup: Setup, base: Ledger, o: seq<ID>, steps: seq<Step>, s: State)
    requires forall c :: c in o <==> c in setup.byID
    requires Reaches(setup, base, steps, s)
    ensures |steps| <= 12 * |o| + DependencyCount(setup, o) + 1
  {
    EveryRunIsBounded(setup, base, o, steps, s);
    WorkAtTheStart(setup, base, o);
  }

  lemma {:induction false} WorkAtTheStart(setup: Setup, base: Ledger, o: seq<ID>)
    requires forall c | c in o :: c in setup.byID
    ensures WorkLeft(setup, o, Begin(setup, base)) == 1 + 12 * |o| + DependencyCount(setup, o)
  {
    if o != [] { WorkAtTheStart(setup, base, o[1..]); }
  }

  function DependencyCount(setup: Setup, o: seq<ID>): nat
    requires forall c | c in o :: c in setup.byID
  {
    if o == [] then 0 else |setup.Deps(o[0])| + DependencyCount(setup, o[1..])
  }
}
