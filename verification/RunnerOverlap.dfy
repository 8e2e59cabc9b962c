/** Exactly which runs of the runner can have two Expensive Collects at work at once (internal/collect/runner.go). */
module RunnerOverlap {
  import opened Basics
  import opened Ids
  import opened FactSet
  import opened Graphs
  import opened Registry
  import opened Runner
  import opened RunnerSafety

  // ---------------------------------------------------------------- what decides it

  /** c will not be skipped. */
  predicate Startable(setup: Setup, c: ID) {
    c in setup.byID && !setup.LacksDependency(c) && setup.byID[c].requirement.SatisfiedBy(setup.euid)
  }

  /** p leads along dependencies through collectors that wait for theirs. */
  ghost predicate WaitingPath(setup: Setup, p: seq<ID>) {
    |p| >= 2 && forall i | 0 <= i < |p| - 1 :: Startable(setup, p[i]) && p[i + 1] in setup.Deps(p[i])
  }

  /** a cannot start before b is done. */
  ghost predicate WaitsFor(setup: Setup, a: ID, b: ID) {
    exists p :: WaitingPath(setup, p) && p[0] == a && p[|p| - 1] == b
  }

  /** Two Expensive collectors that both start, the first with a budget it can outrun and without waiting for the second. */
  ghost predicate Overtakes(setup: Setup, a: ID, b: ID) {
    && a != b && Startable(setup, a) && Startable(setup, b) && setup.IsExpensive(a) && setup.IsExpensive(b)
    && a in setup.bounded && !WaitsFor(setup, a, b)
  }

  ghost predicate BothAtWork(setup: Setup, s: State, a: ID, b: ID) {
    && a != b && a in s.tasks && b in s.tasks && a in setup.byID && b in setup.byID
    && setup.IsExpensive(a) && setup.IsExpensive(b) && s.tasks[a].inner.Working? && s.tasks[b].inner.Working?
  }

  // ---------------------------------------------------------------- what every run keeps

  ghost predicate TaskTraced(setup: Setup, s: State, c: ID)
    requires c in s.tasks
  {
    var t := s.tasks[c];
    && (t.expired ==> c in setup.bounded)
    && (t.inner.Working? && !t.phase.Running? ==> s.cancelled || c in setup.bounded)
    && (t.phase.Waiting? || t.phase.Queued? || InRunOne(t.phase) || !t.inner.NotStarted? ==> Startable(setup, c))
    && (!s.cancelled && Startable(setup, c) && !BeforeRunOne(t.phase) ==> !t.inner.NotStarted?)
  }

  /** Whoever starts does so after every waiting collector that is done has started too. */
  ghost predicate LogTraced(setup: Setup, log: seq<Event>) {
    forall i, d | 0 <= i < |log| && log[i].Started? && Startable(setup, d) && IsDone(log[..i], d) :: HasStarted(log[..i], d)
  }

  /** a started first, and has a budget. */
  ghost predicate Overtook(setup: Setup, log: seq<Event>, a: ID, b: ID) {
    a in setup.bounded && exists i, j :: 0 <= i < j < |log| && log[i] == Started(a) && log[j] == Started(b)
  }

  ghost predicate PairTraced(setup: Setup, s: State, a: ID, b: ID) {
    BothAtWork(setup, s, a, b) ==> Overtook(setup, s.log, a, b) || Overtook(setup, s.log, b, a)
  }

  ghost predicate Traced(setup: Setup, s: State) {
    && (forall c | c in s.tasks :: TaskTraced(setup, s, c))
    && LogTraced(setup, s.log)
    && forall a, b :: PairTraced(setup, s, a, b)
  }

  lemma {:induction false} ProceedTraces(setup: Setup, s: State, c: ID)
    requires Safe(setup, s) && c in setup.byID && c in s.tasks && CanProceed(setup, s, c) && TaskTraced(setup, s, c)
    ensures TaskTraced(setup, Perform(setup, s, c, ProceedMove(setup, s, c)), c)
  {
    assert TaskOk(setup, s, c);
  }

  lemma {:induction false} GiveUpTraces(setup: Setup, s: State, c: ID)
    requires Safe(setup, s) && c in setup.byID && c in s.tasks && CanGiveUp(setup, s, c) && TaskTraced(setup, s, c)
    ensures TaskTraced(setup, Perform(setup, s, c, GiveUpMove(setup, s, c)), c)
  {
    assert TaskOk(setup, s, c);
  }

  lemma {:induction false} StepTracesTasks(setup: Setup, s: State, step: Step)
    requires Safe(setup, s) && Enabled(setup, s, step) && forall c | c in s.tasks :: TaskTraced(setup, s, c)
    ensures forall c | c in Do(setup, s, step).tasks :: TaskTraced(setup, Do(setup, s, step), c)
  {
    var s' := Do(setup, s, step);
    forall c | c in s'.tasks ensures TaskTraced(setup, s', c) {
      assert TaskTraced(setup, s, c);
      if step.Proceed? && step.c == c { ProceedTraces(setup, s, c); }
      if step.GiveUp? && step.c == c { GiveUpTraces(setup, s, c); }
    }
  }

  /** The event of a step, if it has one, and when that is a start. */
  lemma {:induction false} StepLogs(setup: Setup, s: State, step: Step)
    requires Enabled(setup, s, step)
    ensures var s' := Do(setup, s, step);
            || s'.log == s.log
            || (|s'.log| == |s.log| + 1 && s'.log[..|s.log|] == s.log
                && (s'.log[|s.log|].Started? ==>
                      step == Proceed(s'.log[|s.log|].id) && !s.cancelled && s.tasks[s'.log[|s.log|].id].phase.Cleared?))
    ensures var s' := Do(setup, s, step);
            forall c | c in s'.tasks && c in s.tasks && s'.tasks[c].inner.Working? && !s.tasks[c].inner.Working? ::
              step == Proceed(c) && !s.cancelled && s.tasks[c].phase.Cleared? && s'.log == s.log + [Started(c)]
  {
    var s' := Do(setup, s, step);
    assert s'.log != s.log ==> s'.log[..|s.log|] == s.log;
  }

  lemma {:induction false} StepTracesLog(setup: Setup, s: State, step: Step)
    requires Safe(setup, s) && Enabled(setup, s, step) && Traced(setup, s)
    ensures LogTraced(setup, Do(setup, s, step).log)
  {
    var log, log' := s.log, Do(setup, s, step).log;
    StepLogs(setup, s, step);
    forall i, d | 0 <= i < |log'| && log'[i].Started? && Startable(setup, d) && IsDone(log'[..i], d) ensures HasStarted(log'[..i], d) {
      if i < |log| {
        assert log'[i] == log[i] && log'[..i] == log[..i];
      } else {
        assert log'[..i] == log;
        DoneHasStarted(setup, s, d);
      }
    }
  }

  lemma {:induction false} DoneHasStarted(setup: Setup, s: State, d: ID)
    requires Safe(setup, s) && Traced(setup, s) && !s.cancelled && Startable(setup, d) && IsDone(s.log, d)
    ensures HasStarted(s.log, d)
  {
    assert EventsMatch(s, d) && TaskTraced(setup, s, d);
  }

  lemma {:induction false} LogKeepsOrder(setup: Setup, log: seq<Event>, log': seq<Event>, a: ID, b: ID)
    requires log <= log' && Overtook(setup, log, a, b)
    ensures Overtook(setup, log', a, b)
  {
    var i, j :| 0 <= i < j < |log| && log[i] == Started(a) && log[j] == Started(b);
    assert log'[i] == Started(a) && log'[j] == Started(b);
  }

  /** Who is at work when another Expensive collector starts has given its slot back, for want of time. */
  lemma {:induction false} NewcomerIsSecond(setup: Setup, s: State, c: ID, d: ID, log': seq<Event>)
    requires Safe(setup, s) && Traced(setup, s) && c in setup.byID && c in s.tasks && s.tasks[c].phase.Cleared? && !s.cancelled
    requires d in setup.byID && d in s.tasks && d != c && setup.IsExpensive(c) && setup.IsExpensive(d) && s.tasks[d].inner.Working?
    requires log' == s.log + [Started(c)]
    ensures Overtook(setup, log', d, c)
  {
    assert TaskOk(setup, s, c) && TaskOk(setup, s, d) && TaskTraced(setup, s, d) && EventsMatch(s, d);
    var i :| 0 <= i < |s.log| && s.log[i] == Started(d);
    assert log'[i] == Started(d) && log'[|s.log|] == Started(c);
  }

  lemma {:induction false} StepTracesPairs(setup: Setup, s: State, step: Step, a: ID, b: ID)
    requires Safe(setup, s) && Enabled(setup, s, step) && Traced(setup, s)
    ensures PairTraced(setup, Do(setup, s, step), a, b)
  {
    var s' := Do(setup, s, step);
    StepLogs(setup, s, step);
    assert PairTraced(setup, s, a, b);
    if BothAtWork(setup, s', a, b) {
      if !s.tasks[a].inner.Working? {
        NewcomerIsSecond(setup, s, a, b, s'.log);
      } else if !s.tasks[b].inner.Working? {
        NewcomerIsSecond(setup, s, b, a, s'.log);
      } else if Overtook(setup, s.log, a, b) {
        LogKeepsOrder(setup, s.log, s'.log, a, b);
      } else {
        LogKeepsOrder(setup, s.log, s'.log, b, a);
      }
    }
  }

  lemma {:induction false} ReachableIsTraced(setup: Setup, base: Ledger, steps: seq<Step>, s: State)
    requires Reaches(setup, base, steps, s)
    ensures Traced(setup, s)
  {
    if steps != [] {
      var n := |steps| - 1;
      var before :| Reaches(setup, base, steps[..n], before) && Enabled(setup, before, steps[n]) && s == Do(setup, before, steps[n]);
      ReachableIsSafe(setup, base, steps[..n], before);
      ReachableIsTraced(setup, base, steps[..n], before);
      StepTracesTasks(setup, before, steps[n]);
      StepTracesLog(setup, before, steps[n]);
      forall a, b ensures PairTraced(setup, s, a, b) { StepTracesPairs(setup, before, steps[n], a, b); }
    }
  }

  lemma {:induction false} DoneStays(log: seq<Event>, i: nat, j: nat, c: ID)
    requires i <= j <= |log| && IsDone(log[..i], c)
    ensures IsDone(log[..j], c)
  {
    var st :| Done(c, st) in log[..i];
    var k :| 0 <= k < i && log[..i][k] == Done(c, st);
    assert log[..j][k] == Done(c, st);
  }

  lemma {:induction false} TailPath(setup: Setup, p: seq<ID>)
    requires WaitingPath(setup, p) && |p| > 2
    ensures WaitingPath(setup, p[1..])
  {
    forall j | 0 <= j < |p| - 2 ensures Startable(setup, p[1..][j]) && p[1..][j + 1] in setup.Deps(p[1..][j]) {
      assert Startable(setup, p[j + 1]) && p[j + 2] in setup.Deps(p[j + 1]);
    }
  }

  /** Whoever starts, everyone it waits for is done. */
  lemma {:induction false} StartsAfterAll(setup: Setup, base: Ledger, steps: seq<Step>, s: State, i: nat, p: seq<ID>)
    requires Reaches(setup, base, steps, s) && WaitingPath(setup, p) && i < |s.log| && s.log[i] == Started(p[0])
    requires p[|p| - 1] in setup.byID
    ensures IsDone(s.log[..i], p[|p| - 1])
    decreases |p|
  {
    var d := p[1];
    assert Startable(setup, p[0]) && d in setup.Deps(p[0]);
    StartsAfterDependencies(setup, base, steps, s, i, p[0], d);
    if |p| > 2 {
      assert Startable(setup, d);
      ReachableIsTraced(setup, base, steps, s);
      assert HasStarted(s.log[..i], d);
      var k :| 0 <= k < i && s.log[..i][k] == Started(d);
      TailPath(setup, p);
      StartsAfterAll(setup, base, steps, s, k, p[1..]);
      DoneStays(s.log, k, i, p[|p| - 1]);
    }
  }

  /** Two at work at once: the first to start has a budget and did not wait for the second. */
  lemma {:induction false} FirstOvertakes(setup: Setup, base: Ledger, steps: seq<Step>, s: State, a: ID, b: ID)
    requires Reaches(setup, base, steps, s) && BothAtWork(setup, s, a, b) && Overtook(setup, s.log, a, b)
    ensures Overtakes(setup, a, b)
  {
    ReachableIsTraced(setup, base, steps, s);
    assert TaskTraced(setup, s, a) && TaskTraced(setup, s, b);
    var i, j :| 0 <= i < j < |s.log| && s.log[i] == Started(a) && s.log[j] == Started(b);
    if WaitsFor(setup, a, b) {
      var p :| WaitingPath(setup, p) && p[0] == a && p[|p| - 1] == b;
      StartsAfterAll(setup, base, steps, s, i, p);
      var st :| Done(b, st) in s.log[..i];
      var k :| 0 <= k < i && s.log[..i][k] == Done(b, st);
      EventsAtMostOnce(setup, base, steps, s, k, j);
    }
  }

  /** Where no collector overtakes another, at most one Expensive Collect is ever at work. */
  lemma {:induction false} OneCollectAtATime(setup: Setup, base: Ledger, steps: seq<Step>, s: State, a: ID, b: ID)
    requires Reaches(setup, base, steps, s) && BothAtWork(setup, s, a, b)
    ensures Overtakes(setup, a, b) || Overtakes(setup, b, a)
  {
    ReachableIsTraced(setup, base, steps, s);
    assert PairTraced(setup, s, a, b);
    if Overtook(setup, s.log, a, b) {
      FirstOvertakes(setup, base, steps, s, a, b);
    } else {
      FirstOvertakes(setup, base, steps, s, b, a);
    }
  }

  // ---------------------------------------------------------------- a run that shows it

  /** Nobody holds the slot and nobody cancelled. */
  predicate Quiet(s: State) { s.slot.None? && !s.cancelled }

  /** The registered dependencies of c are finished. */
  ghost predicate MayStart(setup: Setup, s: State, c: ID) {
    Startable(setup, c) && forall d | d in setup.Deps(c) :: Finished(s, d)
  }

  lemma {:induction false} StillMayStart(setup: Setup, s: State, s': State, c: ID)
    requires MayStart(setup, s, c) && forall d | Finished(s, d) :: Finished(s', d)
    ensures MayStart(setup, s', c)
  {
  }

  /** A collector that waits for a finished dependency goes on to the next. */
  lemma {:induction false} WaitMove(setup: Setup, s: State, c: ID, i: nat)
    requires MayStart(setup, s, c) && c in s.tasks && i < |setup.Deps(c)| && s.tasks[c] == NEW_TASK.(phase := Waiting(i))
    ensures CanProceed(setup, s, c)
    ensures Perform(setup, s, c, ProceedMove(setup, s, c)) == s.(tasks := s.tasks[c := NEW_TASK.(phase := Waiting(i + 1))])
  {
    assert setup.Deps(c)[i] in setup.Deps(c);
  }

  lemma {:induction false} WaitOne(setup: Setup, base: Ledger, steps: seq<Step>, s: State, c: ID, i: nat) returns (steps': seq<Step>, s': State)
    requires Reaches(setup, base, steps, s) && MayStart(setup, s, c) && c in s.tasks && i < |setup.Deps(c)|
    requires s.tasks[c] == NEW_TASK.(phase := Waiting(i))
    ensures Reaches(setup, base, steps', s') && MayStart(setup, s', c)
    ensures s' == s.(tasks := s.tasks[c := NEW_TASK.(phase := Waiting(i + 1))])
  {
    WaitMove(setup, s, c, i);
    steps', s' := OneStep(setup, base, steps, s, c);
    StillMayStart(setup, s, s', c);
  }

  /** Of two changes to a collector's phase only the later one is left. */
  lemma {:induction false} LastPhaseCounts(s: State, c: ID, first: Phase, last: Phase)
    ensures var t := s.(tasks := s.tasks[c := NEW_TASK.(phase := first)]);
            t.(tasks := t.tasks[c := NEW_TASK.(phase := last)]) == s.(tasks := s.tasks[c := NEW_TASK.(phase := last)])
  {
    var t := s.(tasks := s.tasks[c := NEW_TASK.(phase := first)]);
    assert t.tasks[c := NEW_TASK.(phase := last)] == s.tasks[c := NEW_TASK.(phase := last)];
  }

  /** Wait for the dependencies one after another, all of them finished. */
  lemma {:induction false} WaitAll(setup: Setup, base: Ledger, steps: seq<Step>, s: State, c: ID) returns (steps': seq<Step>, s': State)
    requires Reaches(setup, base, steps, s) && MayStart(setup, s, c) && c in s.tasks && s.tasks[c] == NEW_TASK.(phase := Waiting(0))
    ensures Reaches(setup, base, steps', s')
    ensures s' == s.(tasks := s.tasks[c := NEW_TASK.(phase := Waiting(|setup.Deps(c)|))])
  {
    steps', s' := steps, s;
    assert s.tasks[c := s.tasks[c]] == s.tasks;
    for i := 0 to |setup.Deps(c)|
      invariant Reaches(setup, base, steps', s') && MayStart(setup, s', c)
      invariant s' == s.(tasks := s.tasks[c := NEW_TASK.(phase := Waiting(i))])
    {
      LastPhaseCounts(s, c, Waiting(i), Waiting(i + 1));
      steps', s' := WaitOne(setup, base, steps', s', c, i);
    }
  }

  /** Whose turn it is, in a quiet state, gets to work. */
  lemma {:induction false} StartUp(setup: Setup, base: Ledger, steps: seq<Step>, s: State, c: ID) returns (steps': seq<Step>, s': State)
    requires Reaches(setup, base, steps, s) && Quiet(s) && MayStart(setup, s, c) && c in s.tasks && s.tasks[c] == NEW_TASK
    ensures Reaches(setup, base, steps', s') && !s'.cancelled
    ensures s'.tasks == s.tasks[c := Task(Running, Working, false, [])]
    ensures s'.slot == if setup.IsExpensive(c) then Some(c) else None
  {
    steps', s' := OneStep(setup, base, steps, s, c);
    StillMayStart(setup, s, s', c);
    steps', s' := WaitAll(setup, base, steps', s', c);
    steps', s' := OneStep(setup, base, steps', s', c);
    if setup.IsExpensive(c) { steps', s' := OneStep(setup, base, steps', s', c); }
    steps', s' := OneStep(setup, base, steps', s', c);
  }

  /** The deferred calls. */
  lemma {:induction false} Leave(setup: Setup, base: Ledger, steps: seq<Step>, s: State, c: ID) returns (steps': seq<Step>, s': State)
    requires Reaches(setup, base, steps, s) && !s.cancelled && c in setup.byID && c in s.tasks && s.tasks[c].phase.Leaving?
    requires s.slot.None? || s.slot == Some(c)
    ensures Reaches(setup, base, steps', s') && Quiet(s')
    ensures s'.tasks == s.tasks[c := s.tasks[c].(phase := Phase.Closed(s.tasks[c].phase.status))]
  {
    steps', s' := OneStep(setup, base, steps, s, c);
    steps', s' := OneStep(setup, base, steps', s', c);
    steps', s' := OneStep(setup, base, steps', s', c);
  }

  /** c goes from start to finish and nothing else happens; atWork says whether its Collect goes on. */
  ghost predicate RanWhole(s: State, s': State, c: ID, atWork: bool) {
    && Quiet(s') && c in s'.tasks && s'.tasks.Keys == s.tasks.Keys && s'.tasks[c].phase.Closed? && (atWork ==> s'.tasks[c].inner.Working?)
    && forall d | d in s.tasks && d != c :: s'.tasks[d] == s.tasks[d]
  }

  lemma {:induction false} Skip(setup: Setup, base: Ledger, steps: seq<Step>, s: State, c: ID) returns (steps': seq<Step>, s': State)
    requires Reaches(setup, base, steps, s) && Quiet(s) && c in setup.byID && !Startable(setup, c) && c in s.tasks && s.tasks[c] == NEW_TASK
    ensures Reaches(setup, base, steps', s') && RanWhole(s, s', c, false)
  {
    steps', s' := OneStep(setup, base, steps, s, c);
    steps', s' := Leave(setup, base, steps', s', c);
  }

  lemma {:induction false} Finish(setup: Setup, base: Ledger, steps: seq<Step>, s: State, c: ID) returns (steps': seq<Step>, s': State)
    requires Reaches(setup, base, steps, s) && Quiet(s) && MayStart(setup, s, c) && c in s.tasks && s.tasks[c] == NEW_TASK
    ensures Reaches(setup, base, steps', s') && RanWhole(s, s', c, false)
  {
    steps', s' := StartUp(setup, base, steps, s, c);
    var step := Return(c, Returned(None, EMPTY));
    Extend(setup, base, steps', s', step);
    steps', s' := steps' + [step], Do(setup, s', step);
    steps', s' := OneStep(setup, base, steps', s', c);
    steps', s' := Leave(setup, base, steps', s', c);
  }

  /** c outruns its budget: it is abandoned and finished, and its Collect goes on. */
  lemma {:induction false} Outrun(setup: Setup, base: Ledger, steps: seq<Step>, s: State, c: ID) returns (steps': seq<Step>, s': State)
    requires Reaches(setup, base, steps, s) && Quiet(s) && MayStart(setup, s, c) && c in s.tasks && s.tasks[c] == NEW_TASK && c in setup.bounded
    ensures Reaches(setup, base, steps', s') && RanWhole(s, s', c, true)
  {
    steps', s' := StartUp(setup, base, steps, s, c);
    Extend(setup, base, steps', s', Expire(c));
    steps', s' := steps' + [Expire(c)], Do(setup, s', Expire(c));
    Extend(setup, base, steps', s', GiveUp(c));
    steps', s' := steps' + [GiveUp(c)], Do(setup, s', GiveUp(c));
    steps', s' := Leave(setup, base, steps', s', c);
  }

  /** b itself, and who waits for it. */
  ghost predicate HeldBack(setup: Setup, b: ID, c: ID) {
    c == b || (Startable(setup, c) && WaitsFor(setup, c, b))
  }

  /** Who waits for somebody held back is held back. */
  lemma {:induction false} HoldsBack(setup: Setup, b: ID, c: ID, d: ID)
    requires Startable(setup, c) && d in setup.Deps(c) && HeldBack(setup, b, d)
    ensures WaitsFor(setup, c, b)
  {
    if d == b {
      assert WaitingPath(setup, [c, b]);
    } else {
      var p :| WaitingPath(setup, p) && p[0] == d && p[|p| - 1] == b;
      var q := [c] + p;
      forall i | 0 <= i < |q| - 1 ensures Startable(setup, q[i]) && q[i + 1] in setup.Deps(q[i]) {
        if i > 0 { assert q[i] == p[i - 1] && q[i + 1] == p[i]; }
      }
      assert WaitingPath(setup, q);
    }
  }

  /** The first k of the plan have run, except those held back; nobody else has begun; a is still at work. */
  ghost predicate RanTo(setup: Setup, plan: seq<ID>, a: ID, b: ID, k: nat, s: State)
    requires k <= |plan|
  {
    && Quiet(s) && s.tasks.Keys == setup.byID.Keys
    && (forall i | 0 <= i < k && !HeldBack(setup, b, plan[i]) :: Finished(s, plan[i]) && (plan[i] == a ==> s.tasks[a].inner.Working?))
    && (forall c | c in s.tasks && (c in plan[..k] ==> HeldBack(setup, b, c)) :: s.tasks[c] == NEW_TASK)
  }

  /** A collector of the plan that is not held back may start when those before it have run. */
  lemma {:induction false} TurnComes(setup: Setup, plan: seq<ID>, a: ID, b: ID, k: nat, s: State)
    requires Topological(KnownDeps(setup.byID), plan) && k < |plan| && RanTo(setup, plan, a, b, k, s)
    requires Startable(setup, plan[k]) && !WaitsFor(setup, plan[k], b)
    ensures MayStart(setup, s, plan[k])
  {
    var c := plan[k];
    forall d | d in setup.Deps(c) ensures Finished(s, d) {
      assert Edge(KnownDeps(setup.byID), c, d);
      var i :| 0 <= i < k && plan[..k][i] == d;
      if HeldBack(setup, b, d) { HoldsBack(setup, b, c, d); }
    }
  }

  lemma {:induction false} RanOneMore(setup: Setup, plan: seq<ID>, a: ID, b: ID, k: nat, s: State, s': State)
    requires Topological(KnownDeps(setup.byID), plan) && k < |plan| && RanTo(setup, plan, a, b, k, s)
    requires if HeldBack(setup, b, plan[k]) then s' == s else RanWhole(s, s', plan[k], plan[k] == a)
    ensures RanTo(setup, plan, a, b, k + 1, s')
  {
    assert plan[..k + 1] == plan[..k] + [plan[k]];
    forall i | 0 <= i < k + 1 && !HeldBack(setup, b, plan[i])
      ensures Finished(s', plan[i]) && (plan[i] == a ==> s'.tasks[a].inner.Working?)
    {
      assert i < k ==> plan[i] != plan[k] && Finished(s, plan[i]);
    }
  }

  /** Run the plan, leaving out who is held back, and let a outrun its budget. */
  lemma {:induction false} RunPlan(setup: Setup, base: Ledger, plan: seq<ID>, a: ID, b: ID, k: nat) returns (steps: seq<Step>, s: State)
    requires Topological(KnownDeps(setup.byID), plan) && k <= |plan| && Overtakes(setup, a, b)
    ensures Reaches(setup, base, steps, s) && RanTo(setup, plan, a, b, k, s)
    decreases k
  {
    if k == 0 {
      steps, s := [], Begin(setup, base);
    } else {
      var c := plan[k - 1];
      assert c in plan && !(c in plan[..k - 1]);
      steps, s := RunPlan(setup, base, plan, a, b, k - 1);
      ghost var before := s;
      if HeldBack(setup, b, c) {
      } else if !Startable(setup, c) {
        steps, s := Skip(setup, base, steps, s, c);
      } else {
        TurnComes(setup, plan, a, b, k - 1, s);
        if c == a { steps, s := Outrun(setup, base, steps, s, c); } else { steps, s := Finish(setup, base, steps, s, c); }
      }
      RanOneMore(setup, plan, a, b, k - 1, before, s);
    }
  }

  lemma {:induction false} NobodyWaitsForItself(setup: Setup, plan: seq<ID>, p: seq<ID>)
    requires Topological(KnownDeps(setup.byID), plan) && WaitingPath(setup, p) && p[|p| - 1] in setup.byID
    ensures p[0] != p[|p| - 1]
  {
    var g := KnownDeps(setup.byID);
    forall i | 0 < i < |p| ensures Edge(g, p[i - 1], p[i]) {
      assert Startable(setup, p[i - 1]) && p[i] in setup.Deps(p[i - 1]);
    }
    PathGoesDown(g, plan, p, |p| - 1);
  }

  /** Where a overtakes b there is a run in which both are at work. */
  lemma {:induction false} OvertakingHappens(setup: Setup, base: Ledger, plan: seq<ID>, a: ID, b: ID) returns (steps: seq<Step>, s: State)
    requires Topological(KnownDeps(setup.byID), plan) && Overtakes(setup, a, b)
    ensures Reaches(setup, base, steps, s) && BothAtWork(setup, s, a, b)
  {
    steps, s := RunPlan(setup, base, plan, a, b, |plan|);
    assert a in plan && b in plan && plan[..|plan|] == plan;
    var k :| 0 <= k < |plan| && plan[k] == a;
    assert Finished(s, plan[k]);
    assert MayStart(setup, s, b) by {
      forall d | d in setup.Deps(b) ensures Finished(s, d) {
        assert d in plan;
        var i :| 0 <= i < |plan| && plan[i] == d;
        DependencyIsFree(setup, plan, b, d);
      }
    }
    steps, s := StartUp(setup, base, steps, s, b);
  }

  /** No dependency of b is held back by b. */
  lemma {:induction false} DependencyIsFree(setup: Setup, plan: seq<ID>, b: ID, d: ID)
    requires Topological(KnownDeps(setup.byID), plan) && Startable(setup, b) && d in setup.Deps(b)
    ensures !HeldBack(setup, b, d)
  {
    if HeldBack(setup, b, d) {
      HoldsBack(setup, b, b, d);
      var p :| WaitingPath(setup, p) && p[0] == b && p[|p| - 1] == b;
      NobodyWaitsForItself(setup, plan, p);
    }
  }

  /** Some run of the setup has two Expensive Collects at work at once. */
  ghost predicate CanOverlap(setup: Setup, base: Ledger) {
    exists steps, s, a, b :: Reaches(setup, base, steps, s) && BothAtWork(setup, s, a, b)
  }

  /**
   * Two Expensive Collects can be at work at once exactly when one with a budget can start, and
   * so can another it does not wait for. In particular: never, where no Expensive collector has a budget.
   */
  lemma {:induction false} OverlapExactlyWhen(setup: Setup, base: Ledger)
    requires exists plan :: Topological(KnownDeps(setup.byID), plan)
    ensures CanOverlap(setup, base) <==> exists a, b :: Overtakes(setup, a, b)
    ensures (forall c | c in setup.byID && setup.IsExpensive(c) :: c !in setup.bounded) ==> !CanOverlap(setup, base)
  {
    var plan :| Topological(KnownDeps(setup.byID), plan);
    if CanOverlap(setup, base) {
      var steps, s, a, b :| Reaches(setup, base, steps, s) && BothAtWork(setup, s, a, b);
      OneCollectAtATime(setup, base, steps, s, a, b);
    }
    if a, b :| Overtakes(setup, a, b) {
      var steps, s := OvertakingHappens(setup, base, plan, a, b);
    }
  }
}
