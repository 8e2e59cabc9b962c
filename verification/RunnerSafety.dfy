/** What every interleaving of the runner keeps: the slot, the dependency order, the observer's events. */
module RunnerSafety {
  import opened Basics
  import opened Ids
  import opened FactSet
  import opened Registry
  import opened Runner

  // ---------------------------------------------------------------- the invariant

  /** Past the slot, if the collector needs one, and not yet back out of runOne. */
  predicate InRunOne(p: Phase) {
    p.Cleared? || p.Running? || p.Reporting?
  }

  predicate MayHold(p: Phase) {
    InRunOne(p) || p.Leaving?
  }

  predicate BeforeRunOne(p: Phase) {
    p.Starting? || p.Waiting? || p.Queued? || p.Cleared?
  }

  predicate AfterDone(p: Phase) {
    p.Observed? || p.Closed?
  }

  /** The registered dependencies of c among the first n are finished. */
  ghost predicate DepsFinished(setup: Setup, s: State, c: ID, n: nat)
    requires c in setup.byID
  {
    forall i | 0 <= i < n && i < |setup.Deps(c)| && setup.Deps(c)[i] in setup.byID :: Finished(s, setup.Deps(c)[i])
  }

  /** How far c has waited. */
  function Waited(setup: Setup, c: ID, p: Phase): nat
    requires c in setup.byID
  {
    if p.Waiting? then p.next else if p.Queued? || InRunOne(p) then |setup.Deps(c)| else 0
  }

  ghost predicate TaskOk(setup: Setup, s: State, c: ID)
    requires c in setup.byID && c in s.tasks
  {
    && DepsFinished(setup, s, c, Waited(setup, c, s.tasks[c].phase))
    && ControlOk(setup, s.slot, c, s.tasks[c])
  }

  ghost predicate ControlOk(setup: Setup, slot: Option<ID>, c: ID, t: Task)
    requires c in setup.byID
  {
    && (t.phase.Queued? ==> setup.IsExpensive(c))
    && (BeforeRunOne(t.phase) ==> t.inner.NotStarted?)
    && (t.phase.Running? || t.phase.Reporting? ==> !t.inner.NotStarted?)
    && (InRunOne(t.phase) && setup.IsExpensive(c) ==> slot == Some(c))
  }

  /** Events of one collector so far. */
  ghost predicate HasStarted(log: seq<Event>, c: ID) { Started(c) in log }

  ghost predicate IsDone(log: seq<Event>, c: ID) { exists st :: Done(c, st) in log }

  /** Every event comes at a moment it may: once each, Started only after every dependency's Done. */
  ghost predicate LogOk(setup: Setup, log: seq<Event>) {
    log == [] || (
      var n := |log| - 1;
      LogOk(setup, log[..n]) && EventOk(setup, log[..n], log[n]))
  }

  ghost predicate EventOk(setup: Setup, before: seq<Event>, e: Event) {
    e.id in setup.byID && !IsDone(before, e.id) &&
    match e
    case Started(c) => !HasStarted(before, c) && forall d | d in setup.Deps(c) && d in setup.byID :: IsDone(before, d)
    case Done(c, status) => (status.OK? || status.DidFail? ==> HasStarted(before, c)) && (status.Skipped? ==> !HasStarted(before, c))
  }

  ghost predicate EventsMatch(s: State, c: ID)
    requires c in s.tasks
  {
    var t := s.tasks[c];
    && (HasStarted(s.log, c) <==> !t.inner.NotStarted?)
    && (IsDone(s.log, c) <==> AfterDone(t.phase))
    && (t.phase.Leaving? || t.phase.Released? ==> StatusOk(t.phase.status, t.inner))
  }

  predicate StatusOk(status: Status, inner: Inner) {
    && (status.OK? || status.DidFail? ==> !inner.NotStarted?)
    && (status.Skipped? ==> inner.NotStarted?)
  }

  ghost predicate Safe(setup: Setup, s: State) {
    && s.tasks.Keys == setup.byID.Keys
    && (forall c | c in s.tasks :: TaskOk(setup, s, c))
    && (forall c | c in s.tasks :: EventsMatch(s, c))
    && (s.slot.Some? ==> s.slot.value in s.tasks && setup.IsExpensive(s.slot.value) && MayHold(s.tasks[s.slot.value].phase))
    && LogOk(setup, s.log)
  }

  // ---------------------------------------------------------------- preservation

  lemma {:induction false} MoreLog(log: seq<Event>, e: Event, c: ID)
    ensures HasStarted(log + [e], c) <==> HasStarted(log, c) || e == Started(c)
    ensures IsDone(log + [e], c) <==> IsDone(log, c) || (e.Done? && e.id == c)
  {
    if IsDone(log, c) {
      var st :| Done(c, st) in log;
      assert Done(c, st) in log + [e];
    }
    if e.Done? && e.id == c {
      assert Done(c, e.status) in log + [e];
    }
  }

  /** A move of c leaves every other task, and whoever is finished, as they were. */
  lemma {:induction false} OthersKept(setup: Setup, s: State, c: ID, m: Move, d: ID)
    requires Safe(setup, s) && c in s.tasks && d in s.tasks && d != c
    requires !s.tasks[c].phase.Closed?
    requires m.slot == s.slot || (s.slot.None? && m.slot == Some(c)) || (s.slot == Some(c) && m.slot.None?)
    requires m.event.Some? ==> m.event.value.id == c
    ensures TaskOk(setup, Perform(setup, s, c, m), d) && EventsMatch(Perform(setup, s, c, m), d)
  {
    var s' := Perform(setup, s, c, m);
    assert TaskOk(setup, s, d) && EventsMatch(s, d);
    assert s'.tasks[d] == s.tasks[d];
    assert forall x | Finished(s, x) :: Finished(s', x);
    if m.event.Some? { MoreLog(s.log, m.event.value, d); }
  }

  /** What a move of c must establish for c itself. */
  ghost predicate MoveOk(setup: Setup, s: State, c: ID, m: Move)
    requires c in setup.byID && c in s.tasks
  {
    && !s.tasks[c].phase.Closed?
    && (m.slot == s.slot || (s.slot.None? && m.slot == Some(c)) || (s.slot == Some(c) && m.slot.None?))
    && (m.event.Some? ==> m.event.value.id == c && EventOk(setup, s.log, m.event.value))
    && TaskOk(setup, Perform(setup, s, c, m), c)
    && EventsMatch(Perform(setup, s, c, m), c)
    && (m.slot == Some(c) ==> setup.IsExpensive(c) && MayHold(m.phase))
  }

  lemma {:induction false} MoveKeeps(setup: Setup, s: State, c: ID, m: Move)
    requires Safe(setup, s) && c in s.tasks && MoveOk(setup, s, c, m)
    ensures Safe(setup, Perform(setup, s, c, m))
  {
    var s' := Perform(setup, s, c, m);
    forall d | d in s'.tasks ensures TaskOk(setup, s', d) && EventsMatch(s', d) {
      if d != c { OthersKept(setup, s, c, m, d); }
    }
    if m.event.Some? {
      assert s'.log[..|s.log|] == s.log;
    }
  }

  lemma {:induction false} FinishedIsDone(setup: Setup, s: State, d: ID)
    requires Safe(setup, s) && Finished(s, d)
    ensures IsDone(s.log, d)
  {
    assert EventsMatch(s, d);
  }

  /** Starting a collector is announced after the announcements of all it depends on. */
  lemma {:induction false} StartOk(setup: Setup, s: State, c: ID)
    requires Safe(setup, s) && c in setup.byID && s.tasks[c].phase.Cleared? && !s.cancelled
    ensures EventOk(setup, s.log, Started(c))
  {
    assert TaskOk(setup, s, c) && EventsMatch(s, c);
    forall d | d in setup.Deps(c) && d in setup.byID ensures IsDone(s.log, d) {
      var i :| 0 <= i < |setup.Deps(c)| && setup.Deps(c)[i] == d;
      FinishedIsDone(setup, s, d);
    }
  }

  lemma {:induction false} StillFinished(setup: Setup, s: State, c: ID, m: Move, n: nat)
    requires c in setup.byID && c in s.tasks && !s.tasks[c].phase.Closed? && DepsFinished(setup, s, c, n)
    ensures DepsFinished(setup, Perform(setup, s, c, m), c, n)
  {
    var s' := Perform(setup, s, c, m);
    forall i | 0 <= i < n && i < |setup.Deps(c)| && setup.Deps(c)[i] in setup.byID ensures Finished(s', setup.Deps(c)[i]) {
      assert Finished(s, setup.Deps(c)[i]);
    }
  }

  /** What one step of c may do to control, slot and events, whatever everybody else is at. */
  ghost predicate ControlMoves(setup: Setup, s: State, c: ID, m: Move)
    requires c in setup.byID && c in s.tasks
  {
    var t := s.tasks[c];
    && !t.phase.Closed?
    && (m.slot == s.slot || (s.slot.None? && m.slot == Some(c)) || (s.slot == Some(c) && m.slot.None?))
    && (m.slot == Some(c) ==> setup.IsExpensive(c) && MayHold(m.phase))
    && ControlOk(setup, m.slot, c, Task(m.phase, m.inner, t.expired, t.written))
    && (m.phase.Leaving? || m.phase.Released? ==> StatusOk(m.phase.status, m.inner))
    && (m.event == if t.phase.Cleared? && !s.cancelled then Some(Started(c))
                   else if t.phase.Released? then Some(Done(c, t.phase.status)) else None)
    && (m.inner.NotStarted? <==> t.inner.NotStarted? && !(t.phase.Cleared? && !s.cancelled))
    && (AfterDone(m.phase) <==> AfterDone(t.phase) || t.phase.Released?)
  }

  lemma {:induction false} ProceedControl(setup: Setup, s: State, c: ID)
    requires c in setup.byID && c in s.tasks && CanProceed(setup, s, c) && ControlOk(setup, s.slot, c, s.tasks[c])
    requires s.tasks[c].phase.Leaving? || s.tasks[c].phase.Released? ==> StatusOk(s.tasks[c].phase.status, s.tasks[c].inner)
    requires s.slot == Some(c) ==> setup.IsExpensive(c) && MayHold(s.tasks[c].phase)
    ensures ControlMoves(setup, s, c, ProceedMove(setup, s, c))
  {
  }

  lemma {:induction false} ProceedWaits(setup: Setup, s: State, c: ID)
    requires c in setup.byID && c in s.tasks && CanProceed(setup, s, c)
    requires DepsFinished(setup, s, c, Waited(setup, c, s.tasks[c].phase))
    ensures DepsFinished(setup, s, c, Waited(setup, c, ProceedMove(setup, s, c).phase))
  {
  }

  /** A move that respects control, events and waiting keeps everything. */
  lemma {:induction false} ControlledMoveOk(setup: Setup, s: State, c: ID, m: Move)
    requires Safe(setup, s) && c in s.tasks && ControlMoves(setup, s, c, m)
    requires DepsFinished(setup, s, c, Waited(setup, c, m.phase))
    ensures MoveOk(setup, s, c, m)
  {
    var s' := Perform(setup, s, c, m);
    assert TaskOk(setup, s, c) && EventsMatch(s, c);
    StillFinished(setup, s, c, m, Waited(setup, c, m.phase));
    assert s'.tasks[c].phase == m.phase && s'.tasks[c].inner == m.inner;
    assert TaskOk(setup, s', c);
    if s.tasks[c].phase.Cleared? && !s.cancelled { StartOk(setup, s, c); }
    if m.event.Some? { MoreLog(s.log, m.event.value, c); }
  }

  lemma {:induction false} ProceedOk(setup: Setup, s: State, c: ID)
    requires Safe(setup, s) && c in setup.byID && CanProceed(setup, s, c)
    ensures MoveOk(setup, s, c, ProceedMove(setup, s, c))
  {
    assert TaskOk(setup, s, c) && EventsMatch(s, c);
    ProceedControl(setup, s, c);
    ProceedWaits(setup, s, c);
    ControlledMoveOk(setup, s, c, ProceedMove(setup, s, c));
  }

  lemma {:induction false} GiveUpOk(setup: Setup, s: State, c: ID)
    requires Safe(setup, s) && c in setup.byID && CanGiveUp(setup, s, c)
    ensures MoveOk(setup, s, c, GiveUpMove(setup, s, c))
  {
    assert TaskOk(setup, s, c) && EventsMatch(s, c);
  }

  lemma {:induction false} StepKeepsSafe(setup: Setup, s: State, step: Step)
    requires Safe(setup, s) && Enabled(setup, s, step)
    ensures Safe(setup, Do(setup, s, step))
  {
    match step
    case Proceed(c) => ProceedOk(setup, s, c); MoveKeeps(setup, s, c, ProceedMove(setup, s, c));
    case GiveUp(c) => GiveUpOk(setup, s, c); MoveKeeps(setup, s, c, GiveUpMove(setup, s, c));
    case _ => QuietStepKeepsSafe(setup, s, step);
  }

  /** Cancelling, expiring and returning move nobody's own goroutine. */
  lemma {:induction false} QuietStepKeepsSafe(setup: Setup, s: State, step: Step)
    requires Safe(setup, s) && Enabled(setup, s, step) && !step.Proceed? && !step.GiveUp?
    ensures Safe(setup, Do(setup, s, step))
  {
    var s' := Do(setup, s, step);
    forall d | d in s'.tasks ensures TaskOk(setup, s', d) && EventsMatch(s', d) {
      assert TaskOk(setup, s, d) && EventsMatch(s, d);
      QuietTask(setup, s, s', d);
    }
  }

  lemma {:induction false} QuietTask(setup: Setup, s: State, s': State, d: ID)
    requires d in setup.byID && d in s.tasks && TaskOk(setup, s, d) && EventsMatch(s, d)
    requires s'.tasks.Keys == s.tasks.Keys && s'.log == s.log && s'.slot == s.slot
    requires forall x | x in s.tasks ::
               && s'.tasks[x].phase == s.tasks[x].phase
               && (s'.tasks[x].inner == s.tasks[x].inner || (s.tasks[x].inner.Working? && s'.tasks[x].inner.Delivered?))
    ensures TaskOk(setup, s', d) && EventsMatch(s', d)
  {
    forall i | 0 <= i < |setup.Deps(d)| && Finished(s, setup.Deps(d)[i]) ensures Finished(s', setup.Deps(d)[i]) {
    }
  }

  /** Every reachable state is safe. */
  lemma {:induction false} ReachableIsSafe(setup: Setup, base: Ledger, steps: seq<Step>, s: State)
    requires Reaches(setup, base, steps, s)
    ensures Safe(setup, s)
  {
    if steps != [] {
      var n := |steps| - 1;
      var before :|
        && Reaches(setup, base, steps[..n], before)
        && Enabled(setup, before, steps[n])
        && s == Do(setup, before, steps[n]);
      ReachableIsSafe(setup, base, steps[..n], before);
      StepKeepsSafe(setup, before, steps[n]);
    }
  }

  // ---------------------------------------------------------------- what it means

  /** Between taking the slot and leaving runOne there is only ever one Expensive collector. */
  lemma {:induction false} OneExpensiveAtATime(setup: Setup, base: Ledger, steps: seq<Step>, s: State, c: ID, d: ID)
    requires Reaches(setup, base, steps, s)
    requires c in setup.byID && setup.IsExpensive(c) && c in s.tasks && InRunOne(s.tasks[c].phase)
    requires d in setup.byID && setup.IsExpensive(d) && d in s.tasks && InRunOne(s.tasks[d].phase)
    ensures c == d
  {
    ReachableIsSafe(setup, base, steps, s);
    assert TaskOk(setup, s, c) && TaskOk(setup, s, d);
  }

  /** A collector starts only after every registered dependency of it is done. */
  lemma {:induction false} StartsAfterDependencies(setup: Setup, base: Ledger, steps: seq<Step>, s: State, i: nat, c: ID, d: ID)
    requires Reaches(setup, base, steps, s)
    requires i < |s.log| && s.log[i] == Started(c)
    requires c in setup.byID && d in setup.Deps(c) && d in setup.byID
    ensures exists st :: Done(d, st) in s.log[..i]
  {
    ReachableIsSafe(setup, base, steps, s);
    EventWasOk(setup, s.log, i);
  }

  lemma {:induction false} EventWasOk(setup: Setup, log: seq<Event>, i: nat)
    requires LogOk(setup, log) && i < |log|
    ensures EventOk(setup, log[..i], log[i])
  {
    var n := |log| - 1;
    if i < n {
      EventWasOk(setup, log[..n], i);
      assert log[..n][..i] == log[..i];
    }
  }

  /** No collector is reported started twice, or done twice, or started after it was done. */
  lemma {:induction false} EventsAtMostOnce(setup: Setup, base: Ledger, steps: seq<Step>, s: State, i: nat, j: nat)
    requires Reaches(setup, base, steps, s)
    requires i < j < |s.log| && s.log[i].id == s.log[j].id
    ensures s.log[i].Started? && s.log[j].Done?
  {
    ReachableIsSafe(setup, base, steps, s);
    EventWasOk(setup, s.log, j);
    assert s.log[i] in s.log[..j];
  }

  /** When the run returns every collector has been reported done, and only skipped ones never ran. */
  lemma {:induction false} EveryCollectorDoneOnce(setup: Setup, base: Ledger, steps: seq<Step>, s: State, c: ID)
    requires Reaches(setup, base, steps, s) && Complete(s) && c in setup.byID
    ensures exists i :: 0 <= i < |s.log| && s.log[i].Done? && s.log[i].id == c
    ensures forall i | 0 <= i < |s.log| && s.log[i].Done? && s.log[i].id == c ::
              && (s.log[i].status.OK? || s.log[i].status.DidFail? ==> Started(c) in s.log[..i])
              && (s.log[i].status.Skipped? ==> Started(c) !in s.log)
  {
    ReachableIsSafe(setup, base, steps, s);
    assert EventsMatch(s, c);
    var st :| Done(c, st) in s.log;
    var k :| 0 <= k < |s.log| && s.log[k] == Done(c, st);
    forall i | 0 <= i < |s.log| && s.log[i].Done? && s.log[i].id == c
      ensures s.log[i].status.OK? || s.log[i].status.DidFail? ==> Started(c) in s.log[..i]
      ensures s.log[i].status.Skipped? ==> Started(c) !in s.log
    {
      EventWasOk(setup, s.log, i);
      if Started(c) in s.log {
        var j :| 0 <= j < |s.log| && s.log[j] == Started(c);
        if i < j { EventsAtMostOnce(setup, base, steps, s, i, j); }
        assert j < i ==> s.log[j] in s.log[..i];
      }
    }
  }

  lemma {:induction false} StepExtendsLog(setup: Setup, s: State, step: Step)
    requires Enabled(setup, s, step)
    ensures var log := Do(setup, s, step).log; log == s.log || (|log| == |s.log| + 1 && s.log <= log && (s.cancelled ==> log[|s.log|].Done?))
  {
  }

  /** A sequence of steps leads to one state. */
  lemma {:induction false} ReachesOnce(setup: Setup, base: Ledger, steps: seq<Step>, s: State, t: State)
    requires Reaches(setup, base, steps, s) && Reaches(setup, base, steps, t)
    ensures s == t
  {
    if steps != [] {
      var n := |steps| - 1;
      var x :| Reaches(setup, base, steps[..n], x) && Enabled(setup, x, steps[n]) && s == Do(setup, x, steps[n]);
      var y :| Reaches(setup, base, steps[..n], y) && Enabled(setup, y, steps[n]) && t == Do(setup, y, steps[n]);
      ReachesOnce(setup, base, steps[..n], x, y);
    }
  }

  /** Over a whole run: after a state in which the scan was cancelled, only completions are reported. */
  lemma {:induction false} OnlyDoneAfterCancel(setup: Setup, base: Ledger, steps: seq<Step>, s: State, k: nat, t: State)
    requires Reaches(setup, base, steps, s) && k <= |steps| && Reaches(setup, base, steps[..k], t) && t.cancelled
    ensures s.cancelled && t.log <= s.log && forall i | |t.log| <= i < |s.log| :: s.log[i].Done?
  {
    if k == |steps| {
      assert steps[..k] == steps;
      ReachesOnce(setup, base, steps, s, t);
    } else {
      var n := |steps| - 1;
      var before :| Reaches(setup, base, steps[..n], before) && Enabled(setup, before, steps[n]) && s == Do(setup, before, steps[n]);
      assert steps[..n][..k] == steps[..k];
      OnlyDoneAfterCancel(setup, base, steps[..n], before, k, t);
      StepExtendsLog(setup, before, steps[n]);
    }
  }

  // ---------------------------------------------------------------- what the slot does not promise

  /** c is Expensive, may run as anyone, and waits for nothing. */
  ghost predicate Ready(setup: Setup, c: ID) {
    c in setup.byID && setup.IsExpensive(c) && setup.Deps(c) == [] && setup.byID[c].requirement.CapNone?
  }

  lemma {:induction false} Extend(setup: Setup, base: Ledger, steps: seq<Step>, s: State, step: Step)
    requires Reaches(setup, base, steps, s) && Enabled(setup, s, step)
    ensures Reaches(setup, base, steps + [step], Do(setup, s, step))
  {
    var all := steps + [step];
    assert all[..|all| - 1] == steps && all[|all| - 1] == step;
    assert Reaches(setup, base, all[..|all| - 1], s);
  }

  /** One goroutine's own step, spelled out. */
  lemma {:induction false} OneStep(setup: Setup, base: Ledger, steps: seq<Step>, s: State, c: ID) returns (steps': seq<Step>, s': State)
    requires Reaches(setup, base, steps, s) && c in setup.byID && c in s.tasks && CanProceed(setup, s, c)
    ensures Reaches(setup, base, steps', s')
    ensures s' == Perform(setup, s, c, ProceedMove(setup, s, c))
  {
    Extend(setup, base, steps, s, Proceed(c));
    steps', s' := steps + [Proceed(c)], Do(setup, s, Proceed(c));
  }

  lemma {:induction false} LineUp(setup: Setup, base: Ledger, steps: seq<Step>, s: State, c: ID) returns (steps': seq<Step>, s': State)
    requires Reaches(setup, base, steps, s) && Ready(setup, c) && c in s.tasks && s.tasks[c] == NEW_TASK
    ensures Reaches(setup, base, steps', s')
    ensures s' == s.(tasks := s.tasks[c := NEW_TASK.(phase := Queued)])
  {
    steps', s' := OneStep(setup, base, steps, s, c);
    steps', s' := OneStep(setup, base, steps', s', c);
  }

  lemma {:induction false} RunUp(setup: Setup, base: Ledger, steps: seq<Step>, s: State, c: ID) returns (steps': seq<Step>, s': State)
    requires Reaches(setup, base, steps, s) && Ready(setup, c) && c in s.tasks
    requires s.tasks[c] == NEW_TASK && s.slot.None? && !s.cancelled
    ensures Reaches(setup, base, steps', s')
    ensures s'.tasks == s.tasks[c := Task(Running, Working, false, [])] && s'.slot == Some(c) && !s'.cancelled
    ensures s'.log == s.log + [Started(c)]
  {
    steps', s' := LineUp(setup, base, steps, s, c);
    steps', s' := OneStep(setup, base, steps', s', c);
    steps', s' := OneStep(setup, base, steps', s', c);
  }

  /** a outruns its budget and is abandoned; its slot is given back before it is reported done. */
  lemma {:induction false} Abandon(setup: Setup, base: Ledger, steps: seq<Step>, s: State, a: ID) returns (steps': seq<Step>, s': State)
    requires Reaches(setup, base, steps, s) && a in setup.byID && a in s.tasks && a in setup.bounded
    requires s.tasks[a] == Task(Running, Working, false, []) && s.slot == Some(a) && !s.cancelled
    ensures Reaches(setup, base, steps', s') && s'.tasks.Keys == s.tasks.Keys && s'.slot.None? && !s'.cancelled
    ensures s'.tasks[a].inner.Working? && forall d | d in s.tasks && d != a :: s'.tasks[d] == s.tasks[d]
    ensures s'.log == s.log
  {
    steps', s' := steps, s;
    Extend(setup, base, steps', s', Expire(a));
    steps', s' := steps' + [Expire(a)], Do(setup, s', Expire(a));
    Extend(setup, base, steps', s', GiveUp(a));
    steps', s' := steps' + [GiveUp(a)], Do(setup, s', GiveUp(a));
    Extend(setup, base, steps', s', Proceed(a));
    steps', s' := steps' + [Proceed(a)], Do(setup, s', Proceed(a));
  }

  /** The slot covers runOne, not Collect: an abandoned Expensive Collect can overlap the next one. */
  lemma {:induction false} AbandonedCollectOverlaps(setup: Setup, base: Ledger, a: ID, b: ID)
    requires Ready(setup, a) && Ready(setup, b) && a != b && a in setup.bounded
    ensures exists steps, s ::
              && Reaches(setup, base, steps, s) && a in s.tasks && b in s.tasks
              && s.tasks[a].inner.Working? && s.tasks[b].inner.Working? && !IsDone(s.log, a)
  {
    var s0 := Begin(setup, base);
    var steps1, s1 := RunUp(setup, base, [], s0, a);
    var steps2, s2 := Abandon(setup, base, steps1, s1, a);
    var steps3, s3 := RunUp(setup, base, steps2, s2, b);
    assert s3.log == [Started(a), Started(b)];
  }
}
