/** How each collector ends, read off the run: what it returned, and whether its time was up when that was taken. */
module RunnerEndings {
  import opened Basics
  import opened Ids
  import opened FactSet
  import opened Registry
  import opened Runner
  import opened RunnerSafety
  import opened RunnerMerge
  import opened RunnerOutcomes

  /** c answers for what it produces, and for its own name where it produces nothing. */
  predicate IsBlamed(setup: Setup, c: ID, id: ID)
    requires c in setup.byID
  {
    id in setup.byID[c].produces || (setup.byID[c].produces == [] && id == c)
  }

  // ---------------------------------------------------------------- time

  /** The scan was cancelled, or c's own budget ran out. */
  predicate Spent(steps: seq<Step>, c: ID) {
    Cancel in steps || Expire(c) in steps
  }

  lemma {:induction false} TimePasses(setup: Setup, s: State, step: Step, c: ID)
    requires Enabled(setup, s, step) && c in s.tasks
    ensures var s' := Do(setup, s, step);
            && (s'.cancelled <==> s.cancelled || step == Cancel)
            && c in s'.tasks && (s'.tasks[c].expired <==> s.tasks[c].expired || step == Expire(c))
  {
  }

  lemma {:induction false} TimeIsKnown(setup: Setup, base: Ledger, steps: seq<Step>, s: State, c: ID)
    requires Reaches(setup, base, steps, s) && c in setup.byID
    ensures s.cancelled <==> Cancel in steps
    ensures c in s.tasks && (s.tasks[c].expired <==> Expire(c) in steps)
  {
    if steps != [] {
      var before, step := LastStep(setup, base, steps, s);
      TimeIsKnown(setup, base, steps[..|steps| - 1], before, c);
      TimePasses(setup, before, step, c);
      InFrontOrLast(steps, Cancel);
      InFrontOrLast(steps, Expire(c));
    }
  }

  lemma {:induction false} LastStep(setup: Setup, base: Ledger, steps: seq<Step>, s: State) returns (before: State, step: Step)
    requires steps != [] && Reaches(setup, base, steps, s)
    ensures step == steps[|steps| - 1] && Reaches(setup, base, steps[..|steps| - 1], before) && Enabled(setup, before, step) && s == Do(setup, before, step)
  {
    step := steps[|steps| - 1];
    before :| Reaches(setup, base, steps[..|steps| - 1], before) && Enabled(setup, before, step) && s == Do(setup, before, step);
  }

  lemma {:induction false} InFrontOrLast(steps: seq<Step>, step: Step)
    requires steps != []
    ensures step in steps <==> step in steps[..|steps| - 1] || step == steps[|steps| - 1]
  {
    assert steps == steps[..|steps| - 1] + [steps[|steps| - 1]];
  }

  // ---------------------------------------------------------------- endings stay

  /** c has ended with this status, having written this. */
  ghost predicate Ended(s: State, c: ID, status: Status, written: seq<Write>) {
    c in s.tasks && s.tasks[c].written == written &&
    match s.tasks[c].phase
    case Leaving(st) => st == status
    case Released(st) => st == status
    case Observed(st) => st == status
    case Closed(st) => st == status
    case _ => false
  }

  /** c is about to report e, having written this. */
  ghost predicate Reports(s: State, c: ID, e: CollectError, written: seq<Write>) {
    c in s.tasks && s.tasks[c].phase == Reporting(e) && s.tasks[c].written == written
  }

  lemma {:induction false} StepKeepsEnding(setup: Setup, s: State, step: Step, c: ID, status: Status, written: seq<Write>)
    requires Enabled(setup, s, step) && Ended(s, c, status, written)
    ensures Ended(Do(setup, s, step), c, status, written)
  {
  }

  lemma {:induction false} EndingStays(setup: Setup, base: Ledger, steps: seq<Step>, s: State, k: nat, t: State, c: ID, status: Status, written: seq<Write>)
    requires Reaches(setup, base, steps, s) && k <= |steps| && Reaches(setup, base, steps[..k], t) && Ended(t, c, status, written)
    ensures Ended(s, c, status, written)
  {
    if k == |steps| {
      assert steps[..k] == steps;
      ReachesOnce(setup, base, steps, s, t);
    } else {
      var n := |steps| - 1;
      var before :| Reaches(setup, base, steps[..n], before) && Enabled(setup, before, steps[n]) && s == Do(setup, before, steps[n]);
      assert steps[..n][..k] == steps[..k];
      EndingStays(setup, base, steps[..n], before, k, t, c, status, written);
      StepKeepsEnding(setup, before, steps[n], c, status, written);
    }
  }

  /** What reporting an error writes: the error as the collector classified it, or an Internal one on all it is blamed for. */
  ghost predicate IsReport(e: CollectError, w: Write) {
    match e
    case Classified(error) => w == File(error)
    case Unclassified(text) => w == Blame(Internal, ReturnedUnclassified(text))
  }

  lemma {:induction false} ReportEnds(setup: Setup, base: Ledger, steps: seq<Step>, s: State, k: nat, t: State, c: ID, e: CollectError, written: seq<Write>)
    requires Reaches(setup, base, steps, s) && k <= |steps| && Reaches(setup, base, steps[..k], t) && Reports(t, c, e, written)
    ensures Reports(s, c, e, written) || exists w :: IsReport(e, w) && Ended(s, c, DidFail, written + [w])
  {
    if k == |steps| {
      assert steps[..k] == steps;
      ReachesOnce(setup, base, steps, s, t);
    } else {
      var n := |steps| - 1;
      var before :| Reaches(setup, base, steps[..n], before) && Enabled(setup, before, steps[n]) && s == Do(setup, before, steps[n]);
      assert steps[..n][..k] == steps[..k];
      ReportEnds(setup, base, steps[..n], before, k, t, c, e, written);
      StepFromReport(setup, before, steps[n], c, e, written);
    }
  }

  lemma {:induction false} StepFromReport(setup: Setup, s: State, step: Step, c: ID, e: CollectError, written: seq<Write>)
    requires Enabled(setup, s, step)
    requires Reports(s, c, e, written) || exists w :: IsReport(e, w) && Ended(s, c, DidFail, written + [w])
    ensures var s' := Do(setup, s, step); Reports(s', c, e, written) || exists w :: IsReport(e, w) && Ended(s', c, DidFail, written + [w])
  {
    var s' := Do(setup, s, step);
    if Reports(s, c, e, written) {
      if step == Proceed(c) {
        var w := s'.tasks[c].written[|written|];
        assert IsReport(e, w) && Ended(s', c, DidFail, written + [w]);
      }
    } else {
      var w :| IsReport(e, w) && Ended(s, c, DidFail, written + [w]);
      StepKeepsEnding(setup, s, step, c, DidFail, written + [w]);
    }
  }

  // ---------------------------------------------------------------- taking a result

  /** At the k-th step c takes what its Collect delivered. */
  ghost predicate Takes(setup: Setup, base: Ledger, steps: seq<Step>, k: nat, c: ID, o: Outcome) {
    k < |steps| && steps[k] == Proceed(c) &&
    exists t :: Reaches(setup, base, steps[..k], t) && c in t.tasks && t.tasks[c].phase.Running? && t.tasks[c].inner == Delivered(o)
  }

  /** What taking a result comes to in the end, given whether time was up. */
  ghost predicate ResultEnding(o: Outcome, spent: bool, cancelled: bool, status: Status, written: seq<Write>) {
    match o
    case Panicked(v) => status.DidFail? && written == [Blame(Internal, CollectorPanicked(v))]
    case Returned(error, p) =>
      if error.None? then status.OK? && written == [Merge(p)]
      else if spent then status.TimedOut? && written == [Blame(Timeout, OutOfTime(cancelled))]
      else status.DidFail? && |written| == 2 && written[0] == Merge(p) && IsReport(error.value, written[1])
  }

  /** What is reached by which steps, and what one step makes of what. */
  type Run = (seq<Step>, State) -> bool
  type Goes = (State, Step, State) -> bool

  ghost predicate GoesByStep(run: Run, goes: Goes) {
    forall steps: seq<Step>, s: State | steps != [] && run(steps, s) :: HasLast(run, goes, steps, s)
  }

  ghost predicate HasLast(run: Run, goes: Goes, steps: seq<Step>, s: State)
    requires steps != []
  {
    exists before :: GoesLast(run, goes, steps, before, s)
  }

  predicate GoesLast(run: Run, goes: Goes, steps: seq<Step>, before: State, s: State)
    requires steps != []
  {
    run(steps[..|steps| - 1], before) && goes(before, steps[|steps| - 1], s)
  }

  ghost predicate OnlyOne(run: Run) {
    forall steps: seq<Step>, s: State, t: State | run(steps, s) && run(steps, t) :: s == t
  }

  lemma {:induction false} StepWithin(run: Run, goes: Goes, steps: seq<Step>, s: State, k: nat, t: State)
    requires GoesByStep(run, goes) && OnlyOne(run) && run(steps, s) && k < |steps| && run(steps[..k], t)
    ensures exists next :: run(steps[..k + 1], next) && goes(t, steps[k], next)
  {
    var n := |steps| - 1;
    var before :| GoesLast(run, goes, steps, before, s);
    if k < n {
      assert steps[..n][..k] == steps[..k] && steps[..n][..k + 1] == steps[..k + 1];
      StepWithin(run, goes, steps[..n], before, k, t);
    } else {
      assert steps[..k + 1] == steps;
    }
  }

  ghost predicate Makes(setup: Setup, s: State, step: Step, next: State) { Enabled(setup, s, step) && next == Do(setup, s, step) }

  lemma {:induction false} StepAt(setup: Setup, base: Ledger, steps: seq<Step>, s: State, k: nat, t: State)
    requires Reaches(setup, base, steps, s) && k < |steps| && Reaches(setup, base, steps[..k], t)
    ensures Enabled(setup, t, steps[k]) && Reaches(setup, base, steps[..k + 1], Do(setup, t, steps[k]))
  {
    var run: Run := (steps: seq<Step>, s: State) => Reaches(setup, base, steps, s);
    var goes: Goes := (s: State, step: Step, next: State) => Makes(setup, s, step, next);
    forall steps: seq<Step>, s: State | steps != [] && run(steps, s)
      ensures HasLast(run, goes, steps, s)
    {
      var before, step := LastStep(setup, base, steps, s);
      assert GoesLast(run, goes, steps, before, s);
    }
    forall steps: seq<Step>, s: State, t: State | run(steps, s) && run(steps, t) ensures s == t {
      ReachesOnce(setup, base, steps, s, t);
    }
    StepWithin(run, goes, steps, s, k, t);
  }

  lemma {:induction false} AfterTaking(setup: Setup, s: State, c: ID, o: Outcome)
    requires Enabled(setup, s, Proceed(c)) && s.tasks[c].phase.Running? && s.tasks[c].inner == Delivered(o) && s.tasks[c].written == []
    ensures var s', spent := Do(setup, s, Proceed(c)), s.cancelled || s.tasks[c].expired;
            if o.Returned? && o.error.Some? && !spent then Reports(s', c, o.error.value, [Merge(o.private)])
            else exists status, written :: Ended(s', c, status, written) && ResultEnding(o, spent, s.cancelled, status, written)
  {
    var s' := Do(setup, s, Proceed(c));
    var spent := s.cancelled || s.tasks[c].expired;
    assert s'.tasks[c].written == [] + s'.tasks[c].written;
    if !(o.Returned? && o.error.Some? && !spent) {
      assert Ended(s', c, s'.tasks[c].phase.status, s'.tasks[c].written);
      assert ResultEnding(o, spent, s.cancelled, s'.tasks[c].phase.status, s'.tasks[c].written);
    }
  }

  /** A finished collector that took a result ended as the result and the time say. */
  lemma {:induction false} ResultDecides(setup: Setup, base: Ledger, steps: seq<Step>, s: State, k: nat, c: ID, o: Outcome)
    requires Reaches(setup, base, steps, s) && c in setup.byID && Finished(s, c) && Takes(setup, base, steps, k, c, o)
    ensures ResultEnding(o, Spent(steps[..k], c), Cancel in steps[..k], s.tasks[c].phase.status, s.tasks[c].written)
  {
    var t :| Reaches(setup, base, steps[..k], t) && c in t.tasks && t.tasks[c].phase.Running? && t.tasks[c].inner == Delivered(o);
    StepAt(setup, base, steps, s, k, t);
    TimeIsKnown(setup, base, steps[..k], t, c);
    ReachableHistories(setup, base, steps[..k], t);
    AfterTaking(setup, t, c, o);
    var next := Do(setup, t, Proceed(c));
    if o.Returned? && o.error.Some? && !Spent(steps[..k], c) {
      ReportEnds(setup, base, steps, s, k + 1, next, c, o.error.value, [Merge(o.private)]);
      var w :| IsReport(o.error.value, w) && Ended(s, c, DidFail, [Merge(o.private)] + [w]);
      assert ([Merge(o.private)] + [w])[1] == w;
    } else {
      var status, written :| Ended(next, c, status, written) && ResultEnding(o, Spent(steps[..k], c), Cancel in steps[..k], status, written);
      EndingStays(setup, base, steps, s, k + 1, next, c, status, written);
    }
  }

  // ---------------------------------------------------------------- giving up

  /** Why c stops waiting, by what it waits for. */
  ghost predicate GivesUpFor(setup: Setup, t: State, c: ID, cause: Cause)
    requires c in setup.byID && c in t.tasks
  {
    match t.tasks[c].phase
    case Waiting(i) => t.cancelled && i < |setup.Deps(c)| && cause == EndedWaitingFor(setup.Deps(c)[i])
    case Queued => t.cancelled && cause == EndedWaitingForSlot
    case Cleared => t.cancelled && cause == EndedBeforeStart
    case Running => (t.cancelled || t.tasks[c].expired) && cause == OutOfTime(t.cancelled)
    case _ => false
  }

  /** c gives up, or finds the scan cancelled before it starts. */
  ghost predicate Stops(t: State, step: Step, c: ID) {
    step == GiveUp(c) || (step == Proceed(c) && c in t.tasks && t.tasks[c].phase.Cleared? && t.cancelled)
  }

  ghost predicate TimedOutFor(setup: Setup, t: State, s: State, c: ID, cause: Cause)
    requires c in setup.byID && c in t.tasks
  {
    GivesUpFor(setup, t, c, cause) && Ended(s, c, TimedOut, [Blame(Timeout, cause)])
  }

  lemma {:induction false} StoppingTimesOut(setup: Setup, t: State, step: Step, c: ID) returns (cause: Cause)
    requires c in setup.byID && Enabled(setup, t, step) && Stops(t, step, c) && HistoryOk(setup, c, t.tasks[c])
    ensures c in t.tasks && TimedOutFor(setup, t, Do(setup, t, step), c, cause)
  {
    var next := Do(setup, t, step);
    var w := next.tasks[c].written[0];
    assert next.tasks[c].written == [w];
    cause := w.cause;
  }

  /** A collector that gives up, or finds the scan cancelled before it starts, times out for the reason it was waiting for. */
  lemma {:induction false} GivingUpTimesOut(setup: Setup, base: Ledger, steps: seq<Step>, s: State, k: nat, t: State, c: ID)
    requires Reaches(setup, base, steps, s) && c in setup.byID && k < |steps| && Reaches(setup, base, steps[..k], t)
    requires Stops(t, steps[k], c)
    ensures c in t.tasks && exists cause :: TimedOutFor(setup, t, s, c, cause)
  {
    StepAt(setup, base, steps, s, k, t);
    ReachableHistories(setup, base, steps[..k], t);
    var cause := StoppingTimesOut(setup, t, steps[k], c);
    EndingStays(setup, base, steps, s, k + 1, Do(setup, t, steps[k]), c, TimedOut, [Blame(Timeout, cause)]);
    assert TimedOutFor(setup, t, s, c, cause);
  }

  /** Once the scan is cancelled nobody needs a Collect to return: every unfinished collector has a step of its own. */
  lemma {:induction false} CancelledScanEnds(setup: Setup, base: Ledger, steps: seq<Step>, s: State, c: ID)
    requires Reaches(setup, base, steps, s) && c in setup.byID && s.cancelled && !Finished(s, c)
    ensures Enabled(setup, s, Proceed(c)) || Enabled(setup, s, GiveUp(c))
  {
    TimeIsKnown(setup, base, steps, s, c);
  }

  // ---------------------------------------------------------------- not starting at all

  /** Some dependency was never registered. */
  ghost predicate Orphaned(setup: Setup, c: ID)
    requires c in setup.byID
  {
    exists d :: d in setup.byID[c].dependsOn && d !in setup.byID
  }

  /** c needs nothing, or root and has it; an unknown requirement is never met. */
  predicate Privileged(setup: Setup, c: ID)
    requires c in setup.byID
  {
    setup.byID[c].requirement == CapNone || (setup.byID[c].requirement == CapRoot && setup.euid == 0)
  }

  /** A collector is skipped exactly when a dependency is unregistered or its privilege is missing, the first reason counting. */
  lemma {:induction false} SkippedExactlyWhen(setup: Setup, base: Ledger, steps: seq<Step>, s: State, c: ID)
    requires Reaches(setup, base, steps, s) && c in setup.byID && Finished(s, c)
    ensures s.tasks[c].phase == Phase.Closed(Skipped) <==> Orphaned(setup, c) || !Privileged(setup, c)
    ensures Orphaned(setup, c) ==> s.tasks[c].written == [Blame(Internal, MissingDependency)]
    ensures !Orphaned(setup, c) && !Privileged(setup, c) ==> s.tasks[c].written == [Blame(Permission, NotPrivileged)]
  {
    ReachableHistories(setup, base, steps, s);
    assert HistoryOk(setup, c, s.tasks[c]);
    assert setup.LacksDependency(c) <==> Orphaned(setup, c);
  }

  /** Every fact a skipped collector is blamed for holds that reason as its error. */
  lemma {:induction false} SkippedLeavesErrors(setup: Setup, owner: ID -> Option<ID>, base: Ledger, steps: seq<Step>, s: State, c: ID, id: ID)
    requires base.Valid() && BlameOwned(setup, owner) && ReturnsOwned(owner, steps) && Reaches(setup, base, steps, s)
    requires c in setup.byID && Finished(s, c) && owner(id) == Some(c) && (Orphaned(setup, c) || !Privileged(setup, c))
    ensures var kind, cause := if Orphaned(setup, c) then Internal else Permission, if Orphaned(setup, c) then MissingDependency else NotPrivileged;
            s.fs.At(id) == if IsBlamed(setup, c, id) then Failed(Error(id, kind, setup.say(c, cause), "")) else base.At(id)
  {
    SkippedExactlyWhen(setup, base, steps, s, c);
    WritesAreOwned(setup, owner, base, steps, s);
    ReachableShowsOwner(setup, owner, base, steps, s, id);
    OneWrite(setup, c, s.tasks[c].written[0], id, base.At(id));
    assert s.tasks[c].written == [s.tasks[c].written[0]];
  }

  // ---------------------------------------------------------------- what the checks find

  /** An error returned too late counts for nothing: no fact of that Collect is kept, and all it is blamed for timed out. */
  lemma {:induction false} LateErrorIsTimeout(setup: Setup, owner: ID -> Option<ID>, base: Ledger, steps: seq<Step>, s: State,
      k: nat, c: ID, e: CollectError, p: Ledger, id: ID)
    requires base.Valid() && BlameOwned(setup, owner) && ReturnsOwned(owner, steps) && Reaches(setup, base, steps, s)
    requires c in setup.byID && Finished(s, c) && owner(id) == Some(c)
    requires Takes(setup, base, steps, k, c, Returned(Some(e), p)) && Spent(steps[..k], c)
    ensures s.tasks[c].phase == Phase.Closed(TimedOut) && forall w | w in s.tasks[c].written :: !w.Merge?
    ensures s.fs.At(id) == if IsBlamed(setup, c, id) then Failed(Error(id, Timeout, setup.say(c, OutOfTime(Cancel in steps[..k])), "")) else base.At(id)
  {
    ResultDecides(setup, base, steps, s, k, c, Returned(Some(e), p));
    WritesAreOwned(setup, owner, base, steps, s);
    ReachableShowsOwner(setup, owner, base, steps, s, id);
    OneWrite(setup, c, s.tasks[c].written[0], id, base.At(id));
    assert s.tasks[c].written == [s.tasks[c].written[0]];
  }

  lemma {:induction false} OneWrite(setup: Setup, c: ID, w: Write, id: ID, before: Cell)
    requires c in setup.byID
    ensures CellsAfter(setup, c, [w], id, before) == CellAfter(setup, c, w, id, before)
  {
    assert [w][..0] == [];
  }

  lemma {:induction false} TwoWrites(setup: Setup, c: ID, w: Write, x: Write, id: ID, before: Cell)
    requires c in setup.byID
    ensures CellsAfter(setup, c, [w, x], id, before) == CellAfter(setup, c, x, id, CellAfter(setup, c, w, id, before))
  {
    assert [w, x][..1] == [w];
    OneWrite(setup, c, w, id, before);
  }

  /** An error returned in time leaves what Collect wrote, under the error. */
  lemma {:induction false} ErrorInTimeIsFiled(setup: Setup, owner: ID -> Option<ID>, base: Ledger, steps: seq<Step>, s: State,
      k: nat, c: ID, e: CollectError, p: Ledger, id: ID)
    requires base.Valid() && BlameOwned(setup, owner) && ReturnsOwned(owner, steps) && Reaches(setup, base, steps, s)
    requires c in setup.byID && Finished(s, c) && owner(id) == Some(c)
    requires Takes(setup, base, steps, k, c, Returned(Some(e), p)) && !Spent(steps[..k], c)
    ensures s.tasks[c].phase == Phase.Closed(DidFail)
    ensures s.fs.At(id) ==
              if e.Classified? && id == e.error.fact then Failed(e.error)
              else if e.Unclassified? && IsBlamed(setup, c, id) then Failed(Error(id, Internal, setup.say(c, ReturnedUnclassified(e.text)), ""))
              else if id in p.Mentioned() then p.At(id)
              else base.At(id)
  {
    ResultDecides(setup, base, steps, s, k, c, Returned(Some(e), p));
    WritesAreOwned(setup, owner, base, steps, s);
    ReachableShowsOwner(setup, owner, base, steps, s, id);
    var written := s.tasks[c].written;
    assert written == [written[0], written[1]];
    TwoWrites(setup, c, written[0], written[1], id, base.At(id));
  }

  /** A Collect that returned without an error leaves what it wrote, whatever the time. */
  lemma {:induction false} CleanReturnIsMerged(setup: Setup, owner: ID -> Option<ID>, base: Ledger, steps: seq<Step>, s: State,
      k: nat, c: ID, p: Ledger, id: ID)
    requires base.Valid() && BlameOwned(setup, owner) && ReturnsOwned(owner, steps) && Reaches(setup, base, steps, s)
    requires c in setup.byID && Finished(s, c) && owner(id) == Some(c)
    requires Takes(setup, base, steps, k, c, Returned(None, p))
    ensures s.tasks[c].phase == Phase.Closed(OK)
    ensures s.fs.At(id) == if id in p.Mentioned() then p.At(id) else base.At(id)
  {
    ResultDecides(setup, base, steps, s, k, c, Returned(None, p));
    WritesAreOwned(setup, owner, base, steps, s);
    ReachableShowsOwner(setup, owner, base, steps, s, id);
    OneWrite(setup, c, Merge(p), id, base.At(id));
  }
}
