/** What each collector's ending leaves in the fact set, and when the whole set is determined. */
module RunnerOutcomes {
  import opened Basics
  import opened Ids
  import opened FactSet
  import opened Registry
  import opened Runner
  import opened RunnerMerge

  // ---------------------------------------------------------------- the shape of a history

  /** What a collector has written, by where it is and what Collect delivered. */
  ghost predicate HistoryOk(setup: Setup, c: ID, t: Task)
    requires c in setup.byID
  {
    match t.phase
    case Reporting(e) => Refusal(setup, c) == [] && exists p: Ledger :: t.inner == Delivered(Returned(Some(e), p)) && t.written == [Merge(p)]
    case Leaving(status) => EndingOk(setup, c, t, status)
    case Released(status) => EndingOk(setup, c, t, status)
    case Observed(status) => EndingOk(setup, c, t, status)
    case Closed(status) => EndingOk(setup, c, t, status)
    case Starting => t.written == []
    case _ => t.written == [] && Refusal(setup, c) == []
  }

  /** Skipped for a reason fixed before the run; timed out; or what Collect delivered. */
  ghost predicate EndingOk(setup: Setup, c: ID, t: Task, status: Status)
    requires c in setup.byID
  {
    match status
    case Skipped => t.written == Refusal(setup, c) && t.written != []
    case TimedOut => Refusal(setup, c) == [] && exists cause: Cause :: t.written == [Blame(Timeout, cause)]
    case _ => t.inner.Delivered? && t.written == Delivery(t.inner.outcome) && Refusal(setup, c) == [] && (status.OK? <==> Clean(t.inner.outcome))
  }

  function Refusal(setup: Setup, c: ID): seq<Write>
    requires c in setup.byID
  {
    if setup.LacksDependency(c) then [Blame(Internal, MissingDependency)]
    else if !setup.byID[c].requirement.SatisfiedBy(setup.euid) then [Blame(Permission, NotPrivileged)]
    else []
  }

  function Delivery(o: Outcome): seq<Write> {
    match o
    case Panicked(v) => [Blame(Internal, CollectorPanicked(v))]
    case Returned(error, p) => if error.None? then [Merge(p)] else [Merge(p), ReportWrite(error.value)]
  }

  predicate Clean(o: Outcome) { o.Returned? && o.error.None? }

  lemma {:induction false} ProceedHistory(setup: Setup, s: State, c: ID)
    requires c in setup.byID && c in s.tasks && CanProceed(setup, s, c) && HistoryOk(setup, c, s.tasks[c])
    ensures HistoryOk(setup, c, Perform(setup, s, c, ProceedMove(setup, s, c)).tasks[c])
  {
    var t := s.tasks[c];
    assert Perform(setup, s, c, ProceedMove(setup, s, c)).tasks[c].inner == ProceedMove(setup, s, c).inner;
    if t.phase.Reporting? {
      var p: Ledger :| t.inner == Delivered(Returned(Some(t.phase.error), p)) && t.written == [Merge(p)];
      assert t.written + [ReportWrite(t.phase.error)] == [Merge(p), ReportWrite(t.phase.error)];
    }
    if t.phase.Running? && t.inner.outcome.Returned? {
      assert t.written + [Merge(t.inner.outcome.private)] == [Merge(t.inner.outcome.private)];
    }
  }

  lemma {:induction false} GiveUpHistory(setup: Setup, s: State, c: ID)
    requires c in setup.byID && c in s.tasks && CanGiveUp(setup, s, c) && HistoryOk(setup, c, s.tasks[c])
    ensures HistoryOk(setup, c, Perform(setup, s, c, GiveUpMove(setup, s, c)).tasks[c])
  {
    var m := GiveUpMove(setup, s, c);
    assert s.tasks[c].written + [m.write.value] == [m.write.value];
  }

  ghost predicate HistoriesOk(setup: Setup, s: State) {
    forall c | c in s.tasks && c in setup.byID :: HistoryOk(setup, c, s.tasks[c]) && (s.tasks[c].phase.Reporting? ==> s.tasks[c].inner.Delivered?)
  }

  lemma {:induction false} StepHistories(setup: Setup, s: State, step: Step)
    requires Enabled(setup, s, step) && HistoriesOk(setup, s)
    ensures HistoriesOk(setup, Do(setup, s, step))
  {
    var s' := Do(setup, s, step);
    forall d | d in s'.tasks && d in setup.byID
      ensures HistoryOk(setup, d, s'.tasks[d]) && (s'.tasks[d].phase.Reporting? ==> s'.tasks[d].inner.Delivered?)
    {
      assert HistoryOk(setup, d, s.tasks[d]);
      match step
      case Proceed(c) => ProceedHistory(setup, s, c);
      case GiveUp(c) => GiveUpHistory(setup, s, c);
      case _ =>
    }
  }

  lemma {:induction false} ReachableHistories(setup: Setup, base: Ledger, steps: seq<Step>, s: State)
    requires Reaches(setup, base, steps, s)
    ensures HistoriesOk(setup, s)
  {
    if steps != [] {
      var n := |steps| - 1;
      var before :|
        && Reaches(setup, base, steps[..n], before)
        && Enabled(setup, before, steps[n])
        && s == Do(setup, before, steps[n]);
      ReachableHistories(setup, base, steps[..n], before);
      StepHistories(setup, before, steps[n]);
    }
  }

  // ---------------------------------------------------------------- ownership from what Collect returns

  /** The facts blamed on each collector are its own. */
  ghost predicate BlameOwned(setup: Setup, owner: ID -> Option<ID>) {
    forall c, id | c in setup.byID && id in setup.Blamed(c) :: owner(id) == Some(c)
  }

  /** Collect writes, and names in its error, only facts its collector owns. */
  ghost predicate OutcomeOwned(owner: ID -> Option<ID>, c: ID, o: Outcome) {
    o.Returned? ==>
      && (forall id | id in o.private.Mentioned() :: owner(id) == Some(c))
      && (o.error.Some? && o.error.value.Classified? ==> owner(o.error.value.error.fact) == Some(c))
  }

  ghost predicate ReturnsOwned(owner: ID -> Option<ID>, steps: seq<Step>) {
    forall k | 0 <= k < |steps| && steps[k].Return? :: OutcomeOwned(owner, steps[k].c, steps[k].outcome)
  }

  ghost predicate InnersOwned(owner: ID -> Option<ID>, s: State) {
    forall c | c in s.tasks && s.tasks[c].inner.Delivered? :: OutcomeOwned(owner, c, s.tasks[c].inner.outcome)
  }

  lemma {:induction false} InnersStayOwned(setup: Setup, owner: ID -> Option<ID>, base: Ledger, steps: seq<Step>, s: State)
    requires Reaches(setup, base, steps, s) && ReturnsOwned(owner, steps)
    ensures InnersOwned(owner, s)
  {
    if steps != [] {
      var n := |steps| - 1;
      var before :|
        && Reaches(setup, base, steps[..n], before)
        && Enabled(setup, before, steps[n])
        && s == Do(setup, before, steps[n]);
      assert forall k | 0 <= k < n :: steps[..n][k] == steps[k];
      InnersStayOwned(setup, owner, base, steps[..n], before);
      StepInnersOwned(setup, owner, before, steps[n]);
    }
  }

  lemma {:induction false} StepInnersOwned(setup: Setup, owner: ID -> Option<ID>, s: State, step: Step)
    requires Enabled(setup, s, step) && InnersOwned(owner, s)
    requires step.Return? ==> OutcomeOwned(owner, step.c, step.outcome)
    ensures InnersOwned(owner, Do(setup, s, step))
  {
    var s' := Do(setup, s, step);
    forall d | d in s'.tasks && s'.tasks[d].inner.Delivered? ensures OutcomeOwned(owner, d, s'.tasks[d].inner.outcome) {
      assert d in s.tasks;
      assert s'.tasks[d].inner == s.tasks[d].inner || (step.Return? && step.c == d && s'.tasks[d].inner == Delivered(step.outcome));
    }
  }

  /** So every write of every collector stays within what it owns. */
  lemma {:induction false} WritesAreOwned(setup: Setup, owner: ID -> Option<ID>, base: Ledger, steps: seq<Step>, s: State)
    requires BlameOwned(setup, owner) && ReturnsOwned(owner, steps) && Reaches(setup, base, steps, s)
    ensures TasksOwn(setup, owner, s)
  {
    InnersStayOwned(setup, owner, base, steps, s);
    ReachableHistories(setup, base, steps, s);
    forall c | c in s.tasks && c in setup.byID ensures forall k | 0 <= k < |s.tasks[c].written| :: Owns(setup, owner, c, s.tasks[c].written[k]) {
      assert HistoryOk(setup, c, s.tasks[c]);
      forall k | 0 <= k < |s.tasks[c].written| ensures Owns(setup, owner, c, s.tasks[c].written[k]) {
        WriteIsOwned(setup, owner, c, s.tasks[c], k);
      }
    }
  }

  lemma {:induction false} WriteIsOwned(setup: Setup, owner: ID -> Option<ID>, c: ID, t: Task, k: nat)
    requires c in setup.byID && k < |t.written| && HistoryOk(setup, c, t) && BlameOwned(setup, owner)
    requires t.inner.Delivered? ==> OutcomeOwned(owner, c, t.inner.outcome)
    ensures Owns(setup, owner, c, t.written[k])
  {
    assert forall id | id in Members(setup.Blamed(c)) :: owner(id) == Some(c);
  }

  /** Two runs in which every collector met the same end leave the same facts and errors. */
  lemma {:induction false} EveryScheduleAgrees(setup: Setup, owner: ID -> Option<ID>, base: Ledger,
      steps: seq<Step>, s: State, steps': seq<Step>, s': State)
    requires base.Valid() && BlameOwned(setup, owner)
    requires Reaches(setup, base, steps, s) && ReturnsOwned(owner, steps)
    requires Reaches(setup, base, steps', s') && ReturnsOwned(owner, steps')
    requires forall c | c in setup.byID && c in s.tasks && c in s'.tasks :: s.tasks[c].written == s'.tasks[c].written
    ensures s.fs == s'.fs
  {
    WritesAreOwned(setup, owner, base, steps, s);
    WritesAreOwned(setup, owner, base, steps', s');
    ScheduleIndependence(setup, owner, base, steps, s, steps', s');
  }

  // ---------------------------------------------------------------- gaps are always accounted for

  predicate NeverMerged(written: seq<Write>) {
    forall k | 0 <= k < |written| :: !written[k].Merge?
  }

  /**
   * A finished collector whose set was not merged (skipped, abandoned, timed out with an error, or
   * panicked) adds no fact, and leaves an error on everything it is blamed for.
   */
  lemma {:induction false} UnmergedLeavesErrors(setup: Setup, owner: ID -> Option<ID>, base: Ledger, steps: seq<Step>, s: State, c: ID, id: ID)
    requires base.Valid() && BlameOwned(setup, owner) && ReturnsOwned(owner, steps) && Reaches(setup, base, steps, s)
    requires c in setup.byID && Finished(s, c) && NeverMerged(s.tasks[c].written) && owner(id) == Some(c)
    ensures id in setup.Blamed(c) ==> s.fs.At(id).Failed? && s.fs.At(id).error.fact == id
    ensures id !in setup.Blamed(c) ==> s.fs.At(id) == base.At(id)
  {
    WritesAreOwned(setup, owner, base, steps, s);
    ReachableShowsOwner(setup, owner, base, steps, s, id);
    ReachableHistories(setup, base, steps, s);
    var t := s.tasks[c];
    assert HistoryOk(setup, c, t) && EndingOk(setup, c, t, t.phase.status);
    OnlyBlamed(setup, c, t);
    var w := t.written[0];
    assert t.written == [w] && t.written[..0] == [];
    assert CellsAfter(setup, c, t.written, id, base.At(id)) == CellAfter(setup, c, w, id, base.At(id));
  }

  lemma {:induction false} DeliveryMerges(o: Outcome)
    ensures |Delivery(o)| > 0 && (o.Returned? <==> Delivery(o)[0].Merge?)
  {
  }

  lemma {:induction false} OnlyBlamed(setup: Setup, c: ID, t: Task)
    requires c in setup.byID && t.phase.Closed? && EndingOk(setup, c, t, t.phase.status) && NeverMerged(t.written)
    ensures |t.written| == 1 && t.written[0].Blame?
  {
    if t.phase.status.OK? || t.phase.status.DidFail? {
      DeliveryMerges(t.inner.outcome);
    }
  }

  // ---------------------------------------------------------------- undisturbed runs

  /** Nothing was cancelled, nothing ran out of budget, and Collect behaved as told. */
  ghost predicate Undisturbed(behaviour: ID -> Outcome, steps: seq<Step>) {
    forall k | 0 <= k < |steps| ::
      && !steps[k].Cancel? && !steps[k].Expire?
      && (steps[k].Return? ==> steps[k].outcome == behaviour(steps[k].c))
  }

  ghost predicate Calm(behaviour: ID -> Outcome, s: State) {
    && !s.cancelled
    && forall c | c in s.tasks ::
         && !s.tasks[c].expired && NotTimedOut(s.tasks[c].phase)
         && (s.tasks[c].inner.Delivered? ==> s.tasks[c].inner.outcome == behaviour(c))
  }

  predicate NotTimedOut(p: Phase) {
    p.Leaving? || p.Released? || p.Observed? || p.Closed? ==> !p.status.TimedOut?
  }

  lemma {:induction false} StaysCalm(setup: Setup, behaviour: ID -> Outcome, base: Ledger, steps: seq<Step>, s: State)
    requires Reaches(setup, base, steps, s) && Undisturbed(behaviour, steps)
    ensures Calm(behaviour, s)
  {
    if steps != [] {
      var n := |steps| - 1;
      var before :|
        && Reaches(setup, base, steps[..n], before)
        && Enabled(setup, before, steps[n])
        && s == Do(setup, before, steps[n]);
      assert forall k | 0 <= k < n :: steps[..n][k] == steps[k];
      StaysCalm(setup, behaviour, base, steps[..n], before);
      StepStaysCalm(setup, behaviour, before, steps[n]);
    }
  }

  lemma {:induction false} StepStaysCalm(setup: Setup, behaviour: ID -> Outcome, s: State, step: Step)
    requires Enabled(setup, s, step) && Calm(behaviour, s) && !step.Cancel? && !step.Expire?
    requires step.Return? ==> step.outcome == behaviour(step.c)
    ensures Calm(behaviour, Do(setup, s, step))
  {
    var s' := Do(setup, s, step);
    assert s.tasks[step.c].expired == false;
    assert forall d | d in s.tasks && d != step.c :: s'.tasks[d] == s.tasks[d];
  }

  /** What a collector writes when nothing disturbs it. */
  function Expected(setup: Setup, c: ID, o: Outcome): seq<Write>
    requires c in setup.byID
  {
    if Refusal(setup, c) != [] then Refusal(setup, c) else Delivery(o)
  }

  /** Left alone, every interleaving of the collectors ends in the same facts and the same errors. */
  lemma {:induction false} UndisturbedRunsAgree(setup: Setup, owner: ID -> Option<ID>, behaviour: ID -> Outcome, base: Ledger,
      steps: seq<Step>, s: State, steps': seq<Step>, s': State)
    requires base.Valid() && BlameOwned(setup, owner) && forall c | c in setup.byID :: OutcomeOwned(owner, c, behaviour(c))
    requires Reaches(setup, base, steps, s) && Undisturbed(behaviour, steps) && Complete(s)
    requires Reaches(setup, base, steps', s') && Undisturbed(behaviour, steps') && Complete(s')
    ensures s.fs == s'.fs
    ensures forall c | c in setup.byID && c in s.tasks :: s.tasks[c].written == Expected(setup, c, behaviour(c))
  {
    ExpectedHistories(setup, owner, behaviour, base, steps, s);
    ExpectedHistories(setup, owner, behaviour, base, steps', s');
    ScheduleIndependence(setup, owner, base, steps, s, steps', s');
  }

  lemma {:induction false} ExpectedHistories(setup: Setup, owner: ID -> Option<ID>, behaviour: ID -> Outcome, base: Ledger, steps: seq<Step>, s: State)
    requires BlameOwned(setup, owner) && forall c | c in setup.byID :: OutcomeOwned(owner, c, behaviour(c))
    requires Reaches(setup, base, steps, s) && Undisturbed(behaviour, steps) && Complete(s)
    ensures TasksOwn(setup, owner, s)
    ensures forall c | c in setup.byID && c in s.tasks :: s.tasks[c].written == Expected(setup, c, behaviour(c))
  {
    StaysCalm(setup, behaviour, base, steps, s);
    ReachableHistories(setup, base, steps, s);
    forall c | c in setup.byID && c in s.tasks ensures s.tasks[c].written == Expected(setup, c, behaviour(c)) {
      assert HistoryOk(setup, c, s.tasks[c]) && NotTimedOut(s.tasks[c].phase);
    }
    forall c | c in s.tasks && c in setup.byID ensures forall k | 0 <= k < |s.tasks[c].written| :: Owns(setup, owner, c, s.tasks[c].written[k]) {
      forall k | 0 <= k < |s.tasks[c].written| ensures Owns(setup, owner, c, s.tasks[c].written[k]) {
        WriteIsOwned(setup, owner, c, s.tasks[c], k);
      }
    }
  }
}
