/** What ends up in the shared fact set does not depend on the schedule. */
module RunnerMerge {
  import opened Basics
  import opened Ids
  import opened FactSet
  import opened Registry
  import opened Runner
  import opened RunnerSafety

  // ---------------------------------------------------------------- one write, seen from one fact

  /** What the check finds under id after c's write, given what it would have found before. */
  function CellAfter(setup: Setup, c: ID, w: Write, id: ID, before: Cell): Cell
    requires c in setup.byID
  {
    match w
    case Blame(kind, cause) => if id in setup.Blamed(c) then Failed(Error(id, kind, setup.say(c, cause), "")) else before
    case Merge(private) => if id in private.Mentioned() then private.At(id) else before
    case File(error) => if id == error.fact then Failed(error) else before
  }

  ghost predicate WriteValid(w: Write) { w.Merge? ==> w.private.Valid() }

  /** The IDs a write may touch. */
  function Touches(setup: Setup, c: ID, w: Write): set<ID>
    requires c in setup.byID
  {
    match w
    case Blame(_, _) => Members(setup.Blamed(c))
    case Merge(private) => private.Mentioned()
    case File(error) => {error.fact}
  }

  lemma {:induction false} BlameCell(ids: seq<ID>, kind: ErrorKind, msg: string, l: Ledger, id: ID)
    requires l.Valid()
    ensures BlameAll(ids, kind, msg, l).Valid()
    ensures BlameAll(ids, kind, msg, l).At(id) == if id in ids then Failed(Error(id, kind, msg, "")) else l.At(id)
  {
    if ids != [] {
      assert ids == [ids[0]] + ids[1..];
      var next := l.PutError(Error(ids[0], kind, msg, ""));
      assert next.Valid();
      BlameCell(ids[1..], kind, msg, next, id);
    }
  }

  lemma {:induction false} ApplyCell(setup: Setup, c: ID, w: Write, l: Ledger, id: ID)
    requires c in setup.byID && l.Valid() && WriteValid(w)
    ensures Apply(setup, c, w, l).Valid()
    ensures Apply(setup, c, w, l).At(id) == CellAfter(setup, c, w, id, l.At(id))
    ensures id !in Touches(setup, c, w) ==> Apply(setup, c, w, l).At(id) == l.At(id)
  {
    match w
    case Blame(kind, cause) => BlameCell(setup.Blamed(c), kind, setup.say(c, cause), l, id);
    case Merge(private) => OverlayCell(l, private, id);
    case File(error) => assert l.PutError(error).Valid();
  }

  /** c's writes one after another, seen from one fact. */
  function CellsAfter(setup: Setup, c: ID, written: seq<Write>, id: ID, before: Cell): Cell
    requires c in setup.byID
  {
    if written == [] then before
    else
      var n := |written| - 1;
      CellAfter(setup, c, written[n], id, CellsAfter(setup, c, written[..n], id, before))
  }

  // ---------------------------------------------------------------- ownership

  /** Each collector's facts are its own: what it is blamed for and what it writes. */
  ghost predicate Owns(setup: Setup, owner: ID -> Option<ID>, c: ID, w: Write)
    requires c in setup.byID
  {
    forall id | id in Touches(setup, c, w) :: owner(id) == Some(c)
  }

  ghost predicate TasksOwn(setup: Setup, owner: ID -> Option<ID>, s: State) {
    forall c | c in s.tasks && c in setup.byID :: forall k | 0 <= k < |s.tasks[c].written| :: Owns(setup, owner, c, s.tasks[c].written[k])
  }

  // ---------------------------------------------------------------- every schedule agrees

  /** Under one fact, the shared set shows its owner's writes on top of what was there. */
  ghost predicate ShowsOwner(setup: Setup, owner: ID -> Option<ID>, base: Ledger, s: State, id: ID) {
    s.fs.At(id) ==
      match owner(id)
      case Some(c) =>
        if c in s.tasks && c in setup.byID then CellsAfter(setup, c, s.tasks[c].written, id, base.At(id)) else base.At(id)
      case None => base.At(id)
  }

  ghost predicate WritesValid(s: State) {
    forall c | c in s.tasks :: TaskValid(s.tasks[c])
  }

  ghost predicate TaskValid(t: Task) {
    && (forall k | 0 <= k < |t.written| :: WriteValid(t.written[k]))
    && (t.inner.Delivered? && t.inner.outcome.Returned? ==> t.inner.outcome.private.Valid())
  }

  lemma {:induction false} PerformShows(setup: Setup, owner: ID -> Option<ID>, base: Ledger, s: State, c: ID, m: Move, id: ID)
    requires c in setup.byID && c in s.tasks && s.fs.Valid()
    requires m.write.Some? ==> WriteValid(m.write.value) && Owns(setup, owner, c, m.write.value)
    requires ShowsOwner(setup, owner, base, s, id)
    ensures Perform(setup, s, c, m).fs.Valid()
    ensures ShowsOwner(setup, owner, base, Perform(setup, s, c, m), id)
  {
    if m.write.Some? {
      var w := m.write.value;
      ApplyCell(setup, c, w, s.fs, id);
      var written := s.tasks[c].written;
      assert (written + [w])[..|written|] == written;
    }
  }

  /** The move a step makes, if it is one of a collector's own goroutine. */
  function MoveOf(setup: Setup, s: State, step: Step): Option<Move>
    requires (step.Proceed? || step.GiveUp?) ==> step.c in setup.byID && step.c in s.tasks
    requires step.Proceed? ==> CanProceed(setup, s, step.c)
    requires step.GiveUp? ==> CanGiveUp(setup, s, step.c)
  {
    match step
    case Proceed(c) => Some(ProceedMove(setup, s, c))
    case GiveUp(c) => Some(GiveUpMove(setup, s, c))
    case _ => None
  }

  lemma {:induction false} ProceedWritesValid(setup: Setup, s: State, c: ID)
    requires c in setup.byID && c in s.tasks && CanProceed(setup, s, c) && TaskValid(s.tasks[c])
    ensures var m := ProceedMove(setup, s, c); (m.write.Some? ==> WriteValid(m.write.value)) && (m.inner == s.tasks[c].inner || m.inner.Working?)
  {
  }

  lemma {:induction false} GiveUpWritesValid(setup: Setup, s: State, c: ID)
    requires c in setup.byID && c in s.tasks && CanGiveUp(setup, s, c)
    ensures var m := GiveUpMove(setup, s, c); m.write.Some? && WriteValid(m.write.value) && m.inner == s.tasks[c].inner
  {
  }

  lemma {:induction false} MoveWritesValid(setup: Setup, s: State, step: Step)
    requires Enabled(setup, s, step) && WritesValid(s)
    ensures var m := MoveOf(setup, s, step);
            m.Some? ==> (m.value.write.Some? ==> WriteValid(m.value.write.value)) && (m.value.inner == s.tasks[step.c].inner || m.value.inner.Working?)
  {
    if step.Proceed? { ProceedWritesValid(setup, s, step.c); }
    if step.GiveUp? { GiveUpWritesValid(setup, s, step.c); }
  }

  lemma {:induction false} PerformKeepsValid(setup: Setup, s: State, c: ID, m: Move)
    requires c in setup.byID && c in s.tasks && WritesValid(s)
    requires (m.write.Some? ==> WriteValid(m.write.value)) && (m.inner == s.tasks[c].inner || m.inner.Working?)
    ensures WritesValid(Perform(setup, s, c, m))
  {
    assert TaskValid(s.tasks[c]);
    assert TaskValid(Perform(setup, s, c, m).tasks[c]);
  }

  lemma {:induction false} StepWritesValid(setup: Setup, s: State, step: Step)
    requires Enabled(setup, s, step) && WritesValid(s)
    ensures WritesValid(Do(setup, s, step))
    ensures var m := MoveOf(setup, s, step); m.Some? && m.value.write.Some? ==> WriteValid(m.value.write.value)
  {
    MoveWritesValid(setup, s, step);
    var m := MoveOf(setup, s, step);
    if m.Some? { PerformKeepsValid(setup, s, step.c, m.value); }
  }

  /** Histories only grow, so what they hold at the end they held before. */
  lemma {:induction false} OwnedBefore(setup: Setup, owner: ID -> Option<ID>, s: State, step: Step)
    requires Enabled(setup, s, step) && TasksOwn(setup, owner, Do(setup, s, step))
    ensures TasksOwn(setup, owner, s)
    ensures var m := MoveOf(setup, s, step); m.Some? && m.value.write.Some? ==> Owns(setup, owner, step.c, m.value.write.value)
  {
    var s' := Do(setup, s, step);
    forall c | c in s.tasks && c in setup.byID
      ensures forall k | 0 <= k < |s.tasks[c].written| :: Owns(setup, owner, c, s.tasks[c].written[k])
    {
      forall k | 0 <= k < |s.tasks[c].written| ensures Owns(setup, owner, c, s.tasks[c].written[k]) {
        assert s'.tasks[c].written[k] == s.tasks[c].written[k];
      }
    }
    var m := MoveOf(setup, s, step);
    if m.Some? && m.value.write.Some? {
      var n := |s.tasks[step.c].written|;
      assert s'.tasks[step.c].written[n] == m.value.write.value;
    }
  }

  lemma {:induction false} ReachableShowsOwner(setup: Setup, owner: ID -> Option<ID>, base: Ledger, steps: seq<Step>, s: State, id: ID)
    requires base.Valid() && Reaches(setup, base, steps, s) && TasksOwn(setup, owner, s)
    ensures s.fs.Valid() && WritesValid(s) && s.tasks.Keys == setup.byID.Keys
    ensures ShowsOwner(setup, owner, base, s, id)
  {
    ReachableIsSafe(setup, base, steps, s);
    if steps != [] {
      var n := |steps| - 1;
      var before :|
        && Reaches(setup, base, steps[..n], before)
        && Enabled(setup, before, steps[n])
        && s == Do(setup, before, steps[n]);
      OwnedBefore(setup, owner, before, steps[n]);
      ReachableShowsOwner(setup, owner, base, steps[..n], before, id);
      StepWritesValid(setup, before, steps[n]);
      StepShowsOwner(setup, owner, base, before, steps[n], id);
    }
  }

  lemma {:induction false} StepShowsOwner(setup: Setup, owner: ID -> Option<ID>, base: Ledger, s: State, step: Step, id: ID)
    requires Enabled(setup, s, step) && s.fs.Valid() && ShowsOwner(setup, owner, base, s, id)
    requires var m := MoveOf(setup, s, step);
             m.Some? && m.value.write.Some? ==> WriteValid(m.value.write.value) && Owns(setup, owner, step.c, m.value.write.value)
    ensures Do(setup, s, step).fs.Valid() && ShowsOwner(setup, owner, base, Do(setup, s, step), id)
  {
    match step
    case Proceed(c) => PerformShows(setup, owner, base, s, c, ProceedMove(setup, s, c), id);
    case GiveUp(c) => PerformShows(setup, owner, base, s, c, GiveUpMove(setup, s, c), id);
    case _ =>
  }

  /** Two runs in which every collector made the same writes end on the same facts and errors. */
  lemma {:induction false} ScheduleIndependence(setup: Setup, owner: ID -> Option<ID>, base: Ledger,
      steps: seq<Step>, s: State, steps': seq<Step>, s': State)
    requires base.Valid() && Reaches(setup, base, steps, s) && Reaches(setup, base, steps', s')
    requires TasksOwn(setup, owner, s) && TasksOwn(setup, owner, s')
    requires forall c | c in setup.byID && c in s.tasks && c in s'.tasks :: s.tasks[c].written == s'.tasks[c].written
    ensures s.fs == s'.fs
  {
    forall id ensures s.fs.At(id) == s'.fs.At(id) {
      ReachableShowsOwner(setup, owner, base, steps, s, id);
      ReachableShowsOwner(setup, owner, base, steps', s', id);
    }
    ReachableShowsOwner(setup, owner, base, steps, s, ID(""));
    ReachableShowsOwner(setup, owner, base, steps', s', ID(""));
    SameCells(s.fs, s'.fs);
  }
}
