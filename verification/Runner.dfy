/**
 * The concurrent runner (internal/collect/runner.go) as a step relation.
 *
 * Each registered collector has one goroutine. A step is one goroutine moving on, a Collect call
 * returning, a collector's own budget running out, or the scan being cancelled; any of those that is
 * enabled may happen next. Every step that touches the shared fact set does so under the mutex.
 */
module Runner {
  import opened Basics
  import opened Ids
  import opened FactSet
  import opened Registry

  datatype Status = OK | DidFail | Skipped | TimedOut

  /** What a Collect call returned as its error. */
  datatype CollectError = Classified(error: Error) | Unclassified(text: string)

  datatype Outcome = Panicked(value: string) | Returned(error: Option<CollectError>, private: Ledger)

  /** The goroutine Collect runs in. It outlives an abandoned collector. */
  datatype Inner = NotStarted | Working | Delivered(outcome: Outcome)

  /** Where a collector's own goroutine is. Leaving runs the deferred calls: slot, observer, done. */
  datatype Phase =
    | Starting
    | Waiting(next: nat)
    | Queued
    | Cleared
    | Running
    | Reporting(error: CollectError)
    | Leaving(status: Status)
    | Released(status: Status)
    | Observed(status: Status)
    | Closed(status: Status)

  /** Why the runner blames a collector's facts. */
  datatype Cause =
    | MissingDependency
    | NotPrivileged
    | EndedWaitingFor(dependency: ID)
    | EndedWaitingForSlot
    | EndedBeforeStart
    | CollectorPanicked(value: string)
    | OutOfTime(scanCancelled: bool)
    | ReturnedUnclassified(text: string)

  /** One change of the shared set, made under the mutex. */
  datatype Write = Blame(kind: ErrorKind, cause: Cause) | Merge(private: Ledger) | File(error: Error)

  datatype Task = Task(phase: Phase, inner: Inner, expired: bool, written: seq<Write>)

  datatype Event = Started(id: ID) | Done(id: ID, status: Status)

  datatype State = State(tasks: map<ID, Task>, cancelled: bool, slot: Option<ID>, fs: Ledger, log: seq<Event>)

  /** What stays fixed during a run; say renders a cause as a message. */
  datatype Setup = Setup(byID: Collectors, euid: int, bounded: set<ID>, say: (ID, Cause) -> string) {
    function Deps(c: ID): seq<ID>
      requires c in byID
    {
      byID[c].dependsOn
    }

    predicate LacksDependency(c: ID)
      requires c in byID
    {
      exists d | d in Deps(c) :: d !in byID
    }

    predicate IsExpensive(c: ID)
      requires c in byID
    {
      byID[c].cost == Expensive
    }

    /** The facts a failure of c is filed against. */
    function Blamed(c: ID): seq<ID>
      requires c in byID
    {
      if byID[c].produces != [] then byID[c].produces else [c]
    }
  }

  function BlameAll(ids: seq<ID>, kind: ErrorKind, msg: string, l: Ledger): Ledger {
    if ids == [] then l else BlameAll(ids[1..], kind, msg, l.PutError(Error(ids[0], kind, msg, "")))
  }

  function Apply(setup: Setup, c: ID, w: Write, l: Ledger): Ledger
    requires c in setup.byID
  {
    match w
    case Blame(kind, cause) => BlameAll(setup.Blamed(c), kind, setup.say(c, cause), l)
    case Merge(private) => l.Overlay(private)
    case File(error) => l.PutError(error)
  }

  /** record: file one error against every fact c is responsible for. */
  method Record(setup: Setup, c: ID, kind: ErrorKind, cause: Cause, fs: Set)
    requires c in setup.byID && fs.Contents().Valid()
    modifies fs
    ensures fs.Contents().Valid()
    ensures fs.Contents() == Apply(setup, c, Blame(kind, cause), old(fs.Contents()))
  {
    var ids, msg := setup.Blamed(c), setup.say(c, cause);
    for k := 0 to |ids|
      invariant fs.Contents().Valid()
      invariant BlameAll(ids[k..], kind, msg, fs.Contents()) == BlameAll(ids, kind, msg, old(fs.Contents()))
    {
      assert ids[k..][1..] == ids[k + 1..];
      fs.PutError(Error(ids[k], kind, msg, ""));
    }
  }

  /** recordCollectorError: a fact.Error as written, anything else against all of c's facts. */
  method RecordCollectorError(setup: Setup, c: ID, e: CollectError, fs: Set)
    requires c in setup.byID && fs.Contents().Valid()
    modifies fs
    ensures fs.Contents().Valid()
    ensures fs.Contents() == Apply(setup, c, ReportWrite(e), old(fs.Contents()))
  {
    match e
    case Classified(error) => fs.PutError(error);
    case Unclassified(text) => Record(setup, c, Internal, ReturnedUnclassified(text), fs);
  }

  // ---------------------------------------------------------------- steps

  datatype Step =
    | Cancel
    | Expire(c: ID)
    | Return(c: ID, outcome: Outcome)
    | Proceed(c: ID)
    | GiveUp(c: ID)

  /** What one goroutine's step changes. */
  datatype Move = Move(phase: Phase, inner: Inner, slot: Option<ID>, write: Option<Write>, event: Option<Event>)

  /** The collector's own context is done. */
  predicate OutOfBudget(s: State, t: Task) {
    s.cancelled || t.expired
  }

  predicate Finished(s: State, d: ID) {
    d in s.tasks && s.tasks[d].phase.Closed?
  }

  predicate CanProceed(setup: Setup, s: State, c: ID)
    requires c in setup.byID && c in s.tasks
  {
    match s.tasks[c].phase
    case Waiting(i) => i >= |setup.Deps(c)| || setup.Deps(c)[i] !in setup.byID || Finished(s, setup.Deps(c)[i])
    case Queued => s.slot.None?
    case Running => s.tasks[c].inner.Delivered?
    case Closed(_) => false
    case _ => true
  }

  predicate CanGiveUp(setup: Setup, s: State, c: ID)
    requires c in setup.byID && c in s.tasks
  {
    match s.tasks[c].phase
    case Waiting(i) => s.cancelled && i < |setup.Deps(c)| && setup.Deps(c)[i] in setup.byID
    case Queued => s.cancelled
    case Running => OutOfBudget(s, s.tasks[c])
    case _ => false
  }

  function Leave(s: State, t: Task, status: Status, write: Option<Write>): Move {
    Move(Leaving(status), t.inner, s.slot, write, None)
  }

  function GoTo(s: State, t: Task, phase: Phase): Move {
    Move(phase, t.inner, s.slot, None, None)
  }

  function Refuse(s: State, t: Task, kind: ErrorKind, cause: Cause, status: Status): Move {
    Leave(s, t, status, Some(Blame(kind, cause)))
  }

  function ProceedMove(setup: Setup, s: State, c: ID): Move
    requires c in setup.byID && c in s.tasks && CanProceed(setup, s, c)
  {
    var t := s.tasks[c];
    match t.phase
    case Starting =>
      if setup.LacksDependency(c) then Refuse(s, t, Internal, MissingDependency, Skipped)
      else if !setup.byID[c].requirement.SatisfiedBy(setup.euid) then Refuse(s, t, Permission, NotPrivileged, Skipped)
      else GoTo(s, t, Waiting(0))
    case Waiting(i) =>
      if i < |setup.Deps(c)| then GoTo(s, t, Waiting(i + 1))
      else GoTo(s, t, if setup.IsExpensive(c) then Queued else Cleared)
    case Queued => Move(Cleared, t.inner, Some(c), None, None)
    case Cleared =>
      if s.cancelled then Refuse(s, t, Timeout, EndedBeforeStart, TimedOut)
      else Move(Running, Working, s.slot, None, Some(Started(c)))
    case Running => TakeResult(s, t, t.inner.outcome)
    case Reporting(e) => Leave(s, t, DidFail, Some(ReportWrite(e)))
    case Leaving(status) => Move(Released(status), t.inner, if s.slot == Some(c) then None else s.slot, None, None)
    case Released(status) => Move(Observed(status), t.inner, s.slot, None, Some(Done(c, status)))
    case Observed(status) => GoTo(s, t, Phase.Closed(status))
  }

  /** The first case of runOne's select. */
  function TakeResult(s: State, t: Task, outcome: Outcome): Move {
    match outcome
    case Panicked(v) => Refuse(s, t, Internal, CollectorPanicked(v), DidFail)
    case Returned(error, private) =>
      if OutOfBudget(s, t) && error.Some? then Refuse(s, t, Timeout, OutOfTime(s.cancelled), TimedOut)
      else if error.Some? then Move(Reporting(error.value), t.inner, s.slot, Some(Merge(private)), None)
      else Leave(s, t, OK, Some(Merge(private)))
  }

  function ReportWrite(e: CollectError): Write {
    match e
    case Classified(error) => File(error)
    case Unclassified(text) => Blame(Internal, ReturnedUnclassified(text))
  }

  function GiveUpMove(setup: Setup, s: State, c: ID): Move
    requires c in setup.byID && c in s.tasks && CanGiveUp(setup, s, c)
  {
    var t := s.tasks[c];
    match t.phase
    case Waiting(i) => Refuse(s, t, Timeout, EndedWaitingFor(setup.Deps(c)[i]), TimedOut)
    case Queued => Refuse(s, t, Timeout, EndedWaitingForSlot, TimedOut)
    case Running => Refuse(s, t, Timeout, OutOfTime(s.cancelled), TimedOut)
  }

  function Perform(setup: Setup, s: State, c: ID, m: Move): State
    requires c in setup.byID && c in s.tasks
  {
    var t := s.tasks[c];
    var written := if m.write.Some? then t.written + [m.write.value] else t.written;
    State(
      s.tasks[c := Task(m.phase, m.inner, t.expired, written)],
      s.cancelled,
      m.slot,
      if m.write.Some? then Apply(setup, c, m.write.value, s.fs) else s.fs,
      if m.event.Some? then s.log + [m.event.value] else s.log)
  }

  ghost predicate Enabled(setup: Setup, s: State, step: Step) {
    match step
    case Cancel => !s.cancelled
    case Expire(c) => c in setup.byID && c in s.tasks && s.tasks[c].phase.Running? && c in setup.bounded && !s.tasks[c].expired
    case Return(c, outcome) =>
      && c in setup.byID && c in s.tasks && s.tasks[c].inner.Working?
      && (outcome.Returned? ==> outcome.private.Valid())
    case Proceed(c) => c in setup.byID && c in s.tasks && CanProceed(setup, s, c)
    case GiveUp(c) => c in setup.byID && c in s.tasks && CanGiveUp(setup, s, c)
  }

  function Do(setup: Setup, s: State, step: Step): State
    requires Enabled(setup, s, step)
  {
    match step
    case Cancel => s.(cancelled := true)
    case Expire(c) => s.(tasks := s.tasks[c := s.tasks[c].(expired := true)])
    case Return(c, outcome) => s.(tasks := s.tasks[c := s.tasks[c].(inner := Delivered(outcome))])
    case Proceed(c) => Perform(setup, s, c, ProceedMove(setup, s, c))
    case GiveUp(c) => Perform(setup, s, c, GiveUpMove(setup, s, c))
  }

  const NEW_TASK := Task(Starting, NotStarted, false, [])

  /** Every goroutine about to begin; base is the set the run was given. */
  function Begin(setup: Setup, base: Ledger): State {
    State(map c | c in setup.byID :: NEW_TASK, false, None, base, [])
  }

  /** s is where the steps lead from the start, each enabled when it happens. */
  ghost predicate Reaches(setup: Setup, base: Ledger, steps: seq<Step>, s: State) {
    if steps == [] then s == Begin(setup, base)
    else
      var n := |steps| - 1;
      exists before ::
        && Reaches(setup, base, steps[..n], before)
        && Enabled(setup, before, steps[n])
        && s == Do(setup, before, steps[n])
  }

  /** Every goroutine has closed its channel, so Run returns. */
  ghost predicate Complete(s: State) {
    forall c | c in s.tasks :: s.tasks[c].phase.Closed?
  }
}
