/** The traversal as the program runs it: one walkState whose methods update the facts in
 * place, proved against WalkSpec and WalkFacts. */
module Walker {
  import opened Basics
  import opened FsFacts
  import opened Ids
  import opened WalkSpec
  import opened WalkFacts
  import opened Tally
  import Lex

  lemma {:induction false} OneMore(i: Interest, roots: seq<ID>, events: seq<Event>, e: Event)
    ensures Answers(i, roots, events + [e]) == Answer(i, Answers(i, roots, events), e)
  {
    assert (events + [e])[..|events|] == events;
  }

  lemma {:induction false} OneMoreFold(q: Question, roots: seq<ID>, events: seq<Event>, e: Event)
    ensures Folds(q, events + [e]) ==
            if e.Seen? && q.key(e.fi).Some? then Folds(q, events) + [Folded(q.key(e.fi).value, e.fi)] else Folds(q, events)
    ensures Marks(q, roots, events + [e]) == Mark(q, Marks(q, roots, events), Folds(q, events + [e]), e)
  {
    assert (events + [e])[..|events|] == events;
  }

  /** The first tally facts answer the first questions. */
  ghost predicate AreTallyFacts(questions: seq<Question>, roots: seq<ID>, c: Core, facts: seq<FSTally>)
    requires |facts| <= |questions|
  {
    facts == [] || (
      var n := |facts| - 1;
      AreTallyFacts(questions, roots, c, facts[..n]) && IsTallyFact(questions[n], roots, c, facts[n]))
  }

  lemma {:induction false} EachIsTallyFact(questions: seq<Question>, roots: seq<ID>, c: Core, facts: seq<FSTally>)
    requires |facts| <= |questions| && AreTallyFacts(questions, roots, c, facts)
    ensures forall n | 0 <= n < |facts| :: IsTallyFact(questions[n], roots, c, facts[n])
  {
    if facts != [] { EachIsTallyFact(questions, roots, c, facts[..|facts| - 1]); }
  }

  /** t and mark are what one question makes of the events. */
  ghost predicate Follows(q: Question, roots: seq<ID>, events: seq<Event>, t: TallyState, mark: FSTally)
    reads t
  {
    t.Valid() && t.max == q.MaxKeys() && t.history == Folds(q, events) && mark == Marks(q, roots, events)
  }

  class WalkState {
    const w: World
    const interests: seq<Interest>
    const questions: seq<Question>
    var crossFS: bool
    var out: seq<FSMatches>
    var hits: seq<nat>
    var tallyOut: seq<FSTally>
    const tallies: seq<TallyState>
    var visited: set<DevIno>
    var inodesVisited: nat
    var dirsVisited: nat
    var cyclesBroken: nat
    var boundariesDeclined: nat
    var stop: bool
    var ticks: nat
    ghost var events: seq<Event>

    ghost function Now(): Core
      reads this
    {
      Core(visited, inodesVisited, dirsVisited, cyclesBroken, boundariesDeclined, stop, ticks, events)
    }

    /** Each interest's fact and hit count are what the events amount to. */
    ghost predicate FactsOk()
      reads this
    {
      && |out| == |hits| == |interests|
      && forall n | 0 <= n < |interests| ::
           out[n] == Answers(interests[n], w.cfg.Roots(), events) && hits[n] == |out[n].rows|
    }

    ghost predicate TalliesOk()
      reads this, tallies
    {
      && |tallyOut| == |tallies| == |questions|
      && (forall n, m | 0 <= n < m < |tallies| :: tallies[n] != tallies[m])
      && forall n | 0 <= n < |questions| :: Follows(questions[n], w.cfg.Roots(), events, tallies[n], tallyOut[n])
    }

    ghost predicate Valid()
      reads this, tallies
    {
      && FactsOk() && TalliesOk()
      && inodesVisited <= w.cfg.MaxInodes()
    }

    constructor (w: World, interests: seq<Interest>, questions: seq<Question>, tallies: seq<TallyState>)
      requires |tallies| == |questions|
      requires forall n, m | 0 <= n < m < |tallies| :: tallies[n] != tallies[m]
      requires forall n | 0 <= n < |tallies| :: tallies[n].Valid() && tallies[n].history == [] && tallies[n].max == questions[n].MaxKeys()
      ensures Valid() && Now() == Start() && this.w == w && this.interests == interests && this.questions == questions
      ensures this.tallies == tallies && crossFS == w.cfg.crossFS
    {
      this.w, this.interests, this.questions, this.tallies := w, interests, questions, tallies;
      crossFS := w.cfg.crossFS;
      out := seq(|interests|, n requires 0 <= n < |interests| => NewMatches(interests[n], w.cfg.Roots()));
      hits := seq(|interests|, n => 0);
      tallyOut := seq(|questions|, n requires 0 <= n < |questions| => NewTally(questions[n], w.cfg.Roots()));
      visited, inodesVisited, dirsVisited, cyclesBroken, boundariesDeclined := {}, 0, 0, 0, 0;
      stop, ticks, events := false, 0, [];
    }

    /** A limit that fires is a property of the traversal: mark every fact. */
    method TruncateAll(reason: ID)
      requires Valid()
      modifies this`out, this`tallyOut, this`events
      ensures Valid() && Now() == old(Now()).Log(Cut(reason))
    {
      for n := 0 to |out|
        modifies this`out
        invariant |out| == |old(out)|
        invariant forall m | 0 <= m < |out| :: out[m] == if m < n then old(out)[m].MarkTruncated(reason) else old(out)[m]
      {
        out := out[n := out[n].MarkTruncated(reason)];
      }
      for n := 0 to |tallyOut|
        modifies this`tallyOut
        invariant |tallyOut| == |old(tallyOut)|
        invariant forall m | 0 <= m < |tallyOut| :: tallyOut[m] == if m < n then old(tallyOut)[m].MarkTruncated(reason) else old(tallyOut)[m]
      {
        tallyOut := tallyOut[n := tallyOut[n].MarkTruncated(reason)];
      }
      LogAll(Cut(reason));
      events := events + [Cut(reason)];
    }

    /** What one more event means for every question. */
    lemma LogAll(e: Event)
      ensures forall n | 0 <= n < |interests| ::
                Answers(interests[n], w.cfg.Roots(), events + [e]) == Answer(interests[n], Answers(interests[n], w.cfg.Roots(), events), e)
      ensures forall n | 0 <= n < |questions| && !e.Seen? ::
                && Folds(questions[n], events + [e]) == Folds(questions[n], events)
                && Marks(questions[n], w.cfg.Roots(), events + [e]) ==
                   Mark(questions[n], Marks(questions[n], w.cfg.Roots(), events), Folds(questions[n], events), e)
    {
      forall n | 0 <= n < |interests|
        ensures Answers(interests[n], w.cfg.Roots(), events + [e]) == Answer(interests[n], Answers(interests[n], w.cfg.Roots(), events), e)
      {
        OneMore(interests[n], w.cfg.Roots(), events, e);
      }
      forall n | 0 <= n < |questions| && !e.Seen?
        ensures && Folds(questions[n], events + [e]) == Folds(questions[n], events)
                && Marks(questions[n], w.cfg.Roots(), events + [e]) ==
                   Mark(questions[n], Marks(questions[n], w.cfg.Roots(), events), Folds(questions[n], events), e)
      {
        OneMoreFold(questions[n], w.cfg.Roots(), events, e);
      }
    }

    /** Present one inode to every question; false when the inode budget is spent. */
    method Offer(fi: FileInfo) returns (ok: bool)
      requires Valid()
      modifies this, tallies
      ensures Valid() && crossFS == old(crossFS)
      ensures (Now(), ok) == WalkSpec.Offer(w, old(Now()), fi)
    {
      if inodesVisited >= w.cfg.MaxInodes() {
        TruncateAll(TRUNC_INODES);
        stop := true;
        return false;
      }
      inodesVisited := inodesVisited + 1;
      OfferInterests(fi);
      OfferTallies(fi);
      LogAll(Seen(fi));
      events := events + [Seen(fi)];
      return true;
    }

    method OfferInterests(fi: FileInfo)
      requires FactsOk()
      modifies this`out, this`hits
      ensures |out| == |hits| == |interests|
      ensures forall n | 0 <= n < |interests| :: out[n] == Answer(interests[n], old(out)[n], Seen(fi)) && hits[n] == |out[n].rows|
    {
      for n := 0 to |interests|
        invariant |out| == |hits| == |interests|
        invariant forall m | 0 <= m < |interests| ::
                    out[m] == (if m < n then Answer(interests[m], old(out)[m], Seen(fi)) else old(out)[m]) && hits[m] == |out[m].rows|
      {
        var i := interests[n];
        if i.matches(fi) {
          if hits[n] >= i.MaxHits() {
            out := out[n := out[n].(overflow := out[n].overflow + 1).MarkTruncated(TRUNC_MAX_HITS)];
          } else {
            out := out[n := out[n].(rows := out[n].rows + [i.Row(fi)])];
            hits := hits[n := hits[n] + 1];
          }
        }
      }
    }

    method OfferTallies(fi: FileInfo)
      requires TalliesOk()
      modifies this`tallyOut, tallies
      ensures |tallyOut| == |tallies|
      ensures forall n | 0 <= n < |questions| :: Follows(questions[n], w.cfg.Roots(), events + [Seen(fi)], tallies[n], tallyOut[n])
    {
      for n := 0 to |questions|
        invariant |tallyOut| == |tallies|
        invariant forall m | 0 <= m < n :: Follows(questions[m], w.cfg.Roots(), events + [Seen(fi)], tallies[m], tallyOut[m])
        invariant forall m | n <= m < |questions| :: Follows(questions[m], w.cfg.Roots(), events, tallies[m], tallyOut[m])
      {
        OfferTally(n, fi);
      }
    }

    method OfferTally(n: nat, fi: FileInfo)
      requires |tallyOut| == |tallies| == |questions| && n < |questions|
      requires Follows(questions[n], w.cfg.Roots(), events, tallies[n], tallyOut[n])
      modifies this`tallyOut, tallies[n]
      ensures |tallyOut| == |old(tallyOut)| && forall m | 0 <= m < |tallyOut| && m != n :: tallyOut[m] == old(tallyOut)[m]
      ensures Follows(questions[n], w.cfg.Roots(), events + [Seen(fi)], tallies[n], tallyOut[n])
    {
      OneMoreFold(questions[n], w.cfg.Roots(), events, Seen(fi));
      var key := questions[n].key(fi);
      if key.Some? {
        var discarded := tallies[n].Fold(key.value, fi);
        if discarded {
          tallyOut := tallyOut[n := tallyOut[n].MarkTruncated(TRUNC_MAX_KEYS)];
        }
      }
    }

    /** Record an event no question reacts to. */
    ghost method Log(e: Event)
      requires Valid() && e.Listed?
      modifies this`events
      ensures Valid() && Now() == old(Now()).Log(e)
    {
      LogAll(e);
      events := events + [e];
    }

    /** Whether the walk must stop; the only place the clock and the context are read. */
    method OverBudget() returns (over: bool)
      requires Valid()
      modifies this`out, this`tallyOut, this`events, this`stop, this`ticks
      ensures Valid() && (Now(), over) == WalkSpec.OverBudget(w, old(Now()))
    {
      if stop { return true; }
      over := w.ctxDone(ticks) || w.clock(ticks + 1) >= w.Deadline();
      if over {
        TruncateAll(TRUNC_DEADLINE);
        stop := true;
      }
      ticks := ticks + 1;
    }

    method OverBudgetSampled() returns (over: bool)
      requires Valid()
      modifies this`out, this`tallyOut, this`events, this`stop, this`ticks
      ensures Valid() && (Now(), over) == WalkSpec.OverBudgetSampled(w, old(Now()))
    {
      if stop { return true; }
      if inodesVisited % CLOCK_CHECK_EVERY != 0 { return false; }
      over := OverBudget();
    }

    /** Whether dir is outside the walk's scope, counting it if so. */
    method DeclineBoundary(dir: FileInfo, rootDev: nat) returns (declined: bool)
      requires Valid() && crossFS == w.Crosses()
      modifies this`boundariesDeclined
      ensures Valid() && declined == w.Declines(dir, rootDev)
      ensures Now() == if declined then old(Now()).(declined := old(boundariesDeclined) + 1) else old(Now())
    {
      if !crossFS && dir.dev != 0 && rootDev != 0 && dir.dev != rootDev {
        boundariesDeclined := boundariesDeclined + 1;
        return true;
      }
      if w.SkippedHere(dir.path) {
        boundariesDeclined := boundariesDeclined + 1;
        return true;
      }
      return false;
    }

    /** Whether an offered entry is a directory to descend into. */
    method Consider(e: FileInfo, depth: int, rootDev: nat) returns (descend: bool)
      requires Valid() && crossFS == w.Crosses()
      modifies this`out, this`tallyOut, this`events, this`boundariesDeclined
      ensures Valid() && descend == Descends(w, depth, rootDev, e)
      ensures Now() == AfterEntry(w, old(Now()), depth, rootDev, e)
    {
      if !e.Enterable() { return false; }
      if depth + 1 > w.cfg.MaxDepth() {
        TruncateAll(TRUNC_DEPTH);
        return false;
      }
      var declined := DeclineBoundary(e, rootDev);
      descend := !declined;
    }

    /** The per-entry loop over one listing; children come back in sorted order. */
    method Scan(entries: seq<FileInfo>, depth: int, rootDev: nat) returns (children: seq<Frame>, finished: bool)
      requires Valid() && crossFS == w.Crosses()
      modifies this, tallies
      ensures Valid() && crossFS == old(crossFS)
      ensures var r := ScanEntries(w, old(Now()), depth, rootDev, entries);
              Now() == r.core && finished == r.finished && (finished ==> children == r.children)
    {
      children := [];
      ghost var whole := ScanEntries(w, Now(), depth, rootDev, entries);
      for n := 0 to |entries|
        invariant Valid() && crossFS == w.Crosses()
        invariant var rest := ScanEntries(w, Now(), depth, rootDev, entries[n..]);
                  whole == WalkSpec.Scan(rest.core, children + rest.children, rest.finished)
      {
        var e := entries[n];
        assert entries[n..][0] == e && entries[n..][1..] == entries[n + 1..];
        var over := OverBudgetSampled();
        if over { return children, false; }
        var ok := Offer(e);
        if !ok { return children, false; }
        var descend := Consider(e, depth, rootDev);
        if descend { children := children + [Frame(e, depth + 1)]; }
      }
      assert entries[|entries|..] == [];
      assert children + [] == children;
      finished := true;
    }

    /** List one directory; None when it could not be read. */
    method List(fi: FileInfo) returns (listing: Option<seq<FileInfo>>)
      requires Valid()
      modifies this`out, this`tallyOut, this`events, this`dirsVisited
      ensures Valid() && (Now(), listing) == ListDir(w, old(Now()), fi)
    {
      Log(Listed(fi));
      var res := w.List(fi.path);
      if res.None? {
        TruncateAll(TRUNC_UNREADABLE);
        return None;
      }
      dirsVisited := dirsVisited + 1;
      if res.value.truncated { TruncateAll(TRUNC_DIR_LISTING); }
      return Some(Lex.SortBy(res.value.entries, PathOf));
    }

    /** One turn of the stack loop; false when a limit stopped the walk. */
    method Turn(stack: seq<Frame>, rootDev: nat) returns (next: seq<Frame>, go: bool)
      requires Valid() && crossFS == w.Crosses() && stack != []
      modifies this, tallies
      ensures Valid() && crossFS == old(crossFS)
      ensures StackStep(w, old(Now()), rootDev, stack) == if go then Next(Now(), next) else Halt(Now())
    {
      var over := OverBudget();
      if over { return stack, false; }
      var f := stack[|stack| - 1];
      next := stack[..|stack| - 1];
      if f.fi.Identified() && f.fi.Id() in visited {
        cyclesBroken := cyclesBroken + 1;
        return next, true;
      }
      if f.fi.Identified() { visited := visited + {f.fi.Id()}; }
      var listing := List(f.fi);
      if listing.None? { return next, true; }
      var children, finished := Scan(listing.value, f.depth, rootDev);
      return next + Reverse(children), finished;
    }

    /** Traverse one root, depth first, in sorted path order. */
    method WalkRoot(root: ID)
      requires Valid() && crossFS == w.Crosses() && !stop
      modifies this, tallies
      ensures Valid() && crossFS == old(crossFS)
      ensures Now() == WalkSpec.WalkRoot(w, old(Now()), root)
    {
      var st := w.stat(root);
      if st.None? {
        TruncateAll(TRUNC_UNREADABLE);
        return;
      }
      var fi := st.value;
      var ok := Offer(fi);
      if !fi.Enterable() || !ok { return; }
      var stack := [Frame(fi, 0)];
      ghost var final := WalkStack(w, Now(), fi.dev, stack);
      while stack != [] && !stop
        invariant Valid() && crossFS == w.Crosses()
        invariant WalkStack(w, Now(), fi.dev, stack) == final
        decreases w.cfg.MaxInodes() - inodesVisited, |stack|
      {
        var go;
        stack, go := Turn(stack, fi.dev);
        if !go { return; }
      }
    }

    /** Sort the rows and stamp the shared counter. */
    method FinishFacts() returns (facts: seq<FSMatches>)
      requires FactsOk()
      ensures |facts| == |interests|
      ensures forall n | 0 <= n < |interests| :: facts[n] == MatchesFact(interests[n], w.cfg.Roots(), Now())
    {
      facts := [];
      for n := 0 to |out|
        invariant |facts| == n
        invariant forall m | 0 <= m < n :: facts[m] == MatchesFact(interests[m], w.cfg.Roots(), Now())
      {
        facts := facts + [out[n].(rows := Lex.SortBy(out[n].rows, RowPath), inodesVisited := inodesVisited)];
      }
    }

    /** Render the tallies and stamp the shared counter. */
    method FinishTallies() returns (tallyFacts: seq<FSTally>)
      requires TalliesOk()
      ensures |tallyFacts| == |questions|
      ensures forall n | 0 <= n < |questions| :: IsTallyFact(questions[n], w.cfg.Roots(), Now(), tallyFacts[n])
    {
      ghost var c, roots := Now(), w.cfg.Roots();
      tallyFacts := [];
      for n := 0 to |tallyOut|
        invariant |tallyFacts| == n && AreTallyFacts(questions, roots, c, tallyFacts)
      {
        var f := FinishTally(n);
        assert (tallyFacts + [f])[..n] == tallyFacts;
        tallyFacts := tallyFacts + [f];
      }
      EachIsTallyFact(questions, roots, c, tallyFacts);
    }

    method FinishTally(n: nat) returns (f: FSTally)
      requires TalliesOk() && n < |questions|
      ensures IsTallyFact(questions[n], w.cfg.Roots(), Now(), f)
    {
      f := tallies[n].AsFact(tallyOut[n]);
      f := f.(inodesVisited := inodesVisited);
    }
  }

  datatype WalkError = NoQuestions | BadInterest(name: ID) | BadTally(name: ID)

  datatype WalkResult = WalkResult(
    facts: seq<FSMatches>, tallyFacts: seq<FSTally>,
    inodesVisited: nat, dirsVisited: nat, cyclesBroken: nat, boundariesDeclined: nat)

  /** r is what a walk of w answers to these questions. */
  ghost predicate Outcome(w: World, interests: seq<Interest>, questions: seq<Question>, r: WalkResult) {
    var c := WalkSpec.Walk(w);
    && |r.facts| == |interests| && |r.tallyFacts| == |questions|
    && (forall n | 0 <= n < |interests| :: r.facts[n] == MatchesFact(interests[n], w.cfg.Roots(), c))
    && (forall n | 0 <= n < |questions| :: IsTallyFact(questions[n], w.cfg.Roots(), c, r.tallyFacts[n]))
    && r.inodesVisited == c.inodes && r.dirsVisited == c.dirs
    && r.cyclesBroken == c.cycles && r.boundariesDeclined == c.declined
  }

  /** Reject a walk that could not produce usable facts. */
  method Validate(interests: seq<Interest>, questions: seq<Question>) returns (e: Option<WalkError>)
    ensures e.Some? <==> (interests == [] && questions == []) || (exists i | i in interests :: BadName(i.name)) || (exists q | q in questions :: BadName(q.name))
  {
    if |interests| == 0 && |questions| == 0 { return Some(NoQuestions); }
    for n := 0 to |interests|
      invariant forall m | 0 <= m < n :: !BadName(interests[m].name)
    {
      if BadName(interests[n].name) { return Some(BadInterest(interests[n].name)); }
    }
    for n := 0 to |questions|
      invariant forall m | 0 <= m < n :: !BadName(questions[m].name)
    {
      if BadName(questions[n].name) { return Some(BadTally(questions[n].name)); }
    }
    return None;
  }

  method NewTallies(questions: seq<Question>) returns (tallies: seq<TallyState>)
    ensures |tallies| == |questions|
    ensures forall m | 0 <= m < |tallies| :: fresh(tallies[m])
    ensures forall m | 0 <= m < |tallies| :: tallies[m].Valid() && tallies[m].history == [] && tallies[m].max == questions[m].MaxKeys()
    ensures forall m, k | 0 <= m < k < |tallies| :: tallies[m] != tallies[k]
  {
    tallies := [];
    for n := 0 to |questions|
      invariant |tallies| == n
      invariant forall m | 0 <= m < n :: fresh(tallies[m])
      invariant forall m | 0 <= m < n :: tallies[m].Valid() && tallies[m].history == [] && tallies[m].max == questions[m].MaxKeys()
      invariant forall m, k | 0 <= m < k < n :: tallies[m] != tallies[k]
    {
      var t := new TallyState(questions[n].MaxKeys());
      tallies := tallies + [t];
    }
  }

  /** The whole traversal. Every fact it returns is a function of the world and of its own
   * question: no other question in the walk appears in it. */
  method Walk(w: World, interests: seq<Interest>, questions: seq<Question>) returns (r: Result<WalkResult, WalkError>)
    ensures r.Err? <==> (interests == [] && questions == []) || (exists i | i in interests :: BadName(i.name)) || (exists q | q in questions :: BadName(q.name))
    ensures r.Ok? ==> Outcome(w, interests, questions, r.value)
  {
    var bad := Validate(interests, questions);
    if bad.Some? { return Err(bad.value); }
    var tallies := NewTallies(questions);
    var st := new WalkState(w, interests, questions, tallies);
    if !w.mountsKnown && w.cfg.crossFS {
      st.crossFS := false;
      st.TruncateAll(TRUNC_MOUNTS_UNKNOWN);
    }
    assert st.Now() == Prepared(w);
    var roots := w.cfg.Roots();
    ghost var final := WalkRoots(w, st.Now(), roots);
    var n := 0;
    assert roots[0..] == roots;
    while n < |roots| && !st.stop
      invariant n <= |roots|
      invariant st.Valid() && st.crossFS == w.Crosses()
      invariant st.stop ==> st.Now() == final
      invariant !st.stop ==> WalkRoots(w, st.Now(), roots[n..]) == final
    {
      assert roots[n..][0] == roots[n] && roots[n..][1..] == roots[n + 1..];
      st.WalkRoot(roots[n]);
      n := n + 1;
    }
    var facts := st.FinishFacts();
    var tallyFacts := st.FinishTallies();
    return Ok(WalkResult(facts, tallyFacts, st.inodesVisited, st.dirsVisited, st.cyclesBroken, st.boundariesDeclined));
  }
}
