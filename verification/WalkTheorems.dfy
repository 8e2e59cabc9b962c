/** What every walk guarantees about the inodes it saw and the directories it listed. */
module WalkTheorems {
  import opened Basics
  import opened FsFacts
  import opened Ids
  import opened WalkSpec
  import Lex

  // ---------------------------------------------------------------- events only accumulate

  predicate NoCut(events: seq<Event>) {
    forall e | e in events :: !e.Cut?
  }

  lemma {:induction false} ScanGrows(w: World, c: Core, depth: int, rootDev: nat, es: seq<FileInfo>)
    ensures var r := ScanEntries(w, c, depth, rootDev, es);
            && c.events <= r.core.events
            && (!r.finished && !c.stop ==> !NoCut(r.core.events))
            && (r.finished ==> r.core.stop == c.stop)
    decreases |es|
  {
    if es != [] {
      var (c1, over) := OverBudgetSampled(w, c);
      if over {
        assert !c.stop ==> c1.events[|c1.events| - 1] in c1.events;
      } else {
        var (c2, ok) := Offer(w, c1, es[0]);
        assert c2.events[|c2.events| - 1] in c2.events;
        if ok {
          ScanGrows(w, AfterEntry(w, c2, depth, rootDev, es[0]), depth, rootDev, es[1..]);
        }
      }
    }
  }

  /** A walk that stopped early recorded the limit that stopped it. */
  ghost predicate StopRecorded(c: Core) {
    c.stop ==> !NoCut(c.events)
  }

  lemma {:induction false} LastMember<T>(s: seq<T>)
    ensures s == [] || s[|s| - 1] in s
  {
    if s != [] { assert s[|s| - 1] in s; }
  }

  lemma {:induction false} StepGrows(w: World, c: Core, rootDev: nat, stack: seq<Frame>)
    requires c.inodes <= w.cfg.MaxInodes() && stack != [] && !c.stop
    ensures var r := StackStep(w, c, rootDev, stack);
            && c.events <= r.core.events
            && (r.Halt? ==> !NoCut(r.core.events))
            && (r.Next? ==> !r.core.stop)
  {
    var (c1, over) := OverBudget(w, c);
    LastMember(c1.events);
    if !over {
      var f := stack[|stack| - 1];
      var (c2, listing) := ListDir(w, MarkVisited(c1, f.fi), f.fi);
      if listing.Some? { ScanGrows(w, c2, f.depth, rootDev, listing.value); }
    }
  }

  lemma {:induction false} StackGrows(w: World, c: Core, rootDev: nat, stack: seq<Frame>)
    requires c.inodes <= w.cfg.MaxInodes() && StopRecorded(c)
    ensures c.events <= WalkStack(w, c, rootDev, stack).events
    ensures StopRecorded(WalkStack(w, c, rootDev, stack))
    decreases w.cfg.MaxInodes() - c.inodes, |stack|
  {
    if stack != [] && !c.stop {
      StepGrows(w, c, rootDev, stack);
      var r := StackStep(w, c, rootDev, stack);
      if r.Next? { StackGrows(w, r.core, rootDev, r.stack); }
    }
  }

  lemma {:induction false} RootsStop(w: World, c: Core, roots: seq<ID>)
    requires c.inodes <= w.cfg.MaxInodes() && StopRecorded(c)
    ensures StopRecorded(WalkRoots(w, c, roots))
    decreases |roots|
  {
    if roots != [] {
      RootStops(w, c, roots[0]);
      RootsStop(w, WalkRoot(w, c, roots[0]), roots[1..]);
    }
  }

  lemma {:induction false} RootStops(w: World, c: Core, root: ID)
    requires c.inodes <= w.cfg.MaxInodes() && StopRecorded(c)
    ensures c.events <= WalkRoot(w, c, root).events
    ensures StopRecorded(WalkRoot(w, c, root))
  {
    match w.stat(root)
    case None =>
      var c1 := c.Log(Cut(TRUNC_UNREADABLE));
      assert c1.events[|c1.events| - 1] in c1.events;
    case Some(fi) =>
      var (c1, ok) := Offer(w, c, fi);
      assert c1.events[|c1.events| - 1] in c1.events;
      if c.stop && ok { assert !NoCut(c1.events) by { var e :| e in c.events && e.Cut?; assert e in c1.events; } }
      if fi.Enterable() && ok {
        StackGrows(w, c1, fi.dev, [Frame(fi, 0)]);
      }
  }

  lemma {:induction false} CutHasReason(events: seq<Event>)
    ensures !NoCut(events) ==> exists reason :: Cut(reason) in events
  {
    if !NoCut(events) {
      var e :| e in events && e.Cut?;
      assert Cut(e.reason) in events;
    }
  }

  /** Every early stop, over all roots, is on record as a truncation. */
  lemma {:induction false} EarlyStopIsRecorded(w: World)
    ensures Walk(w).stop ==> exists reason :: Cut(reason) in Walk(w).events
  {
    RootsStop(w, Prepared(w), w.cfg.Roots());
    CutHasReason(Walk(w).events);
  }

  // ---------------------------------------------------------------- what is on record is true

  /** fi is something the filesystem really answered. */
  ghost predicate Genuine(w: World, fi: FileInfo) {
    || (exists p :: w.stat(p) == Some(fi))
    || (exists p :: w.List(p).Some? && fi in w.List(p).value.entries)
  }

  function CountSeen(events: seq<Event>): nat {
    if events == [] then 0
    else CountSeen(events[..|events| - 1]) + if events[|events| - 1].Seen? then 1 else 0
  }

  /** No identified directory is listed twice. */
  ghost predicate ListedOnce(events: seq<Event>) {
    forall i, j | 0 <= i < j < |events| && events[i].Listed? && events[j].Listed? && events[i].dir.Identified() ::
      events[i].dir.Id() != events[j].dir.Id()
  }

  ghost predicate Honest(w: World, c: Core) {
    && (forall fi | Seen(fi) in c.events :: Genuine(w, fi))
    && ListedOnce(c.events)
    && (forall d | Listed(d) in c.events && d.Identified() :: d.Id() in c.visited)
    && c.inodes == CountSeen(c.events)
  }

  ghost predicate AllGenuine(w: World, stack: seq<Frame>) {
    forall k | 0 <= k < |stack| :: Genuine(w, stack[k].fi)
  }

  lemma {:induction false} LogHonest(w: World, c: Core, e: Event, c': Core)
    requires Honest(w, c)
    requires c'.events == c.events + [e]
    requires e.Seen? ==> Genuine(w, e.fi)
    requires e.Listed? && e.dir.Identified() ==> e.dir.Id() !in c.visited && e.dir.Id() in c'.visited
    requires c.visited <= c'.visited && c'.inodes == c.inodes + if e.Seen? then 1 else 0
    ensures Honest(w, c')
  {
    assert c'.events[..|c'.events| - 1] == c.events;
    forall i, j | 0 <= i < j < |c'.events| && c'.events[i].Listed? && c'.events[j].Listed? && c'.events[i].dir.Identified()
      ensures c'.events[i].dir.Id() != c'.events[j].dir.Id()
    {
      if j == |c.events| { assert Listed(c.events[i].dir) in c.events; }
    }
  }

  lemma {:induction false} SampleHonest(w: World, c: Core)
    requires Honest(w, c)
    ensures Honest(w, OverBudgetSampled(w, c).0)
  {
    var c1 := OverBudgetSampled(w, c).0;
    if c1.events != c.events { LogHonest(w, c, Cut(TRUNC_DEADLINE), c1); }
  }

  lemma {:induction false} OfferHonest(w: World, c: Core, depth: int, rootDev: nat, e: FileInfo)
    requires Honest(w, c) && Genuine(w, e)
    ensures Honest(w, Offer(w, c, e).0)
    ensures Honest(w, AfterEntry(w, Offer(w, c, e).0, depth, rootDev, e))
  {
    var (c2, ok) := Offer(w, c, e);
    LogHonest(w, c, if ok then Seen(e) else Cut(TRUNC_INODES), c2);
    var c3 := AfterEntry(w, c2, depth, rootDev, e);
    if c3.events != c2.events { LogHonest(w, c2, Cut(TRUNC_DEPTH), c3); }
  }

  lemma {:induction false} ScanHonest(w: World, c: Core, depth: int, rootDev: nat, es: seq<FileInfo>)
    requires Honest(w, c) && forall e | e in es :: Genuine(w, e)
    ensures var r := ScanEntries(w, c, depth, rootDev, es);
            Honest(w, r.core) && AllGenuine(w, r.children)
    decreases |es|
  {
    if es != [] {
      SampleHonest(w, c);
      var (c1, over) := OverBudgetSampled(w, c);
      if !over {
        OfferHonest(w, c1, depth, rootDev, es[0]);
        var (c2, ok) := Offer(w, c1, es[0]);
        if ok { ScanHonest(w, AfterEntry(w, c2, depth, rootDev, es[0]), depth, rootDev, es[1..]); }
      }
    }
  }

  lemma {:induction false} ListHonest(w: World, c: Core, fi: FileInfo)
    requires Honest(w, c) && !Revisit(c, fi)
    ensures var (c', listing) := ListDir(w, MarkVisited(c, fi), fi);
            && Honest(w, c')
            && (listing.Some? ==> forall e | e in listing.value :: Genuine(w, e))
  {
    var c0 := MarkVisited(c, fi);
    var c1 := c0.Log(Listed(fi));
    LogHonest(w, c, Listed(fi), c1);
    var (c', listing) := ListDir(w, c0, fi);
    if listing.None? {
      LogHonest(w, c1, Cut(TRUNC_UNREADABLE), c');
    } else {
      var l := w.List(fi.path).value;
      Lex.SortByMembers(l.entries, PathOf);
      var c2 := c1.(dirs := c1.dirs + 1);
      assert Honest(w, c2);
      if l.truncated { LogHonest(w, c2, Cut(TRUNC_DIR_LISTING), c'); }
    }
  }

  lemma {:induction false} StepHonest(w: World, c: Core, rootDev: nat, stack: seq<Frame>)
    requires c.inodes <= w.cfg.MaxInodes() && stack != [] && !c.stop
    requires Honest(w, c) && AllGenuine(w, stack)
    ensures var r := StackStep(w, c, rootDev, stack);
            Honest(w, r.core) && (r.Next? ==> AllGenuine(w, r.stack))
  {
    var (c1, over) := OverBudget(w, c);
    if over {
      LogHonest(w, c, Cut(TRUNC_DEADLINE), c1);
    } else {
      assert Honest(w, c1);
      var f := stack[|stack| - 1];
      if !Revisit(c1, f.fi) {
        ListHonest(w, c1, f.fi);
        var (c2, listing) := ListDir(w, MarkVisited(c1, f.fi), f.fi);
        if listing.Some? { ScanHonest(w, c2, f.depth, rootDev, listing.value); }
      }
    }
  }

  lemma {:induction false} StackHonest(w: World, c: Core, rootDev: nat, stack: seq<Frame>)
    requires c.inodes <= w.cfg.MaxInodes() && Honest(w, c) && AllGenuine(w, stack)
    ensures Honest(w, WalkStack(w, c, rootDev, stack))
    decreases w.cfg.MaxInodes() - c.inodes, |stack|
  {
    if stack != [] && !c.stop {
      StepHonest(w, c, rootDev, stack);
      var r := StackStep(w, c, rootDev, stack);
      if r.Next? { StackHonest(w, r.core, rootDev, r.stack); }
    }
  }

  lemma {:induction false} RootHonest(w: World, c: Core, root: ID)
    requires c.inodes <= w.cfg.MaxInodes() && Honest(w, c)
    ensures Honest(w, WalkRoot(w, c, root))
  {
    match w.stat(root)
    case None =>
      LogHonest(w, c, Cut(TRUNC_UNREADABLE), WalkRoot(w, c, root));
    case Some(fi) =>
      assert Genuine(w, fi);
      var (c1, ok) := Offer(w, c, fi);
      LogHonest(w, c, if ok then Seen(fi) else Cut(TRUNC_INODES), c1);
      if fi.Enterable() && ok { StackHonest(w, c1, fi.dev, [Frame(fi, 0)]); }
  }

  lemma {:induction false} RootsHonest(w: World, c: Core, roots: seq<ID>)
    requires c.inodes <= w.cfg.MaxInodes() && Honest(w, c)
    ensures Honest(w, WalkRoots(w, c, roots))
    decreases |roots|
  {
    if roots != [] {
      RootHonest(w, c, roots[0]);
      if !WalkRoot(w, c, roots[0]).stop { RootsHonest(w, WalkRoot(w, c, roots[0]), roots[1..]); }
    }
  }

  /** Truncated or not: every inode on record was really answered by the filesystem, no
   * identified directory was listed twice over all roots, and the inode count is the
   * number of inodes seen. */
  lemma {:induction false} WalkIsHonest(w: World)
    ensures var c := Walk(w);
            && (forall fi | Seen(fi) in c.events :: Genuine(w, fi))
            && ListedOnce(c.events)
            && c.inodes == CountSeen(c.events) <= w.cfg.MaxInodes()
  {
    assert Honest(w, Start());
    if Prepared(w) != Start() { LogHonest(w, Start(), Cut(TRUNC_MOUNTS_UNKNOWN), Prepared(w)); }
    RootsHonest(w, Prepared(w), w.cfg.Roots());
  }
}
