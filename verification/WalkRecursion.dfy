/** The explicit stack walks as a plain recursion would: each directory whole, its children in turn (walker.go:442-446). */
module WalkRecursion {
  import opened Basics
  import opened FsFacts
  import opened Ids
  import opened WalkSpec
  import Lex

  /** Every limit that stops a walk before a directory is entered. */
  predicate TimeIsUp(w: World, c: Core) {
    c.stop || w.ctxDone(c.ticks) || w.clock(c.ticks + 1) >= w.clock(0) + w.cfg.Budget()
  }

  /** What is left when a directory may not be entered any more. */
  function Stopped(c: Core): Core {
    if c.stop then c else c.(events := c.events + [Cut(TRUNC_DEADLINE)], stop := true, ticks := c.ticks + 1)
  }

  predicate KnownInode(c: Core, d: FileInfo) { (d.dev != 0 || d.ino != 0) && DevIno(d.dev, d.ino) in c.visited }

  /** The state in which a directory is listed: remembered by its inode, if it has one. */
  function Entered(c: Core, d: FileInfo): Core {
    c.(ticks := c.ticks + 1,
       visited := if d.dev != 0 || d.ino != 0 then c.visited + {DevIno(d.dev, d.ino)} else c.visited,
       events := c.events + [Listed(d)])
  }

  /** A directory the walk stays out of: on another device, unless it may cross, or of a skipped filesystem type. */
  predicate Outside(w: World, d: FileInfo, rootDev: nat) {
    || ((!w.cfg.crossFS || !w.mountsKnown) && d.dev != 0 && rootDev != 0 && d.dev != rootDev)
    || (w.fstypeAt(d.path).Some? && exists pat | pat in SKIP_FS_TYPES :: HasType(w.fstypeAt(d.path).value.name, pat))
  }

  /** A type is the pattern itself, or begins with what stands before the pattern's star. */
  predicate HasType(fstype: string, pat: string) {
    if pat != [] && pat[|pat| - 1] == '*' then |fstype| >= |pat| - 1 && fstype[..|pat| - 1] == pat[..|pat| - 1] else fstype == pat
  }

  /** Whether an offered entry is a directory to visit. */
  predicate Keeps(w: World, depth: int, rootDev: nat, e: FileInfo) {
    e.isDir && !e.isSymlink && depth < w.cfg.MaxDepth() && !Outside(w, e, rootDev)
  }

  /** The clock is looked at when the number of inodes is a multiple of 4096. */
  function Sampled(c: Core): Core { if c.inodes % 4096 == 0 then c.(ticks := c.ticks + 1) else c }

  /** One entry offered; a directory too deep is a limit, one outside is counted. */
  function OfferOne(w: World, c: Core, depth: int, rootDev: nat, e: FileInfo): Core {
    var c1 := Sampled(c).(events := c.events + [Seen(e)], inodes := c.inodes + 1);
    if !e.isDir || e.isSymlink then c1
    else if depth >= w.cfg.MaxDepth() then c1.(events := c1.events + [Cut(TRUNC_DEPTH)])
    else if Outside(w, e, rootDev) then c1.(declined := c1.declined + 1)
    else c1
  }

  /** Offer the entries in turn, and keep the directories to visit. */
  function OfferAll(w: World, c: Core, depth: int, rootDev: nat, es: seq<FileInfo>): (r: Scan)
    ensures r.core.inodes >= c.inodes + |r.children|
    ensures c.inodes <= w.cfg.MaxInodes() ==> r.core.inodes <= w.cfg.MaxInodes()
    decreases |es|
  {
    if es == [] then Scan(c, [], true)
    else if c.stop then Scan(c, [], false)
    else if c.inodes % 4096 == 0 && TimeIsUp(w, c) then Scan(Stopped(c), [], false)
    else if c.inodes >= w.cfg.MaxInodes() then Scan(Sampled(c).(events := c.events + [Cut(TRUNC_INODES)], stop := true), [], false)
    else
      var rest := OfferAll(w, OfferOne(w, c, depth, rootDev, es[0]), depth, rootDev, es[1..]);
      if Keeps(w, depth, rootDev, es[0]) then Scan(rest.core, [Frame(es[0], depth + 1)] + rest.children, rest.finished) else rest
  }

  /** One directory and everything below it. */
  function Visit(w: World, c: Core, rootDev: nat, f: Frame): (r: Core)
    requires c.inodes <= w.cfg.MaxInodes()
    ensures c.inodes <= r.inodes <= w.cfg.MaxInodes()
    decreases w.cfg.MaxInodes() - c.inodes, 0, 0
  {
    if TimeIsUp(w, c) then Stopped(c)
    else if KnownInode(c, f.fi) then c.(ticks := c.ticks + 1, cycles := c.cycles + 1)
    else
      var c1 := Entered(c, f.fi);
      match w.readDir(f.fi.path, w.cfg.maxDirEntries)
      case None => c1.(events := c1.events + [Cut(TRUNC_UNREADABLE)])
      case Some(l) =>
        var c2 := c1.(dirs := c1.dirs + 1, events := c1.events + if l.truncated then [Cut(TRUNC_DIR_LISTING)] else []);
        var s := OfferAll(w, c2, f.depth, rootDev, Lex.SortBy(l.entries, PathOf));
        if s.finished && s.children != [] then VisitAll(w, s.core, rootDev, s.children) else s.core
  }

  /** Several directories, the first one first; a walk that was stopped goes no further. */
  function VisitAll(w: World, c: Core, rootDev: nat, fs: seq<Frame>): (r: Core)
    requires c.inodes <= w.cfg.MaxInodes()
    ensures c.inodes <= r.inodes <= w.cfg.MaxInodes()
    decreases w.cfg.MaxInodes() - c.inodes, |fs|, 1
  {
    if fs == [] || c.stop then c else VisitAll(w, Visit(w, c, rootDev, fs[0]), rootDev, fs[1..])
  }

  lemma {:induction false} VisitAllConcat(w: World, c: Core, rootDev: nat, a: seq<Frame>, b: seq<Frame>)
    requires c.inodes <= w.cfg.MaxInodes()
    ensures VisitAll(w, c, rootDev, a + b) == VisitAll(w, VisitAll(w, c, rootDev, a), rootDev, b)
    decreases |a|
  {
    if a == [] {
      assert a + b == b;
    } else if !c.stop {
      assert (a + b)[0] == a[0] && (a + b)[1..] == a[1..] + b;
      VisitAllConcat(w, Visit(w, c, rootDev, a[0]), rootDev, a[1..], b);
    }
  }

  // ---------------------------------------------------------------- the stack does the same

  lemma {:induction false} OutsideIsDeclined(w: World, d: FileInfo, rootDev: nat)
    ensures Outside(w, d, rootDev) <==> w.Declines(d, rootDev)
  {
    forall fstype, pat ensures HasType(fstype, pat) <==> SkipMatches(pat, fstype) {}
  }

  lemma {:induction false} EntryIsOffered(w: World, c: Core, depth: int, rootDev: nat, e: FileInfo)
    requires !OverBudgetSampled(w, c).1 && c.inodes < w.cfg.MaxInodes()
    ensures var (c2, ok) := Offer(w, OverBudgetSampled(w, c).0, e);
            ok && AfterEntry(w, c2, depth, rootDev, e) == OfferOne(w, c, depth, rootDev, e)
    ensures Descends(w, depth, rootDev, e) <==> Keeps(w, depth, rootDev, e)
  {
    OutsideIsDeclined(w, e, rootDev);
  }

  lemma {:induction false} ScanIsOfferAll(w: World, c: Core, depth: int, rootDev: nat, es: seq<FileInfo>)
    ensures ScanEntries(w, c, depth, rootDev, es) == OfferAll(w, c, depth, rootDev, es)
    decreases |es|
  {
    if es != [] && !OverBudgetSampled(w, c).1 && c.inodes < w.cfg.MaxInodes() {
      EntryIsOffered(w, c, depth, rootDev, es[0]);
      ScanIsOfferAll(w, OfferOne(w, c, depth, rootDev, es[0]), depth, rootDev, es[1..]);
    }
  }

  lemma {:induction false} UnfinishedIsStopped(w: World, c: Core, depth: int, rootDev: nat, es: seq<FileInfo>)
    ensures var s := ScanEntries(w, c, depth, rootDev, es); !s.finished ==> s.core.stop
    decreases |es|
  {
    if es != [] {
      var (c1, over) := OverBudgetSampled(w, c);
      if !over {
        var (c2, ok) := Offer(w, c1, es[0]);
        if ok { UnfinishedIsStopped(w, AfterEntry(w, c2, depth, rootDev, es[0]), depth, rootDev, es[1..]); }
      }
    }
  }

  lemma {:induction false} ReverseParts(a: seq<Frame>, b: seq<Frame>)
    ensures Reverse(a + b) == Reverse(b) + Reverse(a)
  {
  }

  lemma {:induction false} TopOfReversed(fs: seq<Frame>)
    requires fs != []
    ensures var stack := Reverse(fs); stack[|stack| - 1] == fs[0] && stack[..|stack| - 1] == Reverse(fs[1..])
  {
  }

  lemma {:induction false} NoChildren(rest: seq<Frame>)
    ensures rest == rest + Reverse<Frame>([])
  {
  }

  /** What the recursion does with the first frame, and which frames it leaves, from one turn of the stack loop. */
  lemma {:induction false} TurnIsVisit(w: World, c: Core, rootDev: nat, stack: seq<Frame>)
    requires c.inodes <= w.cfg.MaxInodes() && stack != [] && !c.stop
    ensures var f, rest := stack[|stack| - 1], stack[..|stack| - 1];
            match StackStep(w, c, rootDev, stack)
            case Halt(c1) => c1.stop && Visit(w, c, rootDev, f) == c1
            case Next(c1, next) =>
              exists children: seq<Frame> ::
                && next == rest + Reverse(children) && Visit(w, c, rootDev, f) == VisitAll(w, c1, rootDev, children)
  {
    var f, rest := stack[|stack| - 1], stack[..|stack| - 1];
    NoChildren(rest);
    if !TimeIsUp(w, c) {
      if KnownInode(c, f.fi) {
        assert Visit(w, c, rootDev, f) == VisitAll(w, StackStep(w, c, rootDev, stack).core, rootDev, []);
      } else {
        ListingIsVisit(w, c, rootDev, stack);
      }
    }
  }

  /** The listing that the loop makes of the top frame. */
  function TopListing(w: World, c: Core, f: Frame): (Core, Option<seq<FileInfo>>) {
    ListDir(w, MarkVisited(OverBudget(w, c).0, f.fi), f.fi)
  }

  lemma {:induction false} VisitByListing(w: World, c: Core, rootDev: nat, f: Frame)
    requires c.inodes <= w.cfg.MaxInodes() && !TimeIsUp(w, c) && !KnownInode(c, f.fi)
    ensures var (c2, listing) := TopListing(w, c, f);
            && c2.inodes <= w.cfg.MaxInodes()
            && (listing.None? ==> Visit(w, c, rootDev, f) == VisitAll(w, c2, rootDev, []))
            && (listing.Some? ==>
                  var s := ScanEntries(w, c2, f.depth, rootDev, listing.value);
                  && (s.finished ==> Visit(w, c, rootDev, f) == VisitAll(w, s.core, rootDev, s.children))
                  && (!s.finished ==> Visit(w, c, rootDev, f) == s.core && s.core.stop))
  {
    var (c2, listing) := TopListing(w, c, f);
    ListedAlike(w, c, f);
    if listing.Some? {
      UnfinishedIsStopped(w, c2, f.depth, rootDev, listing.value);
      ScanIsOfferAll(w, c2, f.depth, rootDev, listing.value);
    }
  }

  lemma {:induction false} ListingIsVisit(w: World, c: Core, rootDev: nat, stack: seq<Frame>)
    requires c.inodes <= w.cfg.MaxInodes() && stack != [] && !TimeIsUp(w, c) && !KnownInode(c, stack[|stack| - 1].fi)
    ensures var f, rest := stack[|stack| - 1], stack[..|stack| - 1];
            match StackStep(w, c, rootDev, stack)
            case Halt(c1) => c1.stop && Visit(w, c, rootDev, f) == c1
            case Next(c1, next) =>
              exists children: seq<Frame> ::
                && next == rest + Reverse(children) && Visit(w, c, rootDev, f) == VisitAll(w, c1, rootDev, children)
  {
    NoChildren(stack[..|stack| - 1]);
    VisitByListing(w, c, rootDev, stack[|stack| - 1]);
  }

  lemma {:induction false} ListedAlike(w: World, c: Core, f: Frame)
    requires !TimeIsUp(w, c)
    ensures var c1, c2 := Entered(c, f.fi), ListDir(w, MarkVisited(OverBudget(w, c).0, f.fi), f.fi).0;
            match w.readDir(f.fi.path, w.cfg.maxDirEntries)
            case None => c2 == c1.(events := c1.events + [Cut(TRUNC_UNREADABLE)])
            case Some(l) => c2 == c1.(dirs := c1.dirs + 1, events := c1.events + if l.truncated then [Cut(TRUNC_DIR_LISTING)] else [])
  {
    NothingAdded(c.events + [Listed(f.fi)]);
  }

  /** Run on the frames with the first on top, the loop gives what the recursion gives. */
  lemma {:induction false} StackIsRecursion(w: World, c: Core, rootDev: nat, fs: seq<Frame>)
    requires c.inodes <= w.cfg.MaxInodes()
    ensures WalkStack(w, c, rootDev, Reverse(fs)) == VisitAll(w, c, rootDev, fs)
    decreases w.cfg.MaxInodes() - c.inodes, |fs|
  {
    if fs != [] && !c.stop {
      var stack := Reverse(fs);
      TopOfReversed(fs);
      TurnIsVisit(w, c, rootDev, stack);
      var r := StackStep(w, c, rootDev, stack);
      if r.Next? {
        var children: seq<Frame> :| r.stack == Reverse(fs[1..]) + Reverse(children) && Visit(w, c, rootDev, fs[0]) == VisitAll(w, r.core, rootDev, children);
        ReverseParts(children, fs[1..]);
        StackIsRecursion(w, r.core, rootDev, children + fs[1..]);
        VisitAllConcat(w, r.core, rootDev, children, fs[1..]);
      }
    }
  }

  /** Each root: its own offer, and then the recursion from it. */
  function RootVisited(w: World, c: Core, root: ID): Core
    requires c.inodes <= w.cfg.MaxInodes()
  {
    match w.stat(root)
    case None => c.(events := c.events + [Cut(TRUNC_UNREADABLE)])
    case Some(fi) =>
      if c.inodes >= w.cfg.MaxInodes() then c.(events := c.events + [Cut(TRUNC_INODES)], stop := true)
      else
        var c1 := c.(events := c.events + [Seen(fi)], inodes := c.inodes + 1);
        if fi.isDir && !fi.isSymlink && !c1.stop then Visit(w, c1, fi.dev, Frame(fi, 0)) else c1
  }

  /** The walk of a root is the recursion from it. */
  lemma {:induction false} RootIsRecursion(w: World, c: Core, root: ID)
    requires c.inodes <= w.cfg.MaxInodes()
    ensures WalkRoot(w, c, root) == RootVisited(w, c, root)
  {
    if w.stat(root).Some? {
      var fi := w.stat(root).value;
      var (c1, ok) := Offer(w, c, fi);
      if fi.Enterable() && ok {
        assert Reverse([Frame(fi, 0)]) == [Frame(fi, 0)];
        StackIsRecursion(w, c1, fi.dev, [Frame(fi, 0)]);
        if !c1.stop {
          var r := Visit(w, c1, fi.dev, Frame(fi, 0));
          assert VisitAll(w, c1, fi.dev, [Frame(fi, 0)]) == VisitAll(w, r, fi.dev, [Frame(fi, 0)][1..]);
        }
      }
    }
  }

  /** The roots one after another, unless the walk was stopped. */
  function RootsVisited(w: World, c: Core, roots: seq<ID>): Core
    requires c.inodes <= w.cfg.MaxInodes()
    decreases |roots|
  {
    if roots == [] then c
    else
      RootIsRecursion(w, c, roots[0]);
      var r := RootVisited(w, c, roots[0]);
      if r.stop then r else RootsVisited(w, r, roots[1..])
  }

  lemma {:induction false} RootsAreRecursion(w: World, c: Core, roots: seq<ID>)
    requires c.inodes <= w.cfg.MaxInodes()
    ensures WalkRoots(w, c, roots) == RootsVisited(w, c, roots)
    decreases |roots|
  {
    if roots != [] {
      RootIsRecursion(w, c, roots[0]);
      var r := RootVisited(w, c, roots[0]);
      if !r.stop { RootsAreRecursion(w, r, roots[1..]); }
    }
  }

  /**
   * The whole walk is the recursion over the roots, "/" when none is given. Asked to cross devices without a mount
   * table, it says so first.
   */
  lemma {:induction false} WalkIsRecursion(w: World)
    ensures var start := Core({}, 0, 0, 0, 0, false, 0, if w.cfg.crossFS && !w.mountsKnown then [Cut(TRUNC_MOUNTS_UNKNOWN)] else []);
            Walk(w) == RootsVisited(w, start, if w.cfg.roots == [] then [ID("/")] else w.cfg.roots)
  {
    var start := Core({}, 0, 0, 0, 0, false, 0, if w.cfg.crossFS && !w.mountsKnown then [Cut(TRUNC_MOUNTS_UNKNOWN)] else []);
    assert Prepared(w) == start by {
      assert Start().events + [Cut(TRUNC_MOUNTS_UNKNOWN)] == [Cut(TRUNC_MOUNTS_UNKNOWN)];
    }
    RootsAreRecursion(w, start, w.cfg.Roots());
  }
}
