/** The absence rule: over a walk that recorded no limit, everything in scope was seen. */
module WalkAbsence {
  import opened Basics
  import opened FsFacts
  import opened Ids
  import opened WalkSpec
  import opened WalkTheorems
  import Lex

  // ---------------------------------------------------------------- hypotheses

  /** The same inode, possibly under another path. */
  predicate SameInode(a: FileInfo, b: FileInfo) {
    b == a.(path := b.path)
  }

  ghost predicate Entry(w: World, dir: FileInfo, e: FileInfo) {
    w.List(dir.path).Some? && e in w.List(dir.path).value.entries
  }

  /** Everything listed under a is listed under b, with the same skip decisions. */
  ghost predicate ContentsIncluded(w: World, a: FileInfo, b: FileInfo) {
    && (w.List(a.path).Some? ==> w.List(b.path).Some?)
    && (forall e | Entry(w, a, e) ::
          exists e' :: e' in w.List(b.path).value.entries && SameInode(e, e') && w.SkippedHere(e.path) == w.SkippedHere(e'.path))
  }

  /** Every inode the filesystem answers carries its device. */
  ghost predicate DevicesRecorded(w: World) {
    forall fi | Genuine(w, fi) :: fi.dev != 0
  }

  /** What cycle detection by identity relies on: devices are recorded, and two
   * paths to one inode have the same contents and boundary decisions. */
  ghost predicate FaithfulIdentities(w: World) {
    && DevicesRecorded(w)
    && (forall a, b | Genuine(w, a) && Genuine(w, b) && a.Enterable() && b.Enterable() && a.Id() == b.Id() ::
          ContentsIncluded(w, a, b))
  }

  lemma {:induction false} Counterpart(w: World, a: FileInfo, b: FileInfo, e: FileInfo) returns (e': FileInfo)
    requires FaithfulIdentities(w) && Genuine(w, a) && Genuine(w, b) && a.Enterable() && b.Enterable() && a.Id() == b.Id()
    requires Entry(w, a, e)
    ensures Entry(w, b, e') && SameInode(e, e') && w.SkippedHere(e.path) == w.SkippedHere(e'.path)
  {
    assert ContentsIncluded(w, a, b);
    e' :| e' in w.List(b.path).value.entries && SameInode(e, e') && w.SkippedHere(e.path) == w.SkippedHere(e'.path);
  }

  // ---------------------------------------------------------------- the invariant

  ghost predicate OnStack(stack: seq<Frame>, fi: FileInfo) {
    exists k :: 0 <= k < |stack| && stack[k].fi == fi
  }

  /** Everything in d was seen, and every directory below d was entered or waits on the stack. */
  ghost predicate Accounted(w: World, c: Core, stack: seq<Frame>, d: FileInfo) {
    && w.List(d.path).Some?
    && (forall e | e in w.List(d.path).value.entries :: Seen(e) in c.events)
    && (forall e | e in w.List(d.path).value.entries && e.Enterable() && !w.Declines(e, d.dev) ::
          e.Id() in c.visited || OnStack(stack, e))
  }

  ghost predicate Covers(w: World, c: Core, stack: seq<Frame>) {
    && (forall d | Listed(d) in c.events :: Genuine(w, d) && d.Enterable() && Accounted(w, c, stack, d))
    && (forall id | id in c.visited :: exists d :: Listed(d) in c.events && d.Id() == id)
  }

  ghost predicate StackOk(w: World, rootDev: nat, stack: seq<Frame>) {
    forall k | 0 <= k < |stack| ::
      Genuine(w, stack[k].fi) && stack[k].fi.Enterable() && (w.Crosses() || stack[k].fi.dev == rootDev)
  }

  lemma {:induction false} PrefixMembers<T>(a: seq<T>, b: seq<T>)
    requires a <= b
    ensures forall x | x in a :: x in b
  {
    forall x | x in a ensures x in b {
      var i :| 0 <= i < |a| && a[i] == x;
      assert b[i] == x;
    }
  }

  // ---------------------------------------------------------------- one listing

  /** A scan that recorded no limit offered every entry and entered nothing. */
  lemma {:induction false} ScanSees(w: World, c: Core, depth: int, rootDev: nat, es: seq<FileInfo>)
    requires !c.stop && NoCut(ScanEntries(w, c, depth, rootDev, es).core.events)
    ensures var r := ScanEntries(w, c, depth, rootDev, es);
            && r.finished && r.core.visited == c.visited
            && (forall e | e in es :: Seen(e) in r.core.events)
            && (forall d :: Listed(d) in r.core.events <==> Listed(d) in c.events)
    decreases |es|
  {
    ScanGrows(w, c, depth, rootDev, es);
    if es != [] {
      var (c1, over) := OverBudgetSampled(w, c);
      var (c2, ok) := Offer(w, c1, es[0]);
      var c3 := AfterEntry(w, c2, depth, rootDev, es[0]);
      var rest := ScanEntries(w, c3, depth, rootDev, es[1..]);
      ScanSees(w, c3, depth, rootDev, es[1..]);
      ScanGrows(w, c3, depth, rootDev, es[1..]);
      PrefixMembers(c3.events, rest.core.events);
      LastMember(c2.events);
      assert Seen(es[0]) in c3.events;
      assert forall d :: Listed(d) in c3.events <==> Listed(d) in c.events;
    }
  }

  /** Such a scan keeps exactly the directories in scope. */
  lemma {:induction false} ScanKeeps(w: World, c: Core, depth: int, rootDev: nat, es: seq<FileInfo>)
    requires !c.stop && NoCut(ScanEntries(w, c, depth, rootDev, es).core.events)
    ensures var r := ScanEntries(w, c, depth, rootDev, es);
            && (forall e | e in es && e.Enterable() && !w.Declines(e, rootDev) :: OnStack(r.children, e))
            && (forall k | 0 <= k < |r.children| ::
                  r.children[k].fi in es && r.children[k].fi.Enterable() && !w.Declines(r.children[k].fi, rootDev))
    decreases |es|
  {
    ScanGrows(w, c, depth, rootDev, es);
    if es != [] {
      var (c1, over) := OverBudgetSampled(w, c);
      var (c2, ok) := Offer(w, c1, es[0]);
      var c3 := AfterEntry(w, c2, depth, rootDev, es[0]);
      var rest := ScanEntries(w, c3, depth, rootDev, es[1..]);
      ScanKeeps(w, c3, depth, rootDev, es[1..]);
      ScanGrows(w, c3, depth, rootDev, es[1..]);
      PrefixMembers(c3.events, rest.core.events);
      LastMember(c3.events);
      KeepOne(rest.children, es, if Descends(w, depth, rootDev, es[0]) then [Frame(es[0], depth + 1)] else []);
    }
  }

  lemma {:induction false} KeepOne(children: seq<Frame>, es: seq<FileInfo>, first: seq<Frame>)
    requires es != [] && |first| <= 1 && (first != [] ==> first[0].fi == es[0])
    ensures forall e | OnStack(children, e) :: OnStack(first + children, e)
    ensures first != [] ==> OnStack(first + children, es[0])
    ensures forall e | e in es :: e == es[0] || e in es[1..]
  {
    forall e | OnStack(children, e) ensures OnStack(first + children, e) {
      var k :| 0 <= k < |children| && children[k].fi == e;
      assert (first + children)[|first| + k].fi == e;
    }
    if first != [] { assert (first + children)[0].fi == es[0]; }
  }

  // ---------------------------------------------------------------- the stack loop

  /** Popping a frame whose identity was already entered loses nothing. */
  lemma {:induction false} PopRevisited(w: World, c: Core, c': Core, stack: seq<Frame>)
    requires stack != [] && Covers(w, c, stack)
    requires c'.visited == c.visited && c'.events == c.events
    requires stack[|stack| - 1].fi.Id() in c.visited
    ensures Covers(w, c', stack[..|stack| - 1])
  {
    var rest := stack[..|stack| - 1];
    forall d | Listed(d) in c'.events ensures Accounted(w, c', rest, d) {
      forall e | e in w.List(d.path).value.entries && e.Enterable() && !w.Declines(e, d.dev)
        ensures e.Id() in c'.visited || OnStack(rest, e)
      {
        if e.Id() !in c.visited {
          var k :| 0 <= k < |stack| && stack[k].fi == e;
          assert rest[k].fi == e;
        }
      }
    }
  }

  /** Listing a directory exhaustively accounts for it. */
  lemma {:induction false} PushChildren(w: World, c: Core, rootDev: nat, f: Frame, rest: seq<Frame>, c2: Core, r: Scan)
    requires Covers(w, c, rest + [f])
    requires Genuine(w, f.fi) && f.fi.Enterable() && w.List(f.fi.path).Some?
    requires c2.visited == c.visited + {f.fi.Id()}
    requires r.core.visited == c2.visited
    requires forall e | e in c.events :: e in r.core.events
    requires forall d :: Listed(d) in r.core.events <==> Listed(d) in c.events || d == f.fi
    requires forall e | e in w.List(f.fi.path).value.entries :: Seen(e) in r.core.events
    requires w.Crosses() || f.fi.dev == rootDev
    requires forall e | e in w.List(f.fi.path).value.entries && e.Enterable() && !w.Declines(e, rootDev) :: OnStack(r.children, e)
    ensures Covers(w, r.core, rest + Reverse(r.children))
  {
    var old_stack, stack := rest + [f], rest + Reverse(r.children);
    forall d | Listed(d) in r.core.events ensures Accounted(w, r.core, stack, d) {
      forall e | e in w.List(d.path).value.entries && e.Enterable() && !w.Declines(e, d.dev)
        ensures e.Id() in r.core.visited || OnStack(stack, e)
      {
        if d == f.fi {
          var k :| 0 <= k < |r.children| && r.children[k].fi == e;
          assert stack[|rest| + |r.children| - 1 - k].fi == e;
        } else if e.Id() !in r.core.visited {
          var k :| 0 <= k < |old_stack| && old_stack[k].fi == e;
          assert stack[k].fi == e;
        }
      }
    }
    forall id | id in r.core.visited ensures exists d :: Listed(d) in r.core.events && d.Id() == id {
      if id in c.visited {
        var d :| Listed(d) in c.events && d.Id() == id;
        assert Listed(d) in r.core.events;
      } else {
        assert Listed(f.fi) in r.core.events;
      }
    }
  }

  /** The state reached by listing the top frame f, and the stack it leaves. */
  ghost function ListTop(w: World, c: Core, c1: Core, rootDev: nat, f: Frame): Option<Scan> {
    var (c2, listing) := ListDir(w, MarkVisited(c1, f.fi), f.fi);
    if listing.None? then None else Some(ScanEntries(w, c2, f.depth, rootDev, listing.value))
  }

  /** Listing the top frame without recording a limit keeps everything covered. */
  lemma {:induction false} ListingCovers(w: World, c: Core, c1: Core, rootDev: nat, f: Frame, rest: seq<Frame>, r: Scan)
    requires DevicesRecorded(w) && !c.stop && rootDev != 0
    requires Covers(w, c, rest + [f])
    requires Genuine(w, f.fi) && f.fi.Enterable() && (w.Crosses() || f.fi.dev == rootDev)
    requires c1.events == c.events && c1.visited == c.visited && !c1.stop
    requires ListTop(w, c, c1, rootDev, f) == Some(r) && NoCut(r.core.events)
    ensures r.finished && !r.core.stop && r.core.visited == c.visited + {f.fi.Id()}
    ensures Covers(w, r.core, rest + Reverse(r.children))
    ensures StackOk(w, rootDev, Reverse(r.children))
  {
    var (c2, listing) := ListDir(w, MarkVisited(c1, f.fi), f.fi);
    var es := listing.value;
    ScanGrows(w, c2, f.depth, rootDev, es);
    PrefixMembers(c2.events, r.core.events);
    ScanSees(w, c2, f.depth, rootDev, es);
    ScanKeeps(w, c2, f.depth, rootDev, es);
    Lex.SortByMembers(w.List(f.fi.path).value.entries, PathOf);
    PushChildren(w, c, rootDev, f, rest, c2, r);
    ReversedOk(w, rootDev, f.fi, r.children);
  }

  lemma {:induction false} ReversedOk(w: World, rootDev: nat, dir: FileInfo, children: seq<Frame>)
    requires DevicesRecorded(w) && rootDev != 0 && w.List(dir.path).Some?
    requires forall k | 0 <= k < |children| ::
               children[k].fi in w.List(dir.path).value.entries && children[k].fi.Enterable() && !w.Declines(children[k].fi, rootDev)
    ensures StackOk(w, rootDev, Reverse(children))
  {
    var pushed := Reverse(children);
    forall k | 0 <= k < |pushed| ensures Genuine(w, pushed[k].fi) && pushed[k].fi.Enterable() && (w.Crosses() || pushed[k].fi.dev == rootDev) {
      var j := |children| - 1 - k;
      assert pushed[k] == children[j];
      assert Genuine(w, children[j].fi);
    }
  }

  /** How a walk that recorded no limit ends. */
  ghost predicate EndsCovered(w: World, visited: set<DevIno>, stack: seq<Frame>, r: Core) {
    && Covers(w, r, []) && !r.stop
    && visited <= r.visited
    && (forall k | 0 <= k < |stack| :: stack[k].fi.Id() in r.visited)
  }

  lemma {:induction false} StackOkTake(w: World, rootDev: nat, stack: seq<Frame>, n: nat)
    requires StackOk(w, rootDev, stack) && n <= |stack|
    ensures StackOk(w, rootDev, stack[..n])
  {
  }

  lemma {:induction false} StackOkAppend(w: World, rootDev: nat, a: seq<Frame>, b: seq<Frame>)
    requires StackOk(w, rootDev, a) && StackOk(w, rootDev, b)
    ensures StackOk(w, rootDev, a + b)
  {
  }

  /** One turn that recorded no limit keeps everything covered. */
  lemma {:induction false} StepCovers(w: World, c: Core, rootDev: nat, stack: seq<Frame>)
    requires DevicesRecorded(w)
    requires c.inodes <= w.cfg.MaxInodes() && !c.stop && stack != []
    requires rootDev != 0
    requires Covers(w, c, stack) && StackOk(w, rootDev, stack)
    requires NoCut(StackStep(w, c, rootDev, stack).core.events)
    ensures var r := StackStep(w, c, rootDev, stack);
            && r.Next? && !r.core.stop
            && Covers(w, r.core, r.stack) && StackOk(w, rootDev, r.stack)
            && c.visited <= r.core.visited
            && stack[..|stack| - 1] <= r.stack && stack[|stack| - 1].fi.Id() in r.core.visited
  {
    StepGrows(w, c, rootDev, stack);
    var (c1, over) := OverBudget(w, c);
    var f, rest := stack[|stack| - 1], stack[..|stack| - 1];
    assert stack == rest + [f];
    assert !over by { LastMember(c1.events); }
    assert Genuine(w, f.fi) && f.fi.Enterable() && (w.Crosses() || f.fi.dev == rootDev) by { assert stack[|rest|] == f; }
    StackOkTake(w, rootDev, stack, |rest|);
    if Revisit(c1, f.fi) {
      PopRevisited(w, c, c1.(cycles := c1.cycles + 1), stack);
    } else {
      var (c2, listing) := ListDir(w, MarkVisited(c1, f.fi), f.fi);
      assert listing.Some? by { LastMember(c2.events); }
      var r := ScanEntries(w, c2, f.depth, rootDev, listing.value);
      ListingCovers(w, c, c1, rootDev, f, rest, r);
      StackOkAppend(w, rootDev, rest, Reverse(r.children));
    }
  }

  lemma {:induction false} StackCovers(w: World, c: Core, rootDev: nat, stack: seq<Frame>)
    requires DevicesRecorded(w)
    requires c.inodes <= w.cfg.MaxInodes() && !c.stop
    requires rootDev != 0
    requires Covers(w, c, stack) && StackOk(w, rootDev, stack)
    requires NoCut(WalkStack(w, c, rootDev, stack).events)
    ensures EndsCovered(w, c.visited, stack, WalkStack(w, c, rootDev, stack))
    decreases w.cfg.MaxInodes() - c.inodes, |stack|
  {
    if stack != [] {
      var step, final := StackStep(w, c, rootDev, stack), WalkStack(w, c, rootDev, stack);
      StepGrows(w, c, rootDev, stack);
      assert NoCut(step.core.events) by {
        if step.Next? { StackGrows(w, step.core, rootDev, step.stack); }
        PrefixMembers(step.core.events, final.events);
      }
      StepCovers(w, c, rootDev, stack);
      StackCovers(w, step.core, rootDev, step.stack);
      EndsCoveredBefore(w, c.visited, step.core.visited, stack, step.stack, final);
    }
  }

  lemma {:induction false} EndsCoveredBefore(w: World, visited: set<DevIno>, mid: set<DevIno>, stack: seq<Frame>, next: seq<Frame>, r: Core)
    requires EndsCovered(w, mid, next, r)
    requires stack != [] && stack[..|stack| - 1] <= next
    requires visited <= mid && stack[|stack| - 1].fi.Id() in mid
    ensures EndsCovered(w, visited, stack, r)
  {
    forall k | 0 <= k < |stack| ensures stack[k].fi.Id() in r.visited {
      if k < |stack| - 1 { assert next[k] == stack[..|stack| - 1][k]; }
    }
  }

  // ---------------------------------------------------------------- all roots

  lemma {:induction false} RootCovers(w: World, c: Core, root: ID)
    requires DevicesRecorded(w)
    requires c.inodes <= w.cfg.MaxInodes() && !c.stop
    requires Covers(w, c, []) && NoCut(WalkRoot(w, c, root).events)
    ensures var r := WalkRoot(w, c, root);
            && Covers(w, r, []) && !r.stop && c.visited <= r.visited
            && w.stat(root).Some? && Seen(w.stat(root).value) in r.events
            && (w.stat(root).value.Enterable() ==> w.stat(root).value.Id() in r.visited)
  {
    var r := WalkRoot(w, c, root);
    RootStops(w, c, root);
    LastMember(r.events);
    var fi := w.stat(root).value;
    var (c1, ok) := Offer(w, c, fi);
    LastMember(c1.events);
    assert Genuine(w, fi) by { assert w.stat(root) == Some(fi); }
    if fi.Enterable() && ok {
      var stack := [Frame(fi, 0)];
      StackGrows(w, c1, fi.dev, stack);
      PrefixMembers(c1.events, r.events);
      StackCovers(w, c1, fi.dev, stack);
      assert stack[0].fi.Id() in r.visited;
    }
  }

  lemma {:induction false} RootsCover(w: World, c: Core, roots: seq<ID>)
    requires DevicesRecorded(w)
    requires c.inodes <= w.cfg.MaxInodes() && !c.stop
    requires Covers(w, c, []) && NoCut(WalkRoots(w, c, roots).events)
    ensures var r := WalkRoots(w, c, roots);
            && Covers(w, r, []) && c.visited <= r.visited && c.events <= r.events
            && (forall root | root in roots ::
                  && w.stat(root).Some? && Seen(w.stat(root).value) in r.events
                  && (w.stat(root).value.Enterable() ==> w.stat(root).value.Id() in r.visited))
    decreases |roots|
  {
    if roots != [] {
      var c1, r := WalkRoot(w, c, roots[0]), WalkRoots(w, c, roots);
      RootStops(w, c, roots[0]);
      RootsGrow(w, c1, roots[1..]);
      PrefixMembers(c1.events, r.events);
      RootCovers(w, c, roots[0]);
      RootsCover(w, c1, roots[1..]);
    }
  }

  lemma {:induction false} RootsGrow(w: World, c: Core, roots: seq<ID>)
    requires c.inodes <= w.cfg.MaxInodes() && StopRecorded(c)
    ensures c.events <= WalkRoots(w, c, roots).events
    decreases |roots|
  {
    if roots != [] {
      RootStops(w, c, roots[0]);
      RootsGrow(w, WalkRoot(w, c, roots[0]), roots[1..]);
    }
  }

  // ---------------------------------------------------------------- scope

  /** p descends from a root, one listed directory at a time, staying in scope. */
  ghost predicate InScope(w: World, p: seq<FileInfo>)
    decreases |p|
  {
    && p != [] && p[|p| - 1].Enterable()
    && if |p| == 1 then exists root | root in w.cfg.Roots() :: w.stat(root) == Some(p[0])
       else
         var parent := p[..|p| - 1];
         && InScope(w, parent)
         && w.List(parent[|parent| - 1].path).Some?
         && p[|p| - 1] in w.List(parent[|parent| - 1].path).value.entries
         && !w.Declines(p[|p| - 1], p[0].dev)
  }

  lemma {:induction false} InScopeIsGenuine(w: World, p: seq<FileInfo>)
    requires DevicesRecorded(w) && InScope(w, p)
    ensures Genuine(w, p[|p| - 1]) && (w.Crosses() || p[|p| - 1].dev == p[0].dev)
    decreases |p|
  {
    if |p| > 1 { InScopeIsGenuine(w, p[..|p| - 1]); InScopeRoot(w, p); }
  }

  lemma {:induction false} InScopeRoot(w: World, p: seq<FileInfo>)
    requires DevicesRecorded(w) && InScope(w, p)
    ensures Genuine(w, p[0])
    decreases |p|
  {
    if |p| > 1 { InScopeRoot(w, p[..|p| - 1]); }
  }

  /** Every directory in scope was entered, under this path or another path to the same inode. */
  lemma {:induction false} ScopeEntered(w: World, p: seq<FileInfo>)
    requires FaithfulIdentities(w) && NoCut(Walk(w).events) && InScope(w, p)
    ensures p[|p| - 1].Id() in Walk(w).visited
    decreases |p|
  {
    var c, d := Walk(w), p[|p| - 1];
    WholeWalkCovers(w);
    if |p| > 1 {
      var q := p[..|p| - 1];
      var parent := q[|q| - 1];
      ScopeEntered(w, q);
      InScopeIsGenuine(w, q);
      InScopeIsGenuine(w, p);
      var x :| Listed(x) in c.events && x.Id() == parent.Id();
      ChildEntered(w, c, parent, x, d, p[0].dev);
    }
  }

  /** Where a directory's contents were listed under some path, its children were entered. */
  lemma {:induction false} ChildEntered(w: World, c: Core, parent: FileInfo, x: FileInfo, d: FileInfo, rootDev: nat)
    requires FaithfulIdentities(w) && Genuine(w, parent) && Genuine(w, x) && parent.Enterable() && x.Enterable() && parent.Id() == x.Id()
    requires Entry(w, parent, d) && d.Enterable() && !w.Declines(d, rootDev) && (w.Crosses() || parent.dev == rootDev)
    requires Accounted(w, c, [], x)
    ensures d.Id() in c.visited
  {
    var d' := Counterpart(w, parent, x, d);
    assert !w.Declines(d', x.dev);
  }

  lemma {:induction false} WholeWalkCovers(w: World)
    requires DevicesRecorded(w) && NoCut(Walk(w).events)
    ensures Covers(w, Walk(w), [])
    ensures forall root | root in w.cfg.Roots() ::
              && w.stat(root).Some? && Seen(w.stat(root).value) in Walk(w).events
              && (w.stat(root).value.Enterable() ==> w.stat(root).value.Id() in Walk(w).visited)
  {
    RootsGrow(w, Prepared(w), w.cfg.Roots());
    LastMember(Prepared(w).events);
    PrefixMembers(Prepared(w).events, Walk(w).events);
    RootsCover(w, Prepared(w), w.cfg.Roots());
  }

  /** Absence soundness. A walk that recorded no limit saw every root, and for every
   * directory in scope saw each entry of it, under this path or another path to the
   * same inode. */
  lemma {:induction false} NothingInScopeMissed(w: World, p: seq<FileInfo>)
    requires FaithfulIdentities(w) && NoCut(Walk(w).events) && InScope(w, p)
    ensures var d := p[|p| - 1];
            && w.List(d.path).Some?
            && forall e | e in w.List(d.path).value.entries ::
                 exists e' :: SameInode(e, e') && Seen(e') in Walk(w).events
  {
    var c, d := Walk(w), p[|p| - 1];
    WholeWalkCovers(w);
    ScopeEntered(w, p);
    InScopeIsGenuine(w, p);
    var x :| Listed(x) in c.events && x.Id() == d.Id();
    assert Accounted(w, c, [], x);
    SameListings(w, x, d);
    forall e | e in w.List(d.path).value.entries
      ensures exists e' :: SameInode(e, e') && Seen(e') in c.events
    {
      assert Entry(w, d, e);
      var e' := Counterpart(w, d, x, e);
      assert Seen(e') in c.events;
    }
  }

  lemma {:induction false} SameListings(w: World, a: FileInfo, b: FileInfo)
    requires FaithfulIdentities(w) && Genuine(w, a) && Genuine(w, b) && a.Enterable() && b.Enterable() && a.Id() == b.Id()
    requires w.List(a.path).Some?
    ensures w.List(b.path).Some?
  {
    assert ContentsIncluded(w, a, b);
  }
}
