/** How far the absence rule reaches for a question that reads the path.
 *
 * A directory met again under another path is not listed again (walker.go:486-497), so its entries
 * are offered under one path only. deviceOutsideDev (collectors/filesys/filesys.go:144-149) reads the path. */
module WalkPaths {
  import opened Basics
  import opened FsFacts
  import opened Ids
  import opened LiveSystem
  import opened WalkSpec
  import opened WalkTheorems
  import opened WalkAbsence
  import opened WalkFacts
  import opened WalkGuarantees
  import Lex

  /** Two paths to one directory list the same inodes under the same names. */
  ghost predicate NamesKept(w: World) {
    && FaithfulIdentities(w)
    && forall a, b, e | Genuine(w, a) && Genuine(w, b) && a.Enterable() && b.Enterable() && a.Id() == b.Id() && Entry(w, a, e) ::
         HasNamesake(w, b, e)
  }

  ghost predicate HasNamesake(w: World, b: FileInfo, e: FileInfo) {
    exists e' :: Entry(w, b, e') && SameInode(e, e') && SameName(e.path, e'.path)
  }

  // ---------------------------------------------------------------- matches that are found

  /** The interest reads no more of a path than its last name, where the device was recorded. */
  ghost predicate AnswersByName(i: Interest) {
    forall a, b | SameInode(a, b) && SameName(a.path, b.path) && a.dev != 0 && Typed(a) :: i.matches(a) == i.matches(b)
  }

  /** Some path to e's inode was offered by the walk and matched, and has its row. */
  ghost predicate FoundMatch(w: World, i: Interest, e: FileInfo) {
    exists e' :: SameInode(e, e') && i.matches(e') && Seen(e') in Walk(w).events && MetAndAnswered(w, i, e')
  }

  /** What an interest misses: a match in scope, with a complete fact that has no match of that inode. */
  ghost predicate Misses(w: World, i: Interest, p: seq<FileInfo>, e: FileInfo) {
    && MatchesFact(i, w.cfg.Roots(), Walk(w)).Complete()
    && InScope(w, p) && Entry(w, p[|p| - 1], e) && i.matches(e) && !FoundMatch(w, i, e)
  }

  /** Without a recorded limit, each entry in scope was met under its own name. */
  lemma {:induction false} MetByName(w: World, p: seq<FileInfo>, e: FileInfo)
    requires NamesKept(w) && NoCut(Walk(w).events) && InScope(w, p) && Entry(w, p[|p| - 1], e)
    ensures exists e' :: SameInode(e, e') && SameName(e.path, e'.path) && Seen(e') in Walk(w).events
  {
    var c, d := Walk(w), p[|p| - 1];
    WholeWalkCovers(w);
    ScopeEntered(w, p);
    InScopeIsGenuine(w, p);
    var x :| Listed(x) in c.events && x.Id() == d.Id();
    assert Accounted(w, c, [], x);
    assert HasNamesake(w, x, e);
    var e' :| Entry(w, x, e') && SameInode(e, e') && SameName(e.path, e'.path);
    assert Seen(e') in c.events;
  }

  lemma {:induction false} NothingMissed(w: World, i: Interest, p: seq<FileInfo>, e: FileInfo)
    requires LaidOut(w) && NamesKept(w) && AnswersByName(i)
    ensures !Misses(w, i, p, e)
  {
    if MatchesFact(i, w.cfg.Roots(), Walk(w)).Complete() && InScope(w, p) && Entry(w, p[|p| - 1], e) && i.matches(e) {
      CompleteMeansAll(i, w);
      WalkIsHonest(w);
      MetByName(w, p, e);
      var e' :| SameInode(e, e') && SameName(e.path, e'.path) && Seen(e') in Walk(w).events;
      assert Genuine(w, e);
      assert IsEntryOf(w, p[|p| - 1].path, e) && StatIsClean(w, e.path);
      assert MetAndAnswered(w, i, e');
    }
  }

  // ---------------------------------------------------------------- two ways into one directory

  /** The directory, under the given path. */
  function Shared(a: FileInfo, path: ID): FileInfo {
    FileInfo(path, MODE_DIR, 0, 0, 0, true, false, false, a.dev, a.ino + 1)
  }

  /** Two roots that are one directory, whose one entry is a under the first and b under the second. */
  function TwoWays(d: ID, d': ID, a: FileInfo, b: FileInfo): World {
    World(
      path =>
        if path == d || path == d' then Some(Shared(a, path))
        else if path == a.path then Some(a)
        else if path == b.path then Some(b)
        else None,
      (path, max) =>
        if path == d then Some(DirResult([a], false))
        else if path == d' then Some(DirResult([b], false))
        else if (path == a.path || path == b.path) && a.Enterable() then Some(DirResult([], false))
        else None,
      path => None,
      true,
      n => false,
      n => 0,
      Config([d, d'], false, 0, 0, 0, 0))
  }

  /** Neither root lies in the other, nor in its entry. */
  ghost predicate Apart(d: ID, d': ID, n: string) {
    && CleanPath(d) && CleanPath(d') && ProperName(n) && d != d'
    && forall q, m | (q == d || q == d' || q == Below(d, n) || q == Below(d', n)) && ProperName(m) :: Below(q, m) != d && Below(q, m) != d'
  }

  /** a and b are one inode whose device was recorded, called n in d and in d'. */
  ghost predicate OneInode(d: ID, d': ID, n: string, a: FileInfo, b: FileInfo) {
    Apart(d, d', n) && SameInode(a, b) && a.dev != 0 && Typed(a) && a.path == Below(d, n) && b.path == Below(d', n)
  }

  /** What the walk of that filesystem depends on. */
  predicate Ways(d: ID, d': ID, a: FileInfo, b: FileInfo) {
    && SameInode(a, b) && a.dev != 0
    && d != d' && a.path != d && a.path != d' && b.path != d && b.path != d' && a.path != b.path
  }

  lemma {:induction false} WaysDiffer(d: ID, d': ID, n: string, a: FileInfo, b: FileInfo)
    requires OneInode(d, d', n, a, b)
    ensures Ways(d, d', a, b)
  {
    if a.path == b.path { BelowOnce(d, n, d', n); }
  }

  lemma {:induction false} NamesakesOf(d: ID, d': ID, n: string, a: FileInfo, b: FileInfo)
    requires OneInode(d, d', n, a, b)
    ensures SameName(a.path, a.path) && SameName(a.path, b.path) && SameName(b.path, a.path) && SameName(b.path, b.path)
  {
  }

  lemma {:induction false} OnlyThese(d: ID, d': ID, a: FileInfo, b: FileInfo, fi: FileInfo)
    requires Genuine(TwoWays(d, d', a, b), fi)
    ensures fi == Shared(a, d) || fi == Shared(a, d') || fi == a || fi == b
  {
  }

  /** Both ways into the directory list one inode, under paths that are related. */
  lemma {:induction false} OneDirectory(
      d: ID, d': ID, a: FileInfo, b: FileInfo, x: FileInfo, y: FileInfo, e: FileInfo, rel: (ID, ID) -> bool)
    returns (e': FileInfo)
    requires Ways(d, d', a, b) && x.Enterable() && y.Enterable() && x.Id() == y.Id()
    requires Genuine(TwoWays(d, d', a, b), x) && Genuine(TwoWays(d, d', a, b), y) && Entry(TwoWays(d, d', a, b), x, e)
    requires forall p, q | (p == a.path || p == b.path) && (q == a.path || q == b.path) :: rel(p, q)
    ensures Entry(TwoWays(d, d', a, b), y, e') && SameInode(e, e') && rel(e.path, e'.path)
  {
    var w := TwoWays(d, d', a, b);
    OnlyThese(d, d', a, b, x);
    OnlyThese(d, d', a, b, y);
    e' := if y.path == d then a else b;
    assert a in w.List(d).value.entries && b in w.List(d').value.entries;
    assert e == a || e == b;
  }

  lemma {:induction false} TwoWaysIsFaithful(d: ID, d': ID, a: FileInfo, b: FileInfo)
    requires Ways(d, d', a, b)
    ensures FaithfulIdentities(TwoWays(d, d', a, b))
    ensures InScope(TwoWays(d, d', a, b), [Shared(a, d')])
  {
    var w := TwoWays(d, d', a, b);
    forall x | Genuine(w, x) ensures x.dev != 0 { OnlyThese(d, d', a, b, x); }
    forall x, y | Genuine(w, x) && Genuine(w, y) && x.Enterable() && y.Enterable() && x.Id() == y.Id()
      ensures ContentsIncluded(w, x, y)
    {
      OnlyThese(d, d', a, b, x);
      OnlyThese(d, d', a, b, y);
      forall e | Entry(w, x, e)
        ensures exists e' :: e' in w.List(y.path).value.entries && SameInode(e, e') && w.SkippedHere(e.path) == w.SkippedHere(e'.path)
      {
        var e' := OneDirectory(d, d', a, b, x, y, e, (p, q) => true);
        assert w.SkippedHere(e.path) == w.SkippedHere(e'.path);
      }
    }
    assert d' in w.cfg.Roots() && w.stat(d') == Some(Shared(a, d'));
  }

  lemma {:induction false} TwoWaysKeepsNames(d: ID, d': ID, n: string, a: FileInfo, b: FileInfo)
    requires OneInode(d, d', n, a, b)
    ensures NamesKept(TwoWays(d, d', a, b))
  {
    var w := TwoWays(d, d', a, b);
    WaysDiffer(d, d', n, a, b);
    NamesakesOf(d, d', n, a, b);
    TwoWaysIsFaithful(d, d', a, b);
    forall x, y, e | Genuine(w, x) && Genuine(w, y) && x.Enterable() && y.Enterable() && x.Id() == y.Id() && Entry(w, x, e)
      ensures HasNamesake(w, y, e)
    {
      var e' := OneDirectory(d, d', a, b, x, y, e, SameNames());
    }
  }

  ghost function SameNames(): (ID, ID) -> bool { (p, q) => SameName(p, q) }

  lemma {:induction false} TwoWaysListsAll(d: ID, d': ID, n: string, a: FileInfo, b: FileInfo, p: ID, m: string)
    requires OneInode(d, d', n, a, b) && CleanPath(p) && ProperName(m)
    requires var w := TwoWays(d, d', a, b); w.List(p).Some? && w.stat(Below(p, m)).Some?
    ensures var w := TwoWays(d, d', a, b); w.stat(Below(p, m)).value in w.List(p).value.entries
  {
    WaysDiffer(d, d', n, a, b);
    if Below(p, m) == a.path { BelowOnce(p, m, d, n); } else { BelowOnce(p, m, d', n); }
  }

  /** Every path it answers is clean, if these four are. */
  lemma {:induction false} TwoWaysPaths(d: ID, d': ID, a: FileInfo, b: FileInfo, p: ID)
    requires Ways(d, d', a, b) && Typed(a)
    ensures var w := TwoWays(d, d', a, b);
            && (w.List(p).Some? ==> w.stat(p).Some?)
            && (w.stat(p).Some? ==> (p == d || p == d' || p == a.path || p == b.path) && w.stat(p).value.path == p && Typed(w.stat(p).value))
            && (forall e | w.List(p).Some? && e in w.List(p).value.entries :: w.stat(e.path) == Some(e) && ((e == a && p == d) || (e == b && p == d')))
  {
    DirectoryIsTyped(a, p);
  }

  lemma {:induction false} DirectoryIsTyped(a: FileInfo, p: ID)
    ensures Typed(Shared(a, p))
  {
  }

  lemma {:induction false} FourClean(d: ID, d': ID, n: string)
    requires Apart(d, d', n)
    ensures CleanPath(d) && CleanPath(d') && CleanPath(Below(d, n)) && CleanPath(Below(d', n))
  {
    BelowIsClean(d, n);
    BelowIsClean(d', n);
  }

  lemma {:induction false} TwoWaysIsLaidOut(d: ID, d': ID, n: string, a: FileInfo, b: FileInfo)
    requires OneInode(d, d', n, a, b)
    ensures LaidOut(TwoWays(d, d', a, b))
  {
    var w := TwoWays(d, d', a, b);
    WaysDiffer(d, d', n, a, b);
    FourClean(d, d', n);
    forall p | w.stat(p).Some? ensures StatIsClean(w, p) { TwoWaysPaths(d, d', a, b, p); }
    forall p | w.List(p).Some? ensures CleanPath(p) && w.stat(p).Some? { TwoWaysPaths(d, d', a, b, p); }
    forall p | w.List(p).Some? ensures forall e | e in w.List(p).value.entries :: IsEntryOf(w, p, e) { TwoWaysPaths(d, d', a, b, p); }
    forall p | w.List(p).Some? && !w.List(p).value.truncated ensures ListsAll(w, p) {
      forall m | ProperName(m) && w.stat(Below(p, m)).Some? ensures w.stat(Below(p, m)).value in w.List(p).value.entries {
        TwoWaysListsAll(d, d', n, a, b, p, m);
      }
    }
  }

  // ---------------------------------------------------------------- the walk of it

  /** A walk that is going on, with room left. */
  predicate GoingOn(c: Core, inodes: nat) {
    !c.stop && c.inodes == inodes && inodes < 4
  }

  lemma {:induction false} FirstRoot(d: ID, d': ID, a: FileInfo, b: FileInfo)
    requires Ways(d, d', a, b)
    ensures var w, x := TwoWays(d, d', a, b), d;
            var c := WalkRoot(w, Prepared(w), x);
            && GoingOn(c, 2) && Shared(a, x).Id() in c.visited
            && c.events == [Seen(Shared(a, x)), Listed(Shared(a, x)), Seen(a)] + if a.Enterable() then [Listed(a)] else []
  {
    var w, x := TwoWays(d, d', a, b), d;
    var fi := Shared(a, x);
    var (c1, ok) := Offer(w, Prepared(w), fi);
    assert ok && c1.events == [Seen(fi)] && GoingOn(c1, 1);
    EnterFirst(d, d', a, b, c1);
  }

  lemma {:induction false} EnterFirst(d: ID, d': ID, a: FileInfo, b: FileInfo, c: Core)
    requires Ways(d, d', a, b)
    requires GoingOn(c, 1) && c.visited == {}
    ensures var w, fi := TwoWays(d, d', a, b), Shared(a, d);
            var r := WalkStack(w, c, fi.dev, [Frame(fi, 0)]);
            && GoingOn(r, 2) && fi.Id() in r.visited
            && r.events == c.events + [Listed(fi), Seen(a)] + if a.Enterable() then [Listed(a)] else []
  {
    var w, fi := TwoWays(d, d', a, b), Shared(a, d);
    ListFirst(d, d', a, b, c);
    var next := StackStep(w, c, fi.dev, [Frame(fi, 0)]);
    assert WalkStack(w, c, fi.dev, [Frame(fi, 0)]) == WalkStack(w, next.core, fi.dev, next.stack);
    if a.Enterable() {
      EnterEmpty(w, next.core, fi.dev, a, 1);
    }
  }

  /** Listing the first root: its one entry is offered, and waits if it is a directory. */
  lemma {:induction false} ListFirst(d: ID, d': ID, a: FileInfo, b: FileInfo, c: Core)
    requires Ways(d, d', a, b)
    requires GoingOn(c, 1) && c.visited == {}
    ensures var w, fi := TwoWays(d, d', a, b), Shared(a, d);
            var next := StackStep(w, c, fi.dev, [Frame(fi, 0)]);
            && next.Next? && GoingOn(next.core, 2) && next.core.visited == {fi.Id()}
            && next.core.events == c.events + [Listed(fi), Seen(a)]
            && next.stack == if a.Enterable() then [Frame(a, 1)] else []
  {
    var w, fi := TwoWays(d, d', a, b), Shared(a, d);
    var c1 := OverBudget(w, c).0;
    assert c1 == c.(ticks := c.ticks + 1);
    var c2 := ListDir(w, MarkVisited(c1, fi), fi).0;
    assert Lex.SortBy([a], PathOf) == [a];
    ScanOne(w, c2, fi.dev, a);
    var r := ScanEntries(w, c2, 0, fi.dev, [a]);
    assert Reverse(r.children) == r.children;
    assert [Frame(fi, 0)][..0] + r.children == r.children;
  }

  /** One entry on the root's device is offered, and entered if it is a directory. */
  lemma {:induction false} ScanOne(w: World, c: Core, rootDev: nat, e: FileInfo)
    requires GoingOn(c, 1) && w.cfg.MaxInodes() == DEFAULT_MAX_INODES && w.cfg.MaxDepth() == DEFAULT_MAX_DEPTH
    requires e.dev == rootDev && !w.SkippedHere(e.path)
    ensures var r := ScanEntries(w, c, 0, rootDev, [e]);
            && r.finished && GoingOn(r.core, 2) && r.core.visited == c.visited && r.core.events == c.events + [Seen(e)]
            && r.children == if e.Enterable() then [Frame(e, 1)] else []
  {
    var c2 := Offer(w, c, e).0;
    assert [e][1..] == [];
    assert ScanEntries(w, c2, 0, rootDev, []) == Scan(c2, [], true);
  }

  /** Entering an empty directory. */
  lemma {:induction false} EnterEmpty(w: World, c: Core, rootDev: nat, d: FileInfo, depth: int)
    requires GoingOn(c, 2) && w.cfg.MaxInodes() == DEFAULT_MAX_INODES
    requires (forall n :: !w.ctxDone(n)) && (forall n :: w.clock(n) == 0) && w.Deadline() > 0
    requires w.List(d.path) == Some(DirResult([], false)) && !Revisit(c, d)
    ensures var r := WalkStack(w, c, rootDev, [Frame(d, depth)]);
            GoingOn(r, 2) && c.visited <= r.visited && r.events == c.events + [Listed(d)]
  {
    var c1 := OverBudget(w, c).0;
    assert c1 == c.(ticks := c.ticks + 1);
    var c2 := ListDir(w, MarkVisited(c1, d), d).0;
    assert ScanEntries(w, c2, depth, rootDev, []) == Scan(c2, [], true);
    var rest := [Frame(d, depth)][..0];
    assert rest + Reverse<Frame>([]) == [];
    assert StackStep(w, c, rootDev, [Frame(d, depth)]) == Next(c2, []);
  }

  /** The second root is offered, and found to have been entered already. */
  lemma {:induction false} SecondRoot(d: ID, d': ID, a: FileInfo, b: FileInfo, c: Core)
    requires Ways(d, d', a, b)
    requires GoingOn(c, 2) && Shared(a, d).Id() in c.visited
    ensures var w, y := TwoWays(d, d', a, b), d';
            var r := WalkRoot(w, c, y);
            !r.stop && r.events == c.events + [Seen(Shared(a, y))]
  {
    var w, y := TwoWays(d, d', a, b), d';
    var fi := Shared(a, y);
    var c1 := Offer(w, c, fi).0;
    assert c1.events == c.events + [Seen(fi)] && GoingOn(c1, 3);
    var c2 := OverBudget(w, c1).0;
    assert Revisit(c2, fi);
    var c3 := c2.(cycles := c2.cycles + 1);
    assert [Frame(fi, 0)][..0] == [];
    assert StackStep(w, c1, fi.dev, [Frame(fi, 0)]) == Next(c3, []);
    assert WalkStack(w, c3, fi.dev, []) == c3;
    assert WalkStack(w, c1, fi.dev, [Frame(fi, 0)]) == c3;
  }

  /** What a walk of it offers: the directory twice, and its entry under the first path alone. */
  lemma {:induction false} WalkOfTwoWays(d: ID, d': ID, a: FileInfo, b: FileInfo)
    requires Ways(d, d', a, b)
    ensures var x, y := d, d';
            Walk(TwoWays(d, d', a, b)).events ==
              [Seen(Shared(a, x)), Listed(Shared(a, x)), Seen(a)] + (if a.Enterable() then [Listed(a)] else []) + [Seen(Shared(a, y))]
  {
    var w, x, y := TwoWays(d, d', a, b), d, d';
    FirstRoot(d, d', a, b);
    var c := WalkRoot(w, Prepared(w), x);
    SecondRoot(d, d', a, b, c);
    assert w.cfg.Roots()[1..] == [y] && [y][1..] == [];
    var r := WalkRoot(w, c, y);
    assert WalkRoots(w, r, []) == r;
    assert WalkRoots(w, c, [y]) == r;
  }

  lemma {:induction false} MatchedSnoc(i: Interest, events: seq<Event>, e: Event)
    ensures |Matched(i, events + [e])| <= |Matched(i, events)| + if e.Seen? && i.matches(e.fi) then 1 else 0
  {
    assert (events + [e])[..|events|] == events;
  }

  /** Of such events an interest that turns a down matches the two visits to the directory at most. */
  lemma {:induction false} AtMostTwo(i: Interest, x: FileInfo, a: FileInfo, y: FileInfo, listed: seq<Event>)
    requires !i.matches(a) && |listed| <= 1 && (listed != [] ==> listed[0].Listed?)
    ensures |Matched(i, [Seen(x), Listed(x), Seen(a)] + listed + [Seen(y)])| <= 2
  {
    var three := [Seen(x), Listed(x), Seen(a)];
    assert [Seen(x)] == [] + [Seen(x)] && three == ([Seen(x)] + [Listed(x)]) + [Seen(a)];
    MatchedSnoc(i, [], Seen(x));
    MatchedSnoc(i, [Seen(x)], Listed(x));
    MatchedSnoc(i, [Seen(x)] + [Listed(x)], Seen(a));
    if listed == [] {
      assert three + listed == three;
    } else {
      assert listed == [listed[0]];
      MatchedSnoc(i, three, listed[0]);
    }
    MatchedSnoc(i, three + listed, Seen(y));
  }

  lemma {:induction false} CompleteWithoutIt(i: Interest, d: ID, d': ID, a: FileInfo, b: FileInfo)
    requires Ways(d, d', a, b) && !i.matches(a) && i.MaxHits() >= 2
    ensures MatchesFact(i, TwoWays(d, d', a, b).cfg.Roots(), Walk(TwoWays(d, d', a, b))).Complete()
  {
    var w := TwoWays(d, d', a, b);
    WalkOfTwoWays(d, d', a, b);
    AtMostTwo(i, Shared(a, d), a, Shared(a, d'), if a.Enterable() then [Listed(a)] else []);
    FactIsExact(i, w.cfg.Roots(), Walk(w).events);
  }

  /** In that filesystem b is in scope and matches, and is missed. */
  lemma {:induction false} EntryIsMissed(i: Interest, d: ID, d': ID, n: string, a: FileInfo, b: FileInfo)
    requires OneInode(d, d', n, a, b) && !i.matches(a) && i.matches(b) && i.MaxHits() >= 2
    ensures var w, dir := TwoWays(d, d', a, b), Shared(a, d'); LaidOut(w) && NamesKept(w) && Misses(w, i, [dir], b)
  {
    var w := TwoWays(d, d', a, b);
    TwoWaysIsLaidOut(d, d', n, a, b);
    TwoWaysKeepsNames(d, d', n, a, b);
    WaysDiffer(d, d', n, a, b);
    IsMissed(i, d, d', a, b);
  }

  lemma {:induction false} IsMissed(i: Interest, d: ID, d': ID, a: FileInfo, b: FileInfo)
    requires Ways(d, d', a, b) && !i.matches(a) && i.matches(b) && i.MaxHits() >= 2
    ensures Misses(TwoWays(d, d', a, b), i, [Shared(a, d')], b)
  {
    var w := TwoWays(d, d', a, b);
    TwoWaysIsFaithful(d, d', a, b);
    CompleteWithoutIt(i, d, d', a, b);
    WalkOfTwoWays(d, d', a, b);
    forall e' | SameInode(b, e') && Seen(e') in Walk(w).events ensures !i.matches(e') {
      assert e' == a;
    }
  }

  // ---------------------------------------------------------------- a third directory

  function Repeated(k: nat): string { seq(k, j => 'x') }

  /** A path too long to lie in the way of others, with a parent that does not either. */
  function Remote(k: nat): ID { At([ID(Repeated(k + 1)), ID(Repeated(k + 1))]) }

  lemma {:induction false} RemoteIs(k: nat)
    ensures var z := Repeated(k + 1);
            ProperName(z) && CleanPath(At([ID(z)])) && CleanPath(Remote(k)) && Remote(k) == Below(At([ID(z)]), z) && |At([ID(z)]).name| == k + 2
  {
    var z := Repeated(k + 1);
    var none: seq<ID> := [];
    assert z[0] == 'x' && [ID(z)][..0] == none && [ID(z), ID(z)][..1] == [ID(z)];
    assert At([ID(z)]) == Below(ID("/"), z);
    assert ID("/") == At([]);
    BelowIsClean(ID("/"), z);
    BelowIsClean(At([ID(z)]), z);
  }

  /** Such a directory is apart from any shorter one. */
  lemma {:induction false} RemoteIsApart(d: ID, n: string, k: nat)
    requires CleanPath(d) && ProperName(n) && |d.name| + |n| + 1 <= k
    ensures Apart(d, Remote(k), n) && Apart(Remote(k), d, n)
  {
    var z, r := Repeated(k + 1), Remote(k);
    RemoteIs(k);
    BelowIsLonger(At([ID(z)]), z);
    BelowIsLonger(d, n);
    BelowIsLonger(r, n);
    BelowIsClean(d, n);
    BelowIsClean(r, n);
    forall q, m | (q == d || q == r || q == Below(d, n) || q == Below(r, n)) && ProperName(m) ensures Below(q, m) != d && Below(q, m) != r {
      BelowIsLonger(q, m);
      if Below(q, m) == r { BelowOnce(q, m, At([ID(z)]), z); }
    }
  }

  /** An interest that tells two paths of one name apart tells one of them from a third. */
  lemma {:induction false} SomethingIsMissed(i: Interest, d: ID, n: string, a: FileInfo, k: nat)
    requires CleanPath(d) && ProperName(n) && a.path == Below(d, n) && a.dev != 0 && Typed(a) && |d.name| + |n| + 1 <= k
    requires i.MaxHits() >= 2 && i.matches(a) != i.matches(a.(path := Below(Remote(k), n)))
    ensures exists w: World, p, e :: LaidOut(w) && NamesKept(w) && Misses(w, i, p, e)
  {
    var r := Remote(k);
    var c := a.(path := Below(r, n));
    RemoteIsApart(d, n, k);
    if i.matches(a) {
      EntryIsMissed(i, r, d, n, c, a);
    } else {
      EntryIsMissed(i, d, r, n, a, c);
    }
  }

  /**
   * No match in scope is missed, in any filesystem, exactly when the interest reads no more of a path than its
   * last name. walker.go:489-491 calls absence safe to conclude without that condition.
   */
  lemma {:induction false} MatchesAreFoundExactlyWhen(i: Interest)
    requires i.MaxHits() >= 2
    ensures AnswersByName(i) <==> forall w: World, p, e | LaidOut(w) && NamesKept(w) :: !Misses(w, i, p, e)
  {
    if AnswersByName(i) {
      forall w: World, p, e | LaidOut(w) && NamesKept(w) ensures !Misses(w, i, p, e) { NothingMissed(w, i, p, e); }
    } else {
      var a, b :| SameInode(a, b) && SameName(a.path, b.path) && a.dev != 0 && Typed(a) && i.matches(a) != i.matches(b);
      var d, d', n :| CleanPath(d) && CleanPath(d') && ProperName(n) && a.path == Below(d, n) && b.path == Below(d', n);
      var k := |d.name| + |d'.name| + |n| + 1;
      var c := a.(path := Below(Remote(k), n));
      assert c == b.(path := Below(Remote(k), n));
      if i.matches(a) != i.matches(c) { SomethingIsMissed(i, d, n, a, k); } else { SomethingIsMissed(i, d', n, b, k); }
    }
  }

  // ---------------------------------------------------------------- the interest that reads the path

  const DEV_DIR := "/dev"

  /** deviceOutsideDev: a device node whose path is not under /dev. */
  predicate DeviceOutsideDev(fi: FileInfo) {
    HasBit(fi.mode, MODE_DEVICE) && fi.path != ID(DEV_DIR) && !(DEV_DIR + "/" <= fi.path.name)
  }

  const DEV := ID("/dev")
  const SRV := ID("/srv")

  /** A device node named sda. */
  function Node(dir: ID): FileInfo {
    FileInfo(Below(dir, "sda"), MODE_DEVICE, 0, 0, 0, false, false, false, 1, 1)
  }

  /** A directory right under the top is below nothing else. */
  lemma {:induction false} OnlyUnderTop(q: ID, m: string, n: string)
    requires CleanPath(q) && ProperName(m) && ProperName(n) && q != ID("/")
    ensures Below(q, m) != Below(ID("/"), n)
  {
    TopIsClean();
    if Below(q, m) == Below(ID("/"), n) { BelowOnce(q, m, ID("/"), n); }
  }

  lemma {:induction false} TopIsClean()
    ensures CleanPath(ID("/"))
  {
    assert ID("/") == At([]);
  }

  /** Two directories right under the top are apart. */
  lemma {:induction false} TopLevelApart(x: string, y: string, n: string)
    requires ProperName(x) && ProperName(y) && ProperName(n) && x != y
    ensures Apart(Below(ID("/"), x), Below(ID("/"), y), n)
  {
    var top := ID("/");
    var d, d' := Below(top, x), Below(top, y);
    TopIsClean();
    BelowIsClean(top, x);
    BelowIsClean(top, y);
    BelowIsClean(d, n);
    BelowIsClean(d', n);
    if d == d' { BelowOnce(top, x, top, y); }
    forall q, m | (q == d || q == d' || q == Below(d, n) || q == Below(d', n)) && ProperName(m) ensures Below(q, m) != d && Below(q, m) != d' {
      NotTop(q, top, x, y, n);
      OnlyUnderTop(q, m, x);
      OnlyUnderTop(q, m, y);
    }
  }

  lemma {:induction false} NotTop(q: ID, top: ID, x: string, y: string, n: string)
    requires top == ID("/") && ProperName(x) && ProperName(y) && ProperName(n)
    requires var d, d' := Below(top, x), Below(top, y); q == d || q == d' || q == Below(d, n) || q == Below(d', n)
    ensures q != top
  {
    assert |Below(top, x).name| > 1 && |Below(top, y).name| > 1;
  }

  lemma {:induction false} NodesAreOne()
    ensures DEV == Below(ID("/"), "dev") && SRV == Below(ID("/"), "srv")
    ensures ProperName("dev") && ProperName("srv") && ProperName("sda") && "dev" != "srv"
    ensures SameInode(Node(DEV), Node(SRV)) && Typed(Node(DEV))
  {
    assert "dev"[0] != "srv"[0];
  }

  lemma {:induction false} NodePaths()
    ensures Node(SRV).path == ID("/srv/sda") && !DeviceOutsideDev(Node(DEV)) && DeviceOutsideDev(Node(SRV))
  {
    assert DEV_DIR + "/" <= Node(DEV).path.name;
    assert Node(SRV).path.name[1] == 's';
  }

  /** Where /dev and /srv are one directory and both are roots, its device node is missed: met in /dev, it is no match. */
  lemma {:induction false} DeviceCanBeMissed(i: Interest)
    requires (forall fi :: i.matches(fi) == DeviceOutsideDev(fi)) && i.MaxHits() >= 2
    ensures var w := TwoWays(DEV, SRV, Node(DEV), Node(SRV));
            && LaidOut(w) && NamesKept(w) && w.cfg.Roots() == [ID("/dev"), ID("/srv")]
            && Node(SRV).path == ID("/srv/sda") && Misses(w, i, [Shared(Node(DEV), SRV)], Node(SRV))
  {
    NodesAreOne();
    NodePaths();
    TopLevelApart("dev", "srv", "sda");
    EntryIsMissed(i, DEV, SRV, "sda", Node(DEV), Node(SRV));
  }
}
