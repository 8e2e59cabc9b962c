/** In which order a walk goes: depth first, each directory's entries sorted (walker.go:447-548). */
module WalkOrder {
  import opened Basics
  import opened FsFacts
  import opened Ids
  import opened WalkSpec
  import opened WalkTheorems
  import opened WalkFacts
  import opened LiveSystem
  import opened PathOrder
  import Lex

  // ---------------------------------------------------------------- where an event stands

  /** A directory, and in it either the listing itself (no name) or one entry. */
  datatype Place = Place(dir: seq<ID>, name: ID)

  const LISTING := ID("")

  ghost predicate IsPlace(e: Event, p: Place) {
    Proper(p.dir) &&
    match e
    case Listed(d) => p.name == LISTING && d.path == At(p.dir)
    case Seen(fi) => ProperName(p.name.name) && fi.path == Below(At(p.dir), p.name.name)
    case Cut(_) => false
  }

  /** Directories in the order of their paths, name by name; in each the listing and then its entries by name. */
  predicate Earlier(a: Place, b: Place) {
    Before(a.dir, b.dir) || (a.dir == b.dir && LessID(a.name, b.name))
  }

  lemma {:induction false} PlaceOnce(e: Event, p: Place, q: Place)
    requires IsPlace(e, p) && IsPlace(e, q)
    ensures p == q
  {
    match e
    case Listed(_) => AtOnce(p.dir, q.dir);
    case Seen(_) =>
      AtIsClean(p.dir);
      AtIsClean(q.dir);
      BelowOnce(At(p.dir), p.name.name, At(q.dir), q.name.name);
      AtOnce(p.dir, q.dir);
  }

  lemma {:induction false} EarlierOneWay(a: Place, b: Place)
    requires Earlier(a, b)
    ensures !Earlier(b, a)
  {
    if Before(a.dir, b.dir) {
      BeforeOneWay(a.dir, b.dir);
    } else {
      LessOneWay(a.name, b.name);
      if Before(a.dir, a.dir) { BeforeOneWay(a.dir, a.dir); }
    }
  }

  /** The listings and offers of this stretch stand in order. */
  ghost predicate InOrder(events: seq<Event>, from: nat, to: nat) {
    from <= to <= |events| &&
    forall i, j, p, q | from <= i < j < to && IsPlace(events[i], p) && IsPlace(events[j], q) :: Earlier(p, q)
  }

  /** Places of one directory only. */
  ghost predicate AllIn(events: seq<Event>, dir: seq<ID>) {
    forall k, q | 0 <= k < |events| && IsPlace(events[k], q) :: q.dir == dir
  }

  /** Everything so far comes before dir and what lies below it. */
  ghost predicate AllBefore(events: seq<Event>, from: nat, dir: seq<ID>) {
    forall i, p | from <= i < |events| && IsPlace(events[i], p) :: Before(p.dir, dir)
  }

  lemma {:induction false} AppendInOrder(events: seq<Event>, from: nat, more: seq<Event>, dir: seq<ID>)
    requires InOrder(events, from, |events|) && AllBefore(events, from, dir)
    requires InOrder(more, 0, |more|) && AllIn(more, dir)
    ensures InOrder(events + more, from, |events + more|)
  {
    var all := events + more;
    forall i, j, p, q | from <= i < j < |all| && IsPlace(all[i], p) && IsPlace(all[j], q) ensures Earlier(p, q) {
      if i >= |events| { assert all[i] == more[i - |events|]; }
      if j >= |events| { assert all[j] == more[j - |events|]; }
    }
  }

  // ---------------------------------------------------------------- one listing

  /** The entries of dir, by ascending name. */
  ghost predicate NamedBy(dir: seq<ID>, es: seq<FileInfo>, names: seq<ID>) {
    && Proper(dir) && |names| == |es|
    && (forall k | 0 <= k < |es| :: ProperName(names[k].name) && es[k].path == Below(At(dir), names[k].name))
    && (forall k, l | 0 <= k < l < |es| :: LessID(names[k], names[l]))
  }

  /** Offers of these entries in turn, with limits in between. */
  ghost predicate Offers(more: seq<Event>, es: seq<FileInfo>) {
    || more == []
    || (more[0].Cut? && Offers(more[1..], es))
    || (es != [] && more[0] == Seen(es[0]) && Offers(more[1..], es[1..]))
  }

  lemma {:induction false} NamedRest(dir: seq<ID>, es: seq<FileInfo>, names: seq<ID>)
    requires es != [] && NamedBy(dir, es, names)
    ensures NamedBy(dir, es[1..], names[1..])
  {
  }

  lemma {:induction false} OffersStand(more: seq<Event>, es: seq<FileInfo>, dir: seq<ID>, names: seq<ID>)
    requires Offers(more, es) && NamedBy(dir, es, names)
    ensures InOrder(more, 0, |more|)
    ensures forall k, q | 0 <= k < |more| && IsPlace(more[k], q) :: q.dir == dir && q.name in names
    decreases |more|
  {
    if more != [] {
      var rest := more[1..];
      if more[0].Cut? && Offers(rest, es) {
        OffersStand(rest, es, dir, names);
        CutFirst(more);
      } else {
        NamedRest(dir, es, names);
        OffersStand(rest, es[1..], dir, names[1..]);
        SeenFirst(more, dir, names);
      }
    }
  }

  lemma {:induction false} CutFirst(more: seq<Event>)
    requires more != [] && more[0].Cut? && InOrder(more[1..], 0, |more| - 1)
    ensures InOrder(more, 0, |more|)
    ensures forall k, q | 0 <= k < |more| && IsPlace(more[k], q) :: k > 0 && IsPlace(more[1..][k - 1], q)
  {
    forall i, j, p, q | 0 <= i < j < |more| && IsPlace(more[i], p) && IsPlace(more[j], q) ensures Earlier(p, q) {
      assert more[i] == more[1..][i - 1] && more[j] == more[1..][j - 1];
    }
  }

  lemma {:induction false} SeenFirst(more: seq<Event>, dir: seq<ID>, names: seq<ID>)
    requires more != [] && names != [] && InOrder(more[1..], 0, |more| - 1) && Proper(dir) && ProperName(names[0].name)
    requires more[0].Seen? && more[0].fi.path == Below(At(dir), names[0].name)
    requires forall n | n in names[1..] :: LessID(names[0], n)
    requires forall k, q | 0 <= k < |more| - 1 && IsPlace(more[1..][k], q) :: q.dir == dir && q.name in names[1..]
    ensures InOrder(more, 0, |more|)
    ensures forall k, q | 0 <= k < |more| && IsPlace(more[k], q) :: q.dir == dir && q.name in names
  {
    var first := Place(dir, names[0]);
    assert IsPlace(more[0], first);
    assert forall k | 0 < k < |more| :: more[k] == more[1..][k - 1];
    forall k, q | 0 <= k < |more| && IsPlace(more[k], q) ensures q.dir == dir && q.name in names {
      if k == 0 { PlaceOnce(more[0], first, q); }
    }
    forall i, j, p, q | 0 <= i < j < |more| && IsPlace(more[i], p) && IsPlace(more[j], q) ensures Earlier(p, q) {
      if i == 0 { PlaceOnce(more[0], first, p); }
    }
  }

  /** The listing itself, then limits, then the offers. */
  lemma {:induction false} ListingFirst(d: FileInfo, dir: seq<ID>, cuts: seq<Event>, more: seq<Event>, names: seq<ID>)
    requires Proper(dir) && d.path == At(dir) && (forall k | 0 <= k < |cuts| :: cuts[k].Cut?)
    requires InOrder(more, 0, |more|) && forall k, q | 0 <= k < |more| && IsPlace(more[k], q) :: q.dir == dir && q.name in names
    requires forall n | n in names :: ProperName(n.name)
    ensures InOrder([Listed(d)] + cuts + more, 0, |[Listed(d)] + cuts + more|)
    ensures AllIn([Listed(d)] + cuts + more, dir)
  {
    var all, first := [Listed(d)] + cuts + more, Place(dir, LISTING);
    assert IsPlace(all[0], first);
    var n := 1 + |cuts|;
    forall k | 1 <= k < n ensures all[k].Cut? { assert all[k] == cuts[k - 1]; }
    forall k | n <= k < |all| ensures all[k] == more[k - n] {}
    AfterListing(all, first, more, n, names);
  }

  lemma {:induction false} AfterListing(all: seq<Event>, first: Place, more: seq<Event>, n: nat, names: seq<ID>)
    requires 0 < n <= |all| && |all| == n + |more| && IsPlace(all[0], first) && first.name == LISTING
    requires forall k | 1 <= k < n :: all[k].Cut?
    requires forall k | n <= k < |all| :: all[k] == more[k - n]
    requires InOrder(more, 0, |more|) && forall k, q | 0 <= k < |more| && IsPlace(more[k], q) :: q.dir == first.dir && q.name in names
    requires forall x | x in names :: ProperName(x.name)
    ensures InOrder(all, 0, |all|) && AllIn(all, first.dir)
  {
    forall k, q | 0 <= k < |all| && IsPlace(all[k], q) ensures q.dir == first.dir && (k > 0 ==> k >= n && q.name in names) && (k == 0 ==> q == first) {
      if k == 0 { PlaceOnce(all[0], first, q); }
    }
    forall i, j, p, q | 0 <= i < j < |all| && IsPlace(all[i], p) && IsPlace(all[j], q) ensures Earlier(p, q) {
      if i > 0 { assert all[i] == more[i - n] && all[j] == more[j - n]; }
    }
  }

  // ---------------------------------------------------------------- what a scan adds

  lemma {:induction false} ScanOffers(w: World, c: Core, depth: int, rootDev: nat, es: seq<FileInfo>) returns (more: seq<Event>)
    ensures ScanEntries(w, c, depth, rootDev, es).core.events == c.events + more && Offers(more, es)
    decreases |es|
  {
    more := [];
    if es != [] {
      var (c1, over) := OverBudgetSampled(w, c);
      if over {
        more := if c1.events == c.events then [] else [Cut(TRUNC_DEADLINE)];
      } else {
        var (c2, ok) := Offer(w, c1, es[0]);
        if !ok {
          more := [Cut(TRUNC_INODES)];
        } else {
          var cuts := AfterOffer(w, c2, depth, rootDev, es[0]);
          var rest := ScanOffers(w, AfterEntry(w, c2, depth, rootDev, es[0]), depth, rootDev, es[1..]);
          more := OneOffered(es, cuts, rest);
          Regroup(c.events, [Seen(es[0])] + cuts, rest);
          Regroup(c.events, [Seen(es[0])], cuts);
        }
      }
    }
  }

  lemma {:induction false} AfterOffer(w: World, c: Core, depth: int, rootDev: nat, e: FileInfo) returns (cuts: seq<Event>)
    ensures AfterEntry(w, c, depth, rootDev, e).events == c.events + cuts && (cuts == [] || (|cuts| == 1 && cuts[0].Cut?))
  {
    cuts := if e.Enterable() && depth + 1 > w.cfg.MaxDepth() then [Cut(TRUNC_DEPTH)] else [];
    NothingAdded(c.events);
  }

  lemma {:induction false} OneOffered(es: seq<FileInfo>, cuts: seq<Event>, rest: seq<Event>) returns (more: seq<Event>)
    requires es != [] && Offers(rest, es[1..]) && (cuts == [] || (|cuts| == 1 && cuts[0].Cut?))
    ensures more == [Seen(es[0])] + cuts + rest && Offers(more, es)
  {
    more := [Seen(es[0])] + cuts + rest;
    assert more[1..] == cuts + rest;
    if cuts == [] {
      assert cuts + rest == rest;
    } else {
      assert (cuts + rest)[1..] == rest && (cuts + rest)[0] == cuts[0];
    }
  }

  /** The frames a scan keeps are entries, in their order. */
  ghost predicate FramesOf(children: seq<Frame>, es: seq<FileInfo>) {
    || children == []
    || (es != [] && ((children[0].fi == es[0] && FramesOf(children[1..], es[1..])) || FramesOf(children, es[1..])))
  }

  lemma {:induction false} ScanFrames(w: World, c: Core, depth: int, rootDev: nat, es: seq<FileInfo>)
    ensures FramesOf(ScanEntries(w, c, depth, rootDev, es).children, es)
    decreases |es|
  {
    if es != [] {
      var (c1, over) := OverBudgetSampled(w, c);
      if !over {
        var (c2, ok) := Offer(w, c1, es[0]);
        if ok {
          var c3 := AfterEntry(w, c2, depth, rootDev, es[0]);
          ScanFrames(w, c3, depth, rootDev, es[1..]);
          var rest := ScanEntries(w, c3, depth, rootDev, es[1..]).children;
          assert ([Frame(es[0], depth + 1)] + rest)[1..] == rest;
        }
      }
    }
  }

  // ---------------------------------------------------------------- the stack

  ghost predicate FrameAt(f: Frame, names: seq<ID>) { Proper(names) && f.fi.path == At(names) }

  /** Where the frames of a stack stand. */
  ghost predicate Placed(stack: seq<Frame>, dirs: seq<seq<ID>>) {
    |stack| == |dirs| && forall k | 0 <= k < |stack| :: FrameAt(stack[k], dirs[k])
  }

  /** From the top of the stack down, each directory is to the left of the next. */
  ghost predicate LeftToRight(dirs: seq<seq<ID>>) {
    forall k, l | 0 <= k < l < |dirs| :: LeftOf(dirs[l], dirs[k])
  }

  /** Everything so far comes before every waiting directory. */
  ghost predicate Front(events: seq<Event>, from: nat, dirs: seq<seq<ID>>) {
    && InOrder(events, from, |events|) && LeftToRight(dirs)
    && forall k | 0 <= k < |dirs| :: AllBefore(events, from, dirs[k])
  }

  lemma {:induction false} StillBefore(events: seq<Event>, from: nat, more: seq<Event>, dir: seq<ID>, a: seq<ID>)
    requires AllBefore(events, from, a) && AllIn(more, dir) && LeftOf(dir, a)
    ensures AllBefore(events + more, from, a)
  {
    var all := events + more;
    LeftIsBefore(dir, a);
    forall i, p | from <= i < |all| && IsPlace(all[i], p) ensures Before(p.dir, a) {
      if i >= |events| { assert all[i] == more[i - |events|]; }
    }
  }

  lemma {:induction false} LowerDirs(rest: seq<seq<ID>>, dir: seq<ID>)
    requires LeftToRight(rest + [dir])
    ensures LeftToRight(rest) && forall k | 0 <= k < |rest| :: LeftOf(dir, rest[k])
  {
    var dirs := rest + [dir];
    assert dirs[|rest|] == dir;
    forall k, l | 0 <= k < l < |rest| ensures LeftOf(rest[l], rest[k]) { assert LeftOf(dirs[l], dirs[k]); }
    forall k | 0 <= k < |rest| ensures LeftOf(dir, rest[k]) { assert LeftOf(dirs[|rest|], dirs[k]); }
  }

  lemma {:induction false} PopFront(events: seq<Event>, from: nat, rest: seq<seq<ID>>, dir: seq<ID>)
    requires Front(events, from, rest + [dir])
    ensures Front(events, from, rest) && AllBefore(events, from, dir)
  {
    var dirs := rest + [dir];
    LowerDirs(rest, dir);
    assert dirs[|rest|] == dir;
    forall k | 0 <= k < |rest| ensures AllBefore(events, from, rest[k]) { assert dirs[k] == rest[k]; }
  }

  /** The top directory's listing and offers come after everything so far and before everything that waits. */
  lemma {:induction false} AppendFront(events: seq<Event>, from: nat, rest: seq<seq<ID>>, dir: seq<ID>, more: seq<Event>)
    requires Front(events, from, rest + [dir]) && InOrder(more, 0, |more|) && AllIn(more, dir)
    ensures Front(events + more, from, rest)
  {
    PopFront(events, from, rest, dir);
    LowerDirs(rest, dir);
    AppendInOrder(events, from, more, dir);
    forall k | 0 <= k < |rest| ensures AllBefore(events + more, from, rest[k]) { StillBefore(events, from, more, dir, rest[k]); }
  }

  /** Directories right below dir, by ascending name. */
  ghost predicate KidsOf(dir: seq<ID>, kids: seq<seq<ID>>, names: seq<ID>) {
    && |names| == |kids| && (forall k | 0 <= k < |kids| :: kids[k] == dir + [names[k]])
    && (forall k, l | 0 <= k < l < |kids| :: LessID(names[k], names[l]))
  }

  lemma {:induction false} PushedLeftToRight(rest: seq<seq<ID>>, dir: seq<ID>, kids: seq<seq<ID>>, names: seq<ID>)
    requires LeftToRight(rest) && KidsOf(dir, kids, names) && forall k | 0 <= k < |rest| :: LeftOf(dir, rest[k])
    ensures LeftToRight(rest + Reverse(kids))
  {
    var dirs := rest + Reverse(kids);
    forall k, l | 0 <= k < l < |dirs| ensures LeftOf(dirs[l], dirs[k]) {
      if l >= |rest| {
        var n := names[|dirs| - 1 - l];
        assert dirs[l] == kids[|dirs| - 1 - l] == dir + [n];
        if k >= |rest| {
          assert dirs[k] == kids[|dirs| - 1 - k] == dir + [names[|dirs| - 1 - k]];
          SiblingsLeft(dir, n, names[|dirs| - 1 - k]);
        } else {
          LeftBelow(dir, [n], rest[k], []);
          NothingAdded(rest[k]);
        }
      }
    }
  }

  /** Pushing a directory's children puts them where the directory was. */
  lemma {:induction false} PushFront(events: seq<Event>, from: nat, rest: seq<seq<ID>>, dir: seq<ID>, kids: seq<seq<ID>>, names: seq<ID>)
    requires Front(events, from, rest) && KidsOf(dir, kids, names) && forall k | 0 <= k < |rest| :: LeftOf(dir, rest[k])
    requires forall i, p | from <= i < |events| && IsPlace(events[i], p) :: p.dir == dir || Before(p.dir, dir)
    ensures Front(events, from, rest + Reverse(kids))
  {
    var dirs := rest + Reverse(kids);
    PushedLeftToRight(rest, dir, kids, names);
    forall k | 0 <= k < |dirs| ensures AllBefore(events, from, dirs[k]) {
      if k >= |rest| {
        assert dirs[k] == kids[|dirs| - 1 - k];
        ChildAhead(events, from, dir, names[|dirs| - 1 - k]);
      }
    }
  }

  lemma {:induction false} ChildAhead(events: seq<Event>, from: nat, dir: seq<ID>, n: ID)
    requires forall i, p | from <= i < |events| && IsPlace(events[i], p) :: p.dir == dir || Before(p.dir, dir)
    ensures AllBefore(events, from, dir + [n])
  {
    AboveIsBefore(dir, n);
    forall i, p | from <= i < |events| && IsPlace(events[i], p) ensures Before(p.dir, dir + [n]) {
      if p.dir != dir { BeforeBelow(p.dir, dir, [n]); }
    }
  }

  lemma {:induction false} KeptAreKids(children: seq<Frame>, es: seq<FileInfo>, dir: seq<ID>, names: seq<ID>) returns (kids: seq<seq<ID>>, kept: seq<ID>)
    requires FramesOf(children, es) && NamedBy(dir, es, names)
    ensures Placed(children, kids) && KidsOf(dir, kids, kept) && forall n | n in kept :: n in names
    decreases |es|
  {
    if children == [] {
      kids, kept := [], [];
    } else {
      NamedRest(dir, es, names);
      if children[0].fi == es[0] && FramesOf(children[1..], es[1..]) {
        kids, kept := KeptAreKids(children[1..], es[1..], dir, names[1..]);
        FirstKid(children, dir, names, kids, kept);
        kids, kept := [dir + [names[0]]] + kids, [names[0]] + kept;
      } else {
        kids, kept := KeptAreKids(children, es[1..], dir, names[1..]);
      }
    }
  }

  lemma {:induction false} FirstKid(children: seq<Frame>, dir: seq<ID>, names: seq<ID>, kids: seq<seq<ID>>, kept: seq<ID>)
    requires children != [] && names != [] && Proper(dir) && ProperName(names[0].name)
    requires children[0].fi.path == Below(At(dir), names[0].name)
    requires Placed(children[1..], kids) && KidsOf(dir, kids, kept)
    requires (forall n | n in kept :: n in names[1..]) && forall n | n in names[1..] :: LessID(names[0], n)
    ensures Placed(children, [dir + [names[0]]] + kids) && KidsOf(dir, [dir + [names[0]]] + kids, [names[0]] + kept)
  {
    AtBelow(dir, names[0]);
    FirstPlaced(children, dir + [names[0]], kids);
    forall n | n in kept ensures LessID(names[0], n) {}
    FirstSmallest(dir, names[0], kids, kept);
  }

  lemma {:induction false} FirstPlaced(children: seq<Frame>, first: seq<ID>, kids: seq<seq<ID>>)
    requires children != [] && FrameAt(children[0], first) && Placed(children[1..], kids)
    ensures Placed(children, [first] + kids)
  {
    forall k | 0 < k < |children| ensures FrameAt(children[k], ([first] + kids)[k]) { assert children[k] == children[1..][k - 1]; }
  }

  lemma {:induction false} FirstSmallest(dir: seq<ID>, first: ID, kids: seq<seq<ID>>, kept: seq<ID>)
    requires KidsOf(dir, kids, kept) && forall n | n in kept :: LessID(first, n)
    ensures KidsOf(dir, [dir + [first]] + kids, [first] + kept)
  {
    var all := [first] + kept;
    forall k, l | 0 <= k < l < |all| ensures LessID(all[k], all[l]) { assert all[l] == kept[l - 1] && kept[l - 1] in kept; }
  }

  lemma {:induction false} PushPlaced(rest: seq<Frame>, dirs: seq<seq<ID>>, children: seq<Frame>, kids: seq<seq<ID>>)
    requires Placed(rest, dirs) && Placed(children, kids)
    ensures Placed(rest + Reverse(children), dirs + Reverse(kids))
  {
  }

  // ---------------------------------------------------------------- hypotheses

  /** Directories answer as the live system does, and no listing names an entry twice. */
  ghost predicate Tidy(w: World) {
    LaidOut(w) && forall p | w.List(p).Some? :: PathsDiffer(w.List(p).value.entries)
  }

  ghost predicate PathsDiffer(es: seq<FileInfo>) {
    forall i, j | 0 <= i < j < |es| :: es[i].path != es[j].path
  }

  /** A sorted listing is sorted by name. */
  lemma {:induction false} ListingIsNamed(w: World, dir: seq<ID>, es: seq<FileInfo>) returns (names: seq<ID>)
    requires Tidy(w) && Proper(dir) && w.List(At(dir)).Some? && es == Lex.SortBy(w.List(At(dir)).value.entries, PathOf)
    ensures NamedBy(dir, es, names)
  {
    var entries := w.List(At(dir)).value.entries;
    Lex.SortByMembers(entries, PathOf);
    forall k | 0 <= k < |es| ensures IsEntryOf(w, At(dir), es[k]) { assert es[k] in entries; }
    names := NamesIn(w, dir, es);
    SortedStrictly(entries);
    forall k, l | 0 <= k < l < |es| ensures LessID(names[k], names[l]) {
      NamesSortLikePaths(At(dir), names[k], names[l]);
    }
  }

  lemma {:induction false} NamesIn(w: World, dir: seq<ID>, es: seq<FileInfo>) returns (names: seq<ID>)
    requires forall k | 0 <= k < |es| :: IsEntryOf(w, At(dir), es[k])
    ensures |names| == |es| && forall k | 0 <= k < |es| :: ProperName(names[k].name) && es[k].path == Below(At(dir), names[k].name)
  {
    if es == [] {
      names := [];
    } else {
      var n := |es| - 1;
      var before := NamesIn(w, dir, es[..n]);
      assert IsEntryOf(w, At(dir), es[n]);
      var name :| ProperName(name) && es[n].path == Below(At(dir), name);
      names := before + [ID(name)];
    }
  }

  lemma {:induction false} SortedStrictly(entries: seq<FileInfo>)
    requires PathsDiffer(entries)
    ensures var es := Lex.SortBy(entries, PathOf); forall i, j | 0 <= i < j < |es| :: Leq(es[i].path, es[j].path) && es[i].path != es[j].path
  {
    Lex.SortBySorts(entries, PathOf);
    assert Lex.Pairwise(entries, DifferentPaths) by { assert forall a, b :: DifferentPaths(a, b) <==> a.path != b.path; }
    Lex.SortByIsStable(entries, PathOf, DifferentPaths);
  }

  predicate DifferentPaths(a: FileInfo, b: FileInfo) { a.path != b.path }

  // ---------------------------------------------------------------- the loop

  /** What listing a directory adds to the events. */
  lemma {:induction false} ListAdds(w: World, c: Core, fi: FileInfo) returns (cuts: seq<Event>)
    ensures ListDir(w, c, fi).0.events == c.events + ([Listed(fi)] + cuts) && forall k | 0 <= k < |cuts| :: cuts[k].Cut?
  {
    cuts := match w.List(fi.path)
            case None => [Cut(TRUNC_UNREADABLE)]
            case Some(l) => if l.truncated then [Cut(TRUNC_DIR_LISTING)] else [];
    Regroup(c.events, [Listed(fi)], cuts);
    NothingAdded(c.events + [Listed(fi)]);
  }

  lemma {:induction false} NothingMore(d: FileInfo, dir: seq<ID>, cuts: seq<Event>)
    requires Proper(dir) && d.path == At(dir) && forall k | 0 <= k < |cuts| :: cuts[k].Cut?
    ensures InOrder([Listed(d)] + cuts, 0, |[Listed(d)] + cuts|) && AllIn([Listed(d)] + cuts, dir)
  {
    ListingFirst(d, dir, cuts, [], []);
    NothingAdded([Listed(d)] + cuts);
  }

  /** The listing of d, limits, and offers of its sorted entries. */
  ghost predicate Scanned(added: seq<Event>, d: FileInfo, es: seq<FileInfo>) {
    exists cuts: seq<Event>, more: seq<Event> :: added == [Listed(d)] + cuts + more && (forall k | 0 <= k < |cuts| :: cuts[k].Cut?) && Offers(more, es)
  }

  lemma {:induction false} ScanAdds(w: World, c: Core, rootDev: nat, f: Frame) returns (added: seq<Event>)
    requires ListDir(w, c, f.fi).1.Some?
    ensures var (c2, listing) := ListDir(w, c, f.fi);
            && ScanEntries(w, c2, f.depth, rootDev, listing.value).core.events == c.events + added
            && Scanned(added, f.fi, listing.value)
  {
    var (c2, listing) := ListDir(w, c, f.fi);
    var cuts := ListAdds(w, c, f.fi);
    var more := ScanOffers(w, c2, f.depth, rootDev, listing.value);
    added := [Listed(f.fi)] + cuts + more;
    Regroup(c.events, [Listed(f.fi)] + cuts, more);
  }

  lemma {:induction false} ScannedStands(added: seq<Event>, d: FileInfo, es: seq<FileInfo>, dir: seq<ID>, names: seq<ID>)
    requires Scanned(added, d, es) && NamedBy(dir, es, names) && d.path == At(dir)
    ensures InOrder(added, 0, |added|) && AllIn(added, dir)
  {
    var cuts: seq<Event>, more: seq<Event> :| added == [Listed(d)] + cuts + more && (forall k | 0 <= k < |cuts| :: cuts[k].Cut?) && Offers(more, es);
    OffersStand(more, es, dir, names);
    ListingFirst(d, dir, cuts, more, names);
  }

  /** What listing a readable directory and scanning it adds, and which children it keeps. */
  lemma {:induction false} ScannedInOrder(w: World, c: Core, rootDev: nat, f: Frame, dir: seq<ID>)
    returns (added: seq<Event>, kids: seq<seq<ID>>, kept: seq<ID>)
    requires Tidy(w) && FrameAt(f, dir) && ListDir(w, c, f.fi).1.Some?
    ensures var (c2, listing) := ListDir(w, c, f.fi);
            var r := ScanEntries(w, c2, f.depth, rootDev, listing.value);
            r.core.events == c.events + added && Placed(r.children, kids)
    ensures InOrder(added, 0, |added|) && AllIn(added, dir) && KidsOf(dir, kids, kept)
  {
    var (c2, listing) := ListDir(w, c, f.fi);
    var es := listing.value;
    var names := ListingIsNamed(w, dir, es);
    added := ScanAdds(w, c, rootDev, f);
    ScannedStands(added, f.fi, es, dir, names);
    ScanFrames(w, c2, f.depth, rootDev, es);
    kids, kept := KeptAreKids(ScanEntries(w, c2, f.depth, rootDev, es).children, es, dir, names);
  }

  /** Listing the top frame and pushing its children. */
  lemma {:induction false} ListedInOrder(w: World, c: Core, from: nat, rootDev: nat, f: Frame, rest: seq<seq<ID>>, dir: seq<ID>) returns (kids: seq<seq<ID>>)
    requires Tidy(w) && Front(c.events, from, rest + [dir]) && FrameAt(f, dir)
    ensures var (c2, listing) := ListDir(w, MarkVisited(c, f.fi), f.fi);
            if listing.None? then Front(c2.events, from, rest)
            else
              var r := ScanEntries(w, c2, f.depth, rootDev, listing.value);
              Front(r.core.events, from, rest + Reverse(kids)) && Placed(r.children, kids)
  {
    var c1 := MarkVisited(c, f.fi);
    kids := [];
    if ListDir(w, c1, f.fi).1.None? {
      var cuts := ListAdds(w, c1, f.fi);
      NothingMore(f.fi, dir, cuts);
      AppendFront(c.events, from, rest, dir, [Listed(f.fi)] + cuts);
    } else {
      var added, kept;
      added, kids, kept := ScannedInOrder(w, c1, rootDev, f, dir);
      ReplaceTop(c.events, from, rest, dir, added, kids, kept);
    }
  }

  /** The top directory gives way to its children once its own events are in. */
  lemma {:induction false} ReplaceTop(events: seq<Event>, from: nat, rest: seq<seq<ID>>, dir: seq<ID>, added: seq<Event>, kids: seq<seq<ID>>, kept: seq<ID>)
    requires Front(events, from, rest + [dir]) && InOrder(added, 0, |added|) && AllIn(added, dir) && KidsOf(dir, kids, kept)
    ensures Front(events + added, from, rest + Reverse(kids))
  {
    PopFront(events, from, rest, dir);
    LowerDirs(rest, dir);
    AppendFront(events, from, rest, dir, added);
    AddedHere(events, from, added, dir);
    PushFront(events + added, from, rest, dir, kids, kept);
  }

  lemma {:induction false} AddedHere(events: seq<Event>, from: nat, added: seq<Event>, dir: seq<ID>)
    requires AllBefore(events, from, dir) && AllIn(added, dir)
    ensures var all := events + added; forall i, p | from <= i < |all| && IsPlace(all[i], p) :: p.dir == dir || Before(p.dir, dir)
  {
    var all := events + added;
    forall i, p | from <= i < |all| && IsPlace(all[i], p) ensures p.dir == dir || Before(p.dir, dir) {
      if i >= |events| { assert all[i] == added[i - |events|]; }
    }
  }

  lemma {:induction false} CutInOrder(events: seq<Event>, from: nat, reason: ID)
    requires InOrder(events, from, |events|)
    ensures InOrder(events + [Cut(reason)], from, |events| + 1)
  {
  }

  /** Listing the top frame, with the stack it leaves. */
  lemma {:induction false} ListTurn(w: World, c: Core, from: nat, rootDev: nat, rest: seq<Frame>, f: Frame, dirs: seq<seq<ID>>, dir: seq<ID>)
    returns (dirs': seq<seq<ID>>)
    requires Tidy(w) && Front(c.events, from, dirs + [dir]) && Placed(rest, dirs) && FrameAt(f, dir)
    ensures var (c2, listing) := ListDir(w, MarkVisited(c, f.fi), f.fi);
            if listing.None? then Front(c2.events, from, dirs') && Placed(rest, dirs')
            else
              var r := ScanEntries(w, c2, f.depth, rootDev, listing.value);
              Front(r.core.events, from, dirs') && Placed(rest + Reverse(r.children), dirs')
  {
    var kids := ListedInOrder(w, c, from, rootDev, f, dirs, dir);
    var (c2, listing) := ListDir(w, MarkVisited(c, f.fi), f.fi);
    if listing.None? {
      dirs' := dirs;
    } else {
      dirs' := dirs + Reverse(kids);
      PushPlaced(rest, dirs, ScanEntries(w, c2, f.depth, rootDev, listing.value).children, kids);
    }
  }

  lemma {:induction false} TopAndRest(stack: seq<Frame>, dirs: seq<seq<ID>>)
    requires stack != [] && Placed(stack, dirs)
    ensures var n := |stack| - 1; dirs == dirs[..n] + [dirs[n]] && Placed(stack[..n], dirs[..n]) && FrameAt(stack[n], dirs[n])
  {
  }

  /** One turn of the loop. */
  lemma {:induction false} TurnInOrder(w: World, c: Core, from: nat, rootDev: nat, stack: seq<Frame>, dirs: seq<seq<ID>>) returns (dirs': seq<seq<ID>>)
    requires Tidy(w) && c.inodes <= w.cfg.MaxInodes() && stack != [] && Front(c.events, from, dirs) && Placed(stack, dirs)
    ensures var r := StackStep(w, c, rootDev, stack);
            && InOrder(r.core.events, from, |r.core.events|)
            && (r.Next? ==> Front(r.core.events, from, dirs') && Placed(r.stack, dirs'))
  {
    var n := |stack| - 1;
    var (c1, over) := OverBudget(w, c);
    TopAndRest(stack, dirs);
    if over {
      dirs' := dirs;
      if c1.events != c.events { CutInOrder(c.events, from, TRUNC_DEADLINE); }
    } else if Revisit(c1, stack[n].fi) {
      dirs' := dirs[..n];
      PopFront(c.events, from, dirs[..n], dirs[n]);
    } else {
      dirs' := ListTurn(w, c1, from, rootDev, stack[..n], stack[n], dirs[..n], dirs[n]);
    }
  }

  lemma {:induction false} StackInOrder(w: World, c: Core, from: nat, rootDev: nat, stack: seq<Frame>, dirs: seq<seq<ID>>)
    requires Tidy(w) && c.inodes <= w.cfg.MaxInodes() && Front(c.events, from, dirs) && Placed(stack, dirs)
    ensures var r := WalkStack(w, c, rootDev, stack); InOrder(r.events, from, |r.events|)
    decreases w.cfg.MaxInodes() - c.inodes, |stack|
  {
    if stack != [] && !c.stop {
      var next := TurnInOrder(w, c, from, rootDev, stack, dirs);
      var r := StackStep(w, c, rootDev, stack);
      if r.Next? { StackInOrder(w, r.core, from, rootDev, r.stack, next); }
    }
  }

  // ---------------------------------------------------------------- roots

  /** What one root adds: nothing but a limit, or its own offer and then its walk in order. */
  ghost predicate RootStretch(w: World, root: ID, events: seq<Event>, from: nat, to: nat) {
    && from <= to <= |events|
    && (from == to || (from + 1 == to && events[from].Cut?)
        || (w.stat(root).Some? && events[from] == Seen(w.stat(root).value) && InOrder(events, from + 1, to)))
  }

  lemma {:induction false} NamesOfRoot(w: World, root: ID) returns (dir: seq<ID>)
    requires LaidOut(w) && w.stat(root).Some?
    ensures Proper(dir) && w.stat(root).value.path == At(dir)
  {
    assert StatIsClean(w, root);
    dir :| w.stat(root).value.path == At(dir) && Proper(dir);
  }

  lemma {:induction false} OneFrame(events: seq<Event>, fi: FileInfo, dir: seq<ID>)
    requires Proper(dir) && fi.path == At(dir)
    ensures Front(events, |events|, [dir]) && Placed([Frame(fi, 0)], [dir])
  {
  }

  lemma {:induction false} EnteredRoot(w: World, c: Core, root: ID)
    requires Tidy(w) && c.inodes <= w.cfg.MaxInodes() && w.stat(root).Some? && StopRecorded(c)
    ensures var fi := w.stat(root).value;
            var r := WalkStack(w, c, fi.dev, [Frame(fi, 0)]);
            c.events <= r.events && InOrder(r.events, |c.events|, |r.events|)
  {
    var fi := w.stat(root).value;
    var dir := NamesOfRoot(w, root);
    OneFrame(c.events, fi, dir);
    StackInOrder(w, c, |c.events|, fi.dev, [Frame(fi, 0)], [dir]);
    StackGrows(w, c, fi.dev, [Frame(fi, 0)]);
  }

  lemma {:induction false} RootInOrder(w: World, c: Core, root: ID)
    requires Tidy(w) && c.inodes <= w.cfg.MaxInodes() && StopRecorded(c)
    ensures RootStretch(w, root, WalkRoot(w, c, root).events, |c.events|, |WalkRoot(w, c, root).events|)
  {
    if w.stat(root).Some? {
      var fi := w.stat(root).value;
      var (c1, ok) := Offer(w, c, fi);
      if ok && fi.Enterable() {
        assert StopRecorded(c1) by { if c.stop { var e :| e in c.events && e.Cut?; assert e in c1.events; } }
        EnteredRoot(w, c1, root);
        assert WalkStack(w, c1, fi.dev, [Frame(fi, 0)]).events[|c.events|] == c1.events[|c.events|];
      }
    }
  }

  /** The stretches the roots add, one after another. */
  lemma {:induction false} RootsInOrder(w: World, c: Core, roots: seq<ID>) returns (cuts: seq<nat>)
    requires Tidy(w) && c.inodes <= w.cfg.MaxInodes() && StopRecorded(c)
    ensures Stretches(w, roots, WalkRoots(w, c, roots).events, |c.events|, cuts) && c.events <= WalkRoots(w, c, roots).events
    decreases |roots|
  {
    if roots == [] {
      cuts := [|c.events|];
    } else {
      var c1 := WalkRoot(w, c, roots[0]);
      RootInOrder(w, c, roots[0]);
      RootStops(w, c, roots[0]);
      if c1.stop {
        cuts := StoppedAfter(w, roots, c1.events, |c.events|);
      } else {
        var rest := RootsInOrder(w, c1, roots[1..]);
        cuts := [|c.events|] + rest;
        FirstStretch(w, roots, c1.events, WalkRoots(w, c, roots).events, |c.events|, rest);
      }
    }
  }

  ghost predicate Stretches(w: World, roots: seq<ID>, events: seq<Event>, from: nat, cuts: seq<nat>) {
    && |cuts| == |roots| + 1 && cuts[0] == from && cuts[|roots|] == |events|
    && forall k | 0 <= k < |roots| :: RootStretch(w, roots[k], events, cuts[k], cuts[k + 1])
  }

  lemma {:induction false} StoppedAfter(w: World, roots: seq<ID>, events: seq<Event>, from: nat) returns (cuts: seq<nat>)
    requires roots != [] && RootStretch(w, roots[0], events, from, |events|)
    ensures Stretches(w, roots, events, from, cuts)
  {
    cuts := [from] + seq(|roots|, k => |events|);
  }

  lemma {:induction false} FirstStretch(w: World, roots: seq<ID>, events: seq<Event>, more: seq<Event>, from: nat, rest: seq<nat>)
    requires roots != [] && RootStretch(w, roots[0], events, from, |events|) && events <= more
    requires Stretches(w, roots[1..], more, |events|, rest)
    ensures Stretches(w, roots, more, from, [from] + rest)
  {
    var cuts := [from] + rest;
    StretchKept(w, roots[0], events, more, from, |events|);
    forall k | 0 <= k < |roots| ensures RootStretch(w, roots[k], more, cuts[k], cuts[k + 1]) {
      if k > 0 { assert roots[k] == roots[1..][k - 1] && cuts[k] == rest[k - 1] && cuts[k + 1] == rest[k]; }
    }
  }

  lemma {:induction false} StretchKept(w: World, root: ID, events: seq<Event>, more: seq<Event>, from: nat, to: nat)
    requires RootStretch(w, root, events, from, to) && events <= more
    ensures RootStretch(w, root, more, from, to)
  {
    assert forall k | 0 <= k < |events| :: more[k] == events[k];
  }

  /**
   * A walk falls into one stretch for each root. After the root's own offer, the stretch is the sorted depth-first
   * walk: directories are listed in the order of their paths, name by name, each one's entries are offered right
   * after it, by name, and whatever lies below an entry comes before the next entry's directory.
   */
  lemma {:induction false} WalkGoesInOrder(w: World) returns (cuts: seq<nat>)
    requires Tidy(w)
    ensures var roots, events := w.cfg.Roots(), Walk(w).events;
            && |cuts| == |roots| + 1 && cuts[|roots|] == |events| && (forall k | 0 <= k < cuts[0] <= |events| :: events[k].Cut?)
            && forall k | 0 <= k < |roots| :: RootStretch(w, roots[k], events, cuts[k], cuts[k + 1])
  {
    var start := Prepared(w);
    cuts := RootsInOrder(w, start, w.cfg.Roots());
    assert forall k | 0 <= k < |start.events| :: Walk(w).events[k] == start.events[k];
  }

  // ---------------------------------------------------------------- what the order decides

  /** In one stretch, what stands earlier happened earlier. */
  lemma {:induction false} EarlierHappensFirst(events: seq<Event>, from: nat, to: nat, i: nat, j: nat, p: Place, q: Place)
    requires InOrder(events, from, to) && from <= i < to && from <= j < to
    requires IsPlace(events[i], p) && IsPlace(events[j], q) && Earlier(p, q)
    ensures i < j
  {
    EarlierOneWay(p, q);
    if i == j { PlaceOnce(events[i], p, q); }
  }

  /**
   * Of two entries of one directory, the one with the smaller name and all that was listed below it come before the
   * other and all below that.
   */
  lemma {:induction false} SubtreesInTurn(events: seq<Event>, from: nat, to: nat, i: nat, j: nat, a: FileInfo, b: FileInfo,
      dir: seq<ID>, m: ID, n: ID, x: seq<ID>, y: seq<ID>)
    requires InOrder(events, from, to) && from <= i < to && from <= j < to && events[i] == Listed(a) && events[j] == Listed(b)
    requires Proper(dir + [m] + x) && Proper(dir + [n] + y) && LessID(m, n)
    requires a.path == At(dir + [m] + x) && b.path == At(dir + [n] + y)
    ensures i < j
  {
    SiblingsLeft(dir, m, n);
    LeftBelow(dir + [m], x, dir + [n], y);
    LeftIsBefore(dir + [m] + x, dir + [n] + y);
    EarlierHappensFirst(events, from, to, i, j, Place(dir + [m] + x, LISTING), Place(dir + [n] + y, LISTING));
  }

  /** Where the matches of an interest were offered, in the order in which its fact counts them. */
  lemma {:induction false} MatchesInTurn(i: Interest, events: seq<Event>) returns (at: seq<nat>)
    ensures var m := Matched(i, events);
            && |at| == |m| && (forall k | 0 <= k < |m| :: at[k] < |events| && events[at[k]] == Seen(m[k]))
            && forall k, l | 0 <= k < l < |m| :: at[k] < at[l]
  {
    if events == [] {
      at := [];
    } else {
      var n := |events| - 1;
      at := MatchesInTurn(i, events[..n]);
      if events[n].Seen? && i.matches(events[n].fi) { at := at + [n]; }
    }
  }

  /**
   * A full interest keeps the first matches of the sorted depth-first walk: its rows are those of the first MaxHits
   * matches, and any two matches met in one root's stretch stand in that order.
   */
  lemma {:induction false} FirstMatchesAreKept(i: Interest, roots: seq<ID>, events: seq<Event>, from: nat, to: nat) returns (at: seq<nat>)
    requires InOrder(events, from, to)
    ensures var m := Matched(i, events);
            && Answers(i, roots, events).rows == RowsOf(i, m[..Min(|m|, i.MaxHits())])
            && |at| == |m| && (forall k | 0 <= k < |m| :: at[k] < |events| && events[at[k]] == Seen(m[k]))
            && forall k, l, p, q | 0 <= k < l < |m| && from <= at[k] && at[l] < to && IsPlace(Seen(m[k]), p) && IsPlace(Seen(m[l]), q) ::
                 Earlier(p, q)
  {
    var m := Matched(i, events);
    FactIsExact(i, roots, events);
    at := MatchesInTurn(i, events);
    forall k, l, p, q | 0 <= k < l < |m| && from <= at[k] && at[l] < to && IsPlace(Seen(m[k]), p) && IsPlace(Seen(m[l]), q)
      ensures Earlier(p, q)
    {
      assert at[k] < at[l] && IsPlace(events[at[k]], p) && IsPlace(events[at[l]], q);
    }
  }
}
