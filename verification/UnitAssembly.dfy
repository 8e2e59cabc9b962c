/** Layering drop-ins, and the whole assembly against a simple reading of systemd's rules (internal/collect/unit/unit.go). */
module UnitAssembly {
  import opened Basics
  import opened Ids
  import opened Units
  import UnitParse
  import Lex

  // ---------------------------------------------------------------- the simple reading

  /** A drop-in file: its identity to systemd is its basename. */
  datatype Candidate = Candidate(name: ID, path: ID)

  predicate HasSuffix(s: ID, suffix: string) {
    |s.name| >= |suffix| && s.name[|s.name| - |suffix|..] == suffix
  }

  function DirName(req: Request): ID { ID(req.name.name + ".d") }

  function DropInPath(h: Host, req: Request, k: nat): ID
    requires k < |ROOTS|
  {
    h.join(ROOTS[k], DirName(req))
  }

  /** The .conf files among some directory entries. */
  function Confs(h: Host, entries: seq<DirEntry>): seq<Candidate> {
    if entries == [] then []
    else
      var n := |entries| - 1;
      Confs(h, entries[..n]) +
      if HasSuffix(h.base(entries[n].path), ".conf") && !entries[n].isDir then [Candidate(h.base(entries[n].path), entries[n].path)] else []
  }

  predicate IsRealDir(h: Host, dir: ID) { h.stat(dir).Ok? && h.stat(dir).value.isDir }

  function ListedConfs(h: Host, dir: ID): seq<Candidate> {
    if IsRealDir(h, dir) && h.readDir(dir).Ok? then Confs(h, h.readDir(dir).value.entries) else []
  }

  /** Every drop-in of the first k directories, in precedence order. */
  function AllConfs(h: Host, req: Request, k: nat): seq<Candidate>
    requires k <= |ROOTS|
  {
    if k == 0 then [] else AllConfs(h, req, k - 1) + ListedConfs(h, DropInPath(h, req, k - 1))
  }

  ghost predicate HasName(cs: seq<Candidate>, name: ID) {
    exists i :: 0 <= i < |cs| && cs[i].name == name
  }

  /** Of each name, the first: a higher-precedence directory shadows a lower one. */
  ghost function Unshadowed(cs: seq<Candidate>): seq<Candidate> {
    if cs == [] then []
    else
      var n := |cs| - 1;
      Unshadowed(cs[..n]) + if HasName(cs[..n], cs[n].name) then [] else [cs[n]]
  }

  function ByName(c: Candidate): string { c.name.name }

  /** What each drop-in sets. */
  type Layer = Candidate -> seq<Directive>

  function LayerOf(h: Host, req: Request): Layer {
    (c: Candidate) => if ReadText(h, c.path).Ok? then UnitParse.Parsed(ReadText(h, c.path).value, c.path, req) else []
  }

  /** The directives of some drop-ins, one file after another. */
  function Layered(layer: Layer, cs: seq<Candidate>): seq<Directive> {
    if cs == [] then []
    else
      var n := |cs| - 1;
      Layered(layer, cs[..n]) + layer(cs[n])
  }

  /** What systemd applies after the unit file: surviving drop-ins in lexical order of their names. */
  ghost function SystemdDropIns(h: Host, req: Request): seq<Directive> {
    Layered(LayerOf(h, req), Lex.SortBy(Unshadowed(AllConfs(h, req, |ROOTS|)), ByName))
  }

  /** Two paths to one directory list the same drop-in names. */
  ghost predicate SameDirSameNames(h: Host, req: Request) {
    forall j, k | 0 <= j < |ROOTS| && 0 <= k < |ROOTS| ::
      var a, b := DropInPath(h, req, j), DropInPath(h, req, k);
      h.stat(a).Ok? && h.stat(b).Ok? && h.stat(a).value.isDir && h.stat(b).value.isDir &&
      h.stat(a).value.identity.Some? && h.stat(a).value.identity == h.stat(b).value.identity ==>
        forall name :: HasName(ListedConfs(h, a), name) <==> HasName(ListedConfs(h, b), name)
  }

  // ---------------------------------------------------------------- collecting the winners

  lemma {:induction false} HasNameConcat(a: seq<Candidate>, b: seq<Candidate>, name: ID)
    ensures HasName(a + b, name) <==> HasName(a, name) || HasName(b, name)
  {
    if HasName(a, name) {
      var i :| 0 <= i < |a| && a[i].name == name;
      assert (a + b)[i].name == name;
    }
    if HasName(b, name) {
      var i :| 0 <= i < |b| && b[i].name == name;
      assert (a + b)[|a| + i].name == name;
    }
  }

  /** Keeping the first of each name loses no name. */
  lemma {:induction false} UnshadowedNames(cs: seq<Candidate>, name: ID)
    ensures HasName(Unshadowed(cs), name) <==> HasName(cs, name)
  {
    if cs != [] {
      var n := |cs| - 1;
      UnshadowedNames(cs[..n], name);
      assert cs == cs[..n] + [cs[n]];
      assert Unshadowed(cs[..n]) + [] == Unshadowed(cs[..n]);
      HasNameConcat(cs[..n], [cs[n]], name);
      HasNameConcat(Unshadowed(cs[..n]), [cs[n]], name);
      OneName(cs[n], name);
    }
  }

  lemma {:induction false} OneName(c: Candidate, name: ID)
    ensures HasName([c], name) <==> c.name == name
  {
    assert [c][0].name == c.name;
  }

  /** A winner is the first candidate of its name, in precedence order. */
  lemma {:induction false} WinnerIsFirst(cs: seq<Candidate>, w: Candidate)
    requires w in Unshadowed(cs)
    ensures exists i :: 0 <= i < |cs| && cs[i] == w && !HasName(cs[..i], w.name)
  {
    var n := |cs| - 1;
    if w in Unshadowed(cs[..n]) {
      WinnerIsFirst(cs[..n], w);
      var i :| 0 <= i < n && cs[..n][i] == w && !HasName(cs[..n][..i], w.name);
      assert cs[..n][..i] == cs[..i];
    }
  }

  /** Names met again add nothing. */
  lemma {:induction false} NothingNew(a: seq<Candidate>, b: seq<Candidate>)
    requires forall name :: HasName(b, name) ==> HasName(a, name)
    ensures Unshadowed(a + b) == Unshadowed(a)
  {
    if b == [] {
      assert a + b == a;
    } else {
      var n := |b| - 1;
      assert (a + b)[..|a| + n] == a + b[..n];
      assert b[n].name == b[n].name && HasName(b, b[n].name);
      forall name | HasName(b[..n], name) ensures HasName(a, name) {
        var i :| 0 <= i < n && b[..n][i].name == name;
        assert b[i].name == name && HasName(b, name);
      }
      NothingNew(a, b[..n]);
      HasNameConcat(a, b[..n], b[n].name);
    }
  }

  /** What has been collected from the directories seen so far. */
  ghost predicate CollectedOk(winners: seq<Candidate>, seen: map<ID, ID>, all: seq<Candidate>) {
    winners == Unshadowed(all) && forall name :: name in seen <==> HasName(all, name)
  }

  /** One directory's entries: new names win, known ones are recorded as shadowed. */
  method CollectDir(h: Host, entries: seq<DirEntry>, winners0: seq<Candidate>, seen0: map<ID, ID>, ghost all: seq<Candidate>)
      returns (winners: seq<Candidate>, seen: map<ID, ID>, shadowed: seq<Fragment>)
    ensures CollectedOk(winners0, seen0, all) ==> CollectedOk(winners, seen, all + Confs(h, entries))
    ensures AllRead(shadowed)
  {
    winners, seen, shadowed := winners0, seen0, [];
    assert all + Confs(h, []) == all;
    assert entries[..0] == [];
    for k := 0 to |entries|
      invariant CollectedOk(winners0, seen0, all) ==> CollectedOk(winners, seen, all + Confs(h, entries[..k]))
      invariant AllRead(shadowed)
    {
      var e := entries[k];
      var name := h.base(e.path);
      var c := Candidate(name, e.path);
      ConfsStep(h, entries, k, all);
      CollectOne(winners, seen, all + Confs(h, entries[..k]), c);
      if HasSuffix(name, ".conf") && !e.isDir {
        if name in seen {
          shadowed := shadowed + [Fragment(e.path, DropIn, Present, None, None, Some(seen[name]))];
        } else {
          seen := seen[name := e.path];
          winners := winners + [c];
        }
      }
    }
    assert entries[..|entries|] == entries;
  }

  lemma {:induction false} ConfsStep(h: Host, entries: seq<DirEntry>, k: nat, all: seq<Candidate>)
    requires k < |entries|
    ensures var e, before := entries[k], all + Confs(h, entries[..k]);
            all + Confs(h, entries[..k + 1]) ==
              if HasSuffix(h.base(e.path), ".conf") && !e.isDir then before + [Candidate(h.base(e.path), e.path)] else before
  {
    assert entries[..k + 1][..k] == entries[..k];
  }

  lemma {:induction false} CollectOne(winners: seq<Candidate>, seen: map<ID, ID>, all: seq<Candidate>, c: Candidate)
    ensures CollectedOk(winners, seen, all) && c.name in seen ==> CollectedOk(winners, seen, all + [c])
    ensures CollectedOk(winners, seen, all) && c.name !in seen ==> CollectedOk(winners + [c], seen[c.name := c.path], all + [c])
  {
    assert (all + [c])[..|all|] == all;
    assert Unshadowed(all) + [] == Unshadowed(all);
    forall name ensures HasName(all + [c], name) <==> HasName(all, name) || name == c.name {
      HasNameConcat(all, [c], name);
      OneName(c, name);
    }
  }

  /** A directory of this identity was listed before, under another path. */
  ghost predicate SeenBefore(h: Host, req: Request, dirs: set<(nat, nat)>, k: nat)
    requires k <= |ROOTS|
  {
    forall id | id in dirs :: exists j :: 0 <= j < k && IsRealDir(h, DropInPath(h, req, j)) && h.stat(DropInPath(h, req, j)).value.identity == Some(id)
  }

  lemma {:induction false} ListedBefore(h: Host, req: Request, j: nat, k: nat, name: ID)
    requires j < k <= |ROOTS| && HasName(ListedConfs(h, DropInPath(h, req, j)), name)
    ensures HasName(AllConfs(h, req, k), name)
  {
    HasNameConcat(AllConfs(h, req, k - 1), ListedConfs(h, DropInPath(h, req, k - 1)), name);
    if j < k - 1 { ListedBefore(h, req, j, k - 1, name); }
  }

  /** A second path to a directory already listed adds no drop-in. */
  lemma {:induction false} SecondPath(h: Host, req: Request, dirs: set<(nat, nat)>, k: nat, winners: seq<Candidate>, seen: map<ID, ID>)
    requires k < |ROOTS| && SameDirSameNames(h, req) && SeenBefore(h, req, dirs, k)
    requires var dir := DropInPath(h, req, k);
             IsRealDir(h, dir) && h.stat(dir).value.identity.Some? && h.stat(dir).value.identity.value in dirs
    requires CollectedOk(winners, seen, AllConfs(h, req, k))
    ensures CollectedOk(winners, seen, AllConfs(h, req, k + 1))
  {
    var dir := DropInPath(h, req, k);
    var id := h.stat(dir).value.identity.value;
    var j :| 0 <= j < k && IsRealDir(h, DropInPath(h, req, j)) && h.stat(DropInPath(h, req, j)).value.identity == Some(id);
    var a, b := AllConfs(h, req, k), ListedConfs(h, dir);
    forall name | HasName(b, name) ensures HasName(a, name) {
      assert HasName(ListedConfs(h, DropInPath(h, req, j)), name);
      ListedBefore(h, req, j, k, name);
    }
    NothingNew(a, b);
    forall name ensures HasName(a + b, name) <==> HasName(a, name) { HasNameConcat(a, b, name); }
  }

  /** A directory that is not there, or is not one, holds no drop-in. */
  lemma {:induction false} NoConfs(h: Host, req: Request, k: nat)
    requires k < |ROOTS| && !IsRealDir(h, DropInPath(h, req, k))
    ensures AllConfs(h, req, k + 1) == AllConfs(h, req, k)
  {
    assert AllConfs(h, req, k) + [] == AllConfs(h, req, k);
  }

  lemma {:induction false} SeenLonger(h: Host, req: Request, dirs: set<(nat, nat)>, k: nat)
    requires k < |ROOTS| && SeenBefore(h, req, dirs, k)
    ensures SeenBefore(h, req, dirs, k + 1)
    ensures var dir := DropInPath(h, req, k);
            IsRealDir(h, dir) && h.stat(dir).value.identity.Some? ==> SeenBefore(h, req, dirs + {h.stat(dir).value.identity.value}, k + 1)
  {
  }

  /** The drop-ins of all four directories, unless some directory could not be accounted for. */
  method CollectDropIns(h: Host, req: Request) returns (winners: seq<Candidate>, frags: seq<Fragment>)
    requires SameDirSameNames(h, req)
    ensures AllRead(frags) ==> winners == Unshadowed(AllConfs(h, req, |ROOTS|))
  {
    winners, frags := [], [];
    var seen: map<ID, ID>, dirs: set<(nat, nat)> := map[], {};
    for k := 0 to |ROOTS|
      invariant AllRead(frags) ==> CollectedOk(winners, seen, AllConfs(h, req, k))
      invariant SeenBefore(h, req, dirs, k)
    {
      var here;
      ghost var before := frags;
      winners, seen, dirs, here := CollectRoot(h, req, k, winners, seen, dirs, AllRead(frags));
      AllReadConcat(frags, here);
      frags := frags + here;
    }
  }

  /** One of the four directories; ok says that everything before it was accounted for. */
  method CollectRoot(h: Host, req: Request, k: nat, winners0: seq<Candidate>, seen0: map<ID, ID>, dirs0: set<(nat, nat)>, ghost ok: bool)
      returns (winners: seq<Candidate>, seen: map<ID, ID>, dirs: set<(nat, nat)>, here: seq<Fragment>)
    requires k < |ROOTS| && SameDirSameNames(h, req) && SeenBefore(h, req, dirs0, k)
    requires ok ==> CollectedOk(winners0, seen0, AllConfs(h, req, k))
    ensures ok && AllRead(here) ==> CollectedOk(winners, seen, AllConfs(h, req, k + 1))
    ensures SeenBefore(h, req, dirs, k + 1)
  {
    var dir := DropInPath(h, req, k);
    winners, seen, dirs, here := winners0, seen0, dirs0, [];
    SeenLonger(h, req, dirs0, k);
    var st := h.stat(dir);
    if st.Err? {
      NoConfs(h, req, k);
      if st.error != NotExist { here := [Gap(dir, DropInDir, StateFor(st.error))]; }
      return;
    }
    if !st.value.isDir {
      NoConfs(h, req, k);
      return;
    }
    if st.value.identity.Some? {
      if st.value.identity.value in dirs {
        if ok { SecondPath(h, req, dirs, k, winners, seen); }
        return;
      }
      dirs := dirs + {st.value.identity.value};
    }
    var res := h.readDir(dir);
    if res.Err? {
      here := [Gap(dir, DropInDir, StateFor(res.error))];
      assert !AllRead(here) by { assert here[0].state != Present; }
      return;
    }
    if res.value.truncated { here := [Gap(dir, DropInDir, Truncated)]; }
    var shadowed;
    winners, seen, shadowed := CollectDir(h, res.value.entries, winners, seen, AllConfs(h, req, k));
    here := here + shadowed;
  }

  lemma {:induction false} AllReadConcat(a: seq<Fragment>, b: seq<Fragment>)
    ensures AllRead(a + b) <==> AllRead(a) && AllRead(b)
  {
    if AllRead(a + b) {
      forall i | 0 <= i < |a| ensures a[i].shadowedBy.Some? || a[i].state == Present { assert (a + b)[i] == a[i]; }
      forall i | 0 <= i < |b| ensures b[i].shadowedBy.Some? || b[i].state == Present { assert (a + b)[|a| + i] == b[i]; }
    }
  }

  // ---------------------------------------------------------------- the whole assembly

  /** Read the surviving drop-ins in lexical order and append what each one sets. */
  method ApplyDropIns(h: Host, req: Request) returns (frags: seq<Fragment>, directives: seq<Directive>)
    requires SameDirSameNames(h, req)
    ensures AllRead(frags) ==> directives == SystemdDropIns(h, req)
  {
    var winners;
    winners, frags := CollectDropIns(h, req);
    ghost var looked := frags;
    winners := Lex.SortBy(winners, ByName);
    directives := [];
    for k := 0 to |winners|
      invariant AllRead(frags) ==> AllRead(looked)
      invariant directives == Layered(LayerOf(h, req), winners[..k])
    {
      assert winners[..k + 1][..k] == winners[..k];
      var frag, text := ReadFragment(h, winners[k].path, DropIn);
      AllReadConcat(frags, [frag]);
      frags := frags + [frag];
      if frag.state == Present {
        var more := UnitParse.Parse(text, winners[k].path, req);
        directives := directives + more;
      } else {
        assert directives + [] == directives;
      }
    }
    assert winners[..|winners|] == winners;
  }

  /** The unit systemd would start: the first unit file found, then the surviving drop-ins. */
  ghost predicate IsAssembled(h: Host, req: Request, directives: seq<Directive>) {
    exists p :: FirstUnit(h, req.name, p) && ReadText(h, p).Ok?
      && directives == UnitParse.Parsed(ReadText(h, p).value, p, req) + SystemdDropIns(h, req)
  }

  /** A present and complete unit carries exactly the directives systemd would apply. */
  method Assemble(h: Host, req: Request) returns (u: Unit)
    requires SameDirSameNames(h, req)
    ensures u.state == Present && u.Complete() ==> IsAssembled(h, req, u.directives)
    ensures u.path.None? && u.Complete() ==> forall i | 0 <= i < |ROOTS| :: h.stat(h.join(ROOTS[i], req.name)) == Err(NotExist)
    ensures u.state == Present ==> u.path.Some? && ReadText(h, u.path.value).Ok?
    ensures u.state != Present ==> u.directives == []
  {
    var found, refused := FindUnit(h, req.name);
    if found.None? { return Unit(Absent, None, refused, []); }
    var frag, text := ReadFragment(h, found.value, UnitFile);
    u := Unit(frag.state, found, refused + [frag], []);
    if frag.state != Present { return; }
    var own := UnitParse.Parse(text, found.value, req);
    var frags, more := ApplyDropIns(h, req);
    u := Unit(Present, found, refused + [frag] + frags, own + more);
    AllReadConcat(refused + [frag], frags);
    AllReadConcat(refused, [frag]);
  }

  // ---------------------------------------------------------------- what the surviving drop-ins are

  lemma {:induction false} UnshadowedOnce(cs: seq<Candidate>, i: nat, j: nat)
    requires i < j < |Unshadowed(cs)|
    ensures Unshadowed(cs)[i].name != Unshadowed(cs)[j].name
    decreases |cs|
  {
    var n := |cs| - 1;
    var before := Unshadowed(cs[..n]);
    if j < |before| {
      UnshadowedOnce(cs[..n], i, j);
    } else {
      UnshadowedNames(cs[..n], cs[n].name);
      assert before[i].name == cs[n].name ==> HasName(before, cs[n].name);
    }
  }

  /** The applied drop-ins: every name once, its first file, in strictly increasing order of names. */
  lemma {:induction false} SurvivorsAreFirstInOrder(h: Host, req: Request)
    ensures var all := AllConfs(h, req, |ROOTS|);
            var applied := Lex.SortBy(Unshadowed(all), ByName);
            && (forall w | w in applied :: IsFirstOfName(all, w))
            && (forall c | c in all :: exists w :: w in applied && w.name == c.name)
            && (forall i, j | 0 <= i < j < |applied| :: Lex.Less(applied[i].name.name, applied[j].name.name))
  {
    var all := AllConfs(h, req, |ROOTS|);
    var applied := Lex.SortBy(Unshadowed(all), ByName);
    Lex.SortByMembers(Unshadowed(all), ByName);
    Lex.SortBySorts(Unshadowed(all), ByName);
    forall w | w in applied ensures IsFirstOfName(all, w) {
      WinnerIsFirst(all, w);
    }
    forall c | c in all ensures exists w :: w in applied && w.name == c.name {
      var w := WinnerOf(all, c);
      assert w in applied;
    }
    forall i, j | 0 <= i < j < |applied| ensures Lex.Less(applied[i].name.name, applied[j].name.name) {
      assert Lex.Leq(ByName(applied[i]), ByName(applied[j]));
      SortedNamesDiffer(all, applied, i, j);
    }
  }

  /** Some name's first candidate. */
  ghost predicate IsFirstOfName(all: seq<Candidate>, w: Candidate) {
    exists i :: 0 <= i < |all| && all[i] == w && !HasName(all[..i], w.name)
  }

  lemma {:induction false} WinnerOf(all: seq<Candidate>, c: Candidate) returns (w: Candidate)
    requires c in all
    ensures w in Unshadowed(all) && w.name == c.name
  {
    var i :| 0 <= i < |all| && all[i] == c;
    assert HasName(all, c.name);
    UnshadowedNames(all, c.name);
    var k :| 0 <= k < |Unshadowed(all)| && Unshadowed(all)[k].name == c.name;
    w := Unshadowed(all)[k];
  }

  lemma {:induction false} SortedNamesDiffer(all: seq<Candidate>, applied: seq<Candidate>, i: nat, j: nat)
    requires multiset(applied) == multiset(Unshadowed(all)) && i < j < |applied|
    ensures applied[i].name.name != applied[j].name.name
  {
    var u := Unshadowed(all);
    forall p, q | 0 <= p < q < |u| ensures u[p] != u[q] { UnshadowedOnce(all, p, q); }
    PermutationKeepsDistinct(u, applied);
    assert applied[i] in multiset(applied) && applied[j] in multiset(applied);
    var p :| 0 <= p < |u| && u[p] == applied[i];
    var q :| 0 <= q < |u| && u[q] == applied[j];
    if p < q { UnshadowedOnce(all, p, q); }
    if q < p { UnshadowedOnce(all, q, p); }
  }

  /** An entry is a drop-in: a name ending in .conf that is no directory. */
  ghost predicate IsDropIn(h: Host, e: DirEntry, c: Candidate) {
    c == Candidate(h.base(e.path), e.path) && !e.isDir && exists stem :: c.name.name == stem + ".conf"
  }

  lemma {:induction false} SuffixIsEnd(s: ID, suffix: string)
    ensures HasSuffix(s, suffix) <==> exists stem :: s.name == stem + suffix
  {
    var n := |s.name| - |suffix|;
    if HasSuffix(s, suffix) { assert s.name == s.name[..n] + suffix; }
    if exists stem :: s.name == stem + suffix {
      var stem :| s.name == stem + suffix;
      assert s.name[n..] == suffix;
    }
  }

  lemma {:induction false} ConfsAreDropIns(h: Host, entries: seq<DirEntry>, c: Candidate)
    ensures c in Confs(h, entries) <==> exists i :: 0 <= i < |entries| && IsDropIn(h, entries[i], c)
  {
    if entries != [] {
      var n := |entries| - 1;
      ConfsAreDropIns(h, entries[..n], c);
      SuffixIsEnd(h.base(entries[n].path), ".conf");
      assert forall i | 0 <= i < n :: entries[..n][i] == entries[i];
      assert c in Confs(h, entries) <==> c in Confs(h, entries[..n]) || IsDropIn(h, entries[n], c);
    }
  }

  /** Directory k of the four lists c. */
  ghost predicate ListsDropIn(h: Host, req: Request, k: nat, c: Candidate)
    requires k < |ROOTS|
  {
    var dir := h.join(ROOTS[k], ID(req.name.name + ".d"));
    && h.stat(dir).Ok? && h.stat(dir).value.isDir && h.readDir(dir).Ok?
    && exists i :: 0 <= i < |h.readDir(dir).value.entries| && IsDropIn(h, h.readDir(dir).value.entries[i], c)
  }

  lemma {:induction false} ListedExactlyWhen(h: Host, req: Request, k: nat, c: Candidate)
    requires k < |ROOTS|
    ensures c in ListedConfs(h, DropInPath(h, req, k)) <==> ListsDropIn(h, req, k, c)
  {
    var dir := DropInPath(h, req, k);
    if IsRealDir(h, dir) && h.readDir(dir).Ok? { ConfsAreDropIns(h, h.readDir(dir).value.entries, c); }
  }

  /** Where the first candidate of a name comes from: the highest of the four directories that lists one. */
  lemma {:induction false} FirstIsHighest(h: Host, req: Request, n: nat, w: Candidate) returns (k: nat)
    requires n <= |ROOTS| && IsFirstOfName(AllConfs(h, req, n), w)
    ensures k < n && w in ListedConfs(h, DropInPath(h, req, k)) && !HasName(AllConfs(h, req, k), w.name)
  {
    var above, here := AllConfs(h, req, n - 1), ListedConfs(h, DropInPath(h, req, n - 1));
    var all := above + here;
    var i :| 0 <= i < |all| && all[i] == w && !HasName(all[..i], w.name);
    if i < |above| {
      assert all[..i] == above[..i] && above[i] == w;
      k := FirstIsHighest(h, req, n - 1, w);
    } else {
      k := n - 1;
      assert all[..i] == above + here[..i - |above|] && here[i - |above|] == w;
      HasNameConcat(above, here[..i - |above|], w.name);
    }
  }

  /** An applied drop-in stands in the highest-precedence directory that lists its name. */
  lemma {:induction false} SurvivorIsHighest(h: Host, req: Request, w: Candidate)
    requires w in Lex.SortBy(Unshadowed(AllConfs(h, req, |ROOTS|)), ByName)
    ensures exists k :: 0 <= k < |ROOTS| && ListsDropIn(h, req, k, w)
              && forall j, c | 0 <= j < k && ListsDropIn(h, req, j, c) :: c.name != w.name
  {
    SurvivorsAreFirstInOrder(h, req);
    var k := FirstIsHighest(h, req, |ROOTS|, w);
    ListedExactlyWhen(h, req, k, w);
    forall j, c | 0 <= j < k && ListsDropIn(h, req, j, c) ensures c.name != w.name {
      ListedExactlyWhen(h, req, j, c);
      if c.name == w.name {
        var dir := DropInPath(h, req, j);
        assert HasName(ListedConfs(h, dir), w.name);
        ListedBefore(h, req, j, k, w.name);
      }
    }
  }

  lemma {:induction false} LayeredConcat(layer: Layer, a: seq<Candidate>, b: seq<Candidate>)
    ensures Layered(layer, a + b) == Layered(layer, a) + Layered(layer, b)
  {
    if b == [] {
      assert a + b == a;
      NothingAdded(Layered(layer, a));
    } else {
      var n := |b| - 1;
      LayeredConcat(layer, a, b[..n]);
      assert (a + b)[..|a| + n] == a + b[..n] && (a + b)[|a| + n] == b[n];
      Regroup(Layered(layer, a), Layered(layer, b[..n]), layer(b[n]));
    }
  }

  /** All that one drop-in sets stands together, after those of smaller name and before those of greater. */
  lemma {:induction false} AppliedByName(h: Host, req: Request, i: nat)
    requires i < |Lex.SortBy(Unshadowed(AllConfs(h, req, |ROOTS|)), ByName)|
    ensures var applied, layer := Lex.SortBy(Unshadowed(AllConfs(h, req, |ROOTS|)), ByName), LayerOf(h, req);
            SystemdDropIns(h, req) == Layered(layer, applied[..i]) + layer(applied[i]) + Layered(layer, applied[i + 1..])
  {
    var applied, layer := Lex.SortBy(Unshadowed(AllConfs(h, req, |ROOTS|)), ByName), LayerOf(h, req);
    assert applied[..i + 1][..i] == applied[..i];
    assert applied == applied[..i + 1] + applied[i + 1..];
    LayeredConcat(layer, applied[..i + 1], applied[i + 1..]);
  }
}
