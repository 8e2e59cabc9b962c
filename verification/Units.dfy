/** Assembling a systemd unit from its files, the way systemd does (internal/collect/unit/unit.go). */
module Units {
  import opened Basics
  import opened Ids

  // ---------------------------------------------------------------- the host

  datatype StatError = NotExist | Permission | NotRegularFile | OtherError

  /** One lstat; identity is absent when the inode number is zero. */
  datatype Info = Info(isDir: bool, isRegular: bool, isSymlink: bool, identity: Option<(nat, nat)>)

  datatype DirEntry = DirEntry(path: ID, isDir: bool)
  datatype Listing = Listing(entries: seq<DirEntry>, truncated: bool)

  /** The bytes of one file, as far as the read cap. */
  datatype Content = Content(text: string, truncated: bool, isText: bool, digest: ID)

  /** What the system answers, and the path functions of the standard library. */
  datatype Host = Host(
    stat: ID -> Result<Info, StatError>, readDir: ID -> Result<Listing, StatError>,
    readlink: ID -> Result<ID, StatError>, read: ID -> Result<Content, StatError>,
    join: (ID, ID) -> ID, base: ID -> ID, resolve: (ID, ID) -> ID)

  const ROOTS: seq<ID> := [ID("/etc/systemd/system"), ID("/run/systemd/system"), ID("/usr/lib/systemd/system"), ID("/lib/systemd/system")]
  const DEV_NULL := ID("/dev/null")
  const MAX_LINK_HOPS: nat := 4

  datatype Request = Request(name: ID, section: ID, directives: seq<ID>)

  /** Names and values are text, wrapped. */
  datatype Directive = Directive(name: ID, value: ID, origin: ID, line: int)

  const EMPTY := ID("")

  datatype UnitState = Present | Absent | Masked | Denied | NotRegular | Truncated | Unreadable

  datatype FragmentKind = UnitFile | DropIn | DropInDir

  datatype Fragment = Fragment(path: ID, kind: FragmentKind, state: UnitState, resolved: Option<ID>, digest: Option<ID>, shadowedBy: Option<ID>)

  datatype Unit = Unit(state: UnitState, path: Option<ID>, fragments: seq<Fragment>, directives: seq<Directive>) {
    /** No fragment that would have contributed went unread. */
    predicate Complete() { AllRead(fragments) }
  }

  predicate AllRead(frags: seq<Fragment>) {
    forall i | 0 <= i < |frags| :: frags[i].shadowedBy.Some? || frags[i].state == Present
  }

  function StateFor(e: StatError): UnitState {
    match e
    case Permission => Denied
    case NotExist => Absent
    case NotRegularFile => NotRegular
    case OtherError => Unreadable
  }

  function Gap(path: ID, kind: FragmentKind, state: UnitState): Fragment {
    Fragment(path, kind, state, None, None, None)
  }

  // ---------------------------------------------------------------- the folds over directives

  /** The index just after the last empty assignment of name. */
  function AfterReset(ds: seq<Directive>, name: ID): (k: nat)
    ensures k <= |ds|
  {
    if ds == [] then 0
    else
      var n := |ds| - 1;
      if ds[n].name == name && ds[n].value == EMPTY then n + 1 else AfterReset(ds[..n], name)
  }

  function Named(ds: seq<Directive>, name: ID): seq<Directive> {
    if ds == [] then []
    else
      var n := |ds| - 1;
      Named(ds[..n], name) + if ds[n].name == name then [ds[n]] else []
  }

  lemma {:induction false} AfterResetIsLast(ds: seq<Directive>, name: ID)
    ensures var k := AfterReset(ds, name);
            && (k > 0 ==> ds[k - 1].name == name && ds[k - 1].value == EMPTY)
            && forall i | k <= i < |ds| && ds[i].name == name :: ds[i].value != EMPTY
  {
    if ds != [] {
      AfterResetIsLast(ds[..|ds| - 1], name);
    }
  }

  predicate Assigns(d: Directive, name: ID) { d.name == name }

  /** What is kept of a name is its assignments, all of them, each at the place its predecessors leave it. */
  lemma {:induction false} NamedInOrder(ds: seq<Directive>, name: ID)
    ensures var mine := (d: Directive) => Assigns(d, name);
            && |Named(ds, name)| == CountIf(ds, mine)
            && forall i | 0 <= i < |ds| && ds[i].name == name :: CountIf(ds[..i], mine) < CountIf(ds, mine) && Named(ds, name)[CountIf(ds[..i], mine)] == ds[i]
  {
    if ds != [] {
      var n, mine := |ds| - 1, (d: Directive) => Assigns(d, name);
      NamedInOrder(ds[..n], name);
      assert forall i | 0 <= i < n :: ds[..n][..i] == ds[..i] && ds[..n][i] == ds[i];
    }
  }

  /** A non-empty assignment appends, an empty one forgets: what is left is everything after the last empty one. */
  method List(ds: seq<Directive>, name: ID) returns (out: seq<Directive>)
    ensures out == Named(ds[AfterReset(ds, name)..], name)
  {
    out := [];
    for k := 0 to |ds|
      invariant out == Named(ds[..k][AfterReset(ds[..k], name)..], name)
    {
      ListStep(ds, k, name);
      if ds[k].name == name {
        if ds[k].value == EMPTY { out := []; } else { out := out + [ds[k]]; }
      }
    }
    assert ds[..|ds|] == ds;
  }

  lemma {:induction false} ListStep(ds: seq<Directive>, k: nat, name: ID)
    requires k < |ds|
    ensures var before, after := ds[..k], ds[..k + 1];
            Named(after[AfterReset(after, name)..], name) ==
              if ds[k].name != name then Named(before[AfterReset(before, name)..], name)
              else if ds[k].value == EMPTY then []
              else Named(before[AfterReset(before, name)..], name) + [ds[k]]
  {
    var before, after := ds[..k], ds[..k + 1];
    assert after[..k] == before;
    if ds[k].name == name && ds[k].value == EMPTY {
      assert after[k + 1..] == [];
    } else {
      var r := AfterReset(before, name);
      var tail := after[r..];
      assert tail[..|tail| - 1] == before[r..];
      assert Named(before[r..], name) + [] == Named(before[r..], name);
    }
  }

  /** The last assignment wins, and an empty one restores the default: the end of the list, or nothing. */
  method Last(ds: seq<Directive>, name: ID) returns (found: Option<Directive>)
    ensures var list := Named(ds[AfterReset(ds, name)..], name);
            found == if list == [] then None else Some(list[|list| - 1])
  {
    found := None;
    for k := 0 to |ds|
      invariant var list := Named(ds[..k][AfterReset(ds[..k], name)..], name);
                found == if list == [] then None else Some(list[|list| - 1])
    {
      ListStep(ds, k, name);
      if ds[k].name == name {
        found := if ds[k].value == EMPTY then None else Some(ds[k]);
      }
    }
    assert ds[..|ds|] == ds;
  }

  // ---------------------------------------------------------------- finding the unit file

  /** p is the highest-precedence location that holds the unit, everything above it being empty. */
  ghost predicate FirstUnit(h: Host, name: ID, p: ID) {
    exists k :: 0 <= k < |ROOTS| && p == h.join(ROOTS[k], name) && h.stat(p).Ok?
      && forall i | 0 <= i < k :: h.stat(h.join(ROOTS[i], name)) == Err(NotExist)
  }

  /** The k-th location says what is there; none above it does. */
  predicate AnswersFirst(h: Host, name: ID, k: nat)
    requires k < |ROOTS|
  {
    h.stat(h.join(ROOTS[k], name)).Ok? && forall i | 0 <= i < k :: h.stat(h.join(ROOTS[i], name)).Err?
  }

  /** Of the first k locations, exactly those that failed otherwise than by being empty, under their own state. */
  ghost predicate AreRefusals(h: Host, name: ID, k: nat, refused: seq<Fragment>)
    requires k <= |ROOTS|
  {
    forall f :: f in refused <==> exists i :: 0 <= i < k && Refuses(h, h.join(ROOTS[i], name)) && f == Refusal(h, h.join(ROOTS[i], name))
  }

  predicate Refuses(h: Host, p: ID) { h.stat(p).Err? && h.stat(p).error != NotExist }

  function Refusal(h: Host, p: ID): Fragment
    requires Refuses(h, p)
  {
    Gap(p, UnitFile, StateFor(h.stat(p).error))
  }

  /** The first location that can be stat'ed, and the ones before it that refused to say. */
  method FindUnit(h: Host, name: ID) returns (found: Option<ID>, refused: seq<Fragment>)
    ensures found.Some? && AllRead(refused) ==> FirstUnit(h, name, found.value)
    ensures found.None? && AllRead(refused) ==> forall i | 0 <= i < |ROOTS| :: h.stat(h.join(ROOTS[i], name)) == Err(NotExist)
    ensures found.Some? ==> exists k :: 0 <= k < |ROOTS| && AnswersFirst(h, name, k) && found.value == h.join(ROOTS[k], name) && AreRefusals(h, name, k, refused)
    ensures found.None? ==> AreRefusals(h, name, |ROOTS|, refused) && forall i | 0 <= i < |ROOTS| :: h.stat(h.join(ROOTS[i], name)).Err?
    ensures forall f | f in refused :: f.shadowedBy.None?
  {
    refused := [];
    for k := 0 to |ROOTS|
      invariant forall i | 0 <= i < k :: h.stat(h.join(ROOTS[i], name)).Err?
      invariant forall f | f in refused :: f.shadowedBy.None?
      invariant AllRead(refused) ==> forall i | 0 <= i < k :: h.stat(h.join(ROOTS[i], name)) == Err(NotExist)
      invariant AreRefusals(h, name, k, refused)
    {
      var p := h.join(ROOTS[k], name);
      var st := h.stat(p);
      if st.Ok? {
        assert AnswersFirst(h, name, k);
        assert AllRead(refused) ==> FirstUnit(h, name, p);
        return Some(p), refused;
      }
      if st.error != NotExist {
        refused := refused + [Gap(p, UnitFile, StateFor(st.error))];
        assert !AllRead(refused) by { assert refused[|refused| - 1].state != Present; }
      }
    }
    return None, refused;
  }

  // ---------------------------------------------------------------- reading one fragment

  /** Where a chain of links ends, or why it cannot be followed; at most MAX_LINK_HOPS links are. */
  function Follow(h: Host, target: ID, hop: nat): Result<ID, UnitState>
    decreases MAX_LINK_HOPS - hop
  {
    var st := h.stat(target);
    if st.Err? then Err(StateFor(st.error))
    else if !st.value.isSymlink then (if st.value.isRegular then Ok(target) else Err(NotRegular))
    else if hop >= MAX_LINK_HOPS then Err(NotRegular)
    else
      var dest := h.readlink(target);
      if dest.Err? then Err(StateFor(dest.error))
      else if h.resolve(target, dest.value) == DEV_NULL then Err(Masked)
      else Follow(h, h.resolve(target, dest.value), hop + 1)
  }

  /** The text of a fragment that can be read in full, or the state that says why not. */
  function ReadText(h: Host, p: ID): Result<string, UnitState> {
    var target := Follow(h, p, 0);
    if target.Err? then Err(target.error)
    else
      var c := h.read(target.value);
      if c.Err? then Err(StateFor(c.error))
      else if c.value.truncated then Err(Truncated)
      else if !c.value.isText then Err(Unreadable)
      else Ok(c.value.text)
  }

  method ReadFragment(h: Host, p: ID, kind: FragmentKind) returns (f: Fragment, text: string)
    ensures f.path == p && f.kind == kind && f.shadowedBy.None?
    ensures f.state == Present <==> ReadText(h, p).Ok?
    ensures ReadText(h, p).Ok? ==> text == ReadText(h, p).value
    ensures ReadText(h, p).Err? ==> f.state == ReadText(h, p).error
  {
    f, text := Gap(p, kind, Present), "";
    var target, hop := p, 0;
    FailuresAreNotPresent(h, p, 0);
    while true
      invariant 0 <= hop <= MAX_LINK_HOPS && f == Gap(p, kind, Present).(resolved := f.resolved)
      invariant Follow(h, target, hop) == Follow(h, p, 0)
      decreases MAX_LINK_HOPS - hop
    {
      var st := h.stat(target);
      if st.Err? { f := f.(state := StateFor(st.error)); return; }
      if !st.value.isSymlink {
        if !st.value.isRegular { f := f.(state := NotRegular); return; }
        break;
      }
      if hop >= MAX_LINK_HOPS { f := f.(state := NotRegular); return; }
      var dest := h.readlink(target);
      if dest.Err? { f := f.(state := StateFor(dest.error)); return; }
      target := h.resolve(target, dest.value);
      f := f.(resolved := Some(target));
      if target == DEV_NULL { f := f.(state := Masked); return; }
      hop := hop + 1;
    }
    var c := h.read(target);
    if c.Err? { f := f.(state := StateFor(c.error)); return; }
    f := f.(digest := Some(c.value.digest));
    text := c.value.text;
    if c.value.truncated { f := f.(state := Truncated); return; }
    if !c.value.isText { f, text := f.(state := Unreadable), ""; return; }
  }

  lemma {:induction false} FailuresAreNotPresent(h: Host, target: ID, hop: nat)
    requires hop <= MAX_LINK_HOPS
    ensures Follow(h, target, hop).Err? ==> Follow(h, target, hop).error != Present
    decreases MAX_LINK_HOPS - hop
  {
    var st := h.stat(target);
    if st.Ok? && st.value.isSymlink && hop < MAX_LINK_HOPS && h.readlink(target).Ok? {
      FailuresAreNotPresent(h, h.resolve(target, h.readlink(target).value), hop + 1);
    }
  }

  // ---------------------------------------------------------------- which text a fragment has

  /** From place to place of the chain there is a link. */
  ghost predicate Linked(h: Host, chain: seq<ID>) {
    forall i | 0 < i < |chain| :: Points(h, chain[i - 1], chain[i])
  }

  predicate Points(h: Host, a: ID, b: ID) {
    h.stat(a).Ok? && h.stat(a).value.isSymlink && h.readlink(a).Ok? && h.resolve(a, h.readlink(a).value) == b
  }

  /** At most four links lead from p to an end, none of them through /dev/null. */
  ghost predicate LeadsTo(h: Host, p: ID, chain: seq<ID>, hops: int) {
    && 1 <= |chain| <= hops + 1 && chain[0] == p && Linked(h, chain)
    && forall i | 0 < i < |chain| - 1 :: chain[i] != ID("/dev/null")
  }

  ghost predicate EndsInFile(h: Host, chain: seq<ID>)
    requires chain != []
  {
    var end := chain[|chain| - 1];
    (|chain| > 1 ==> end != ID("/dev/null")) && h.stat(end).Ok? && !h.stat(end).value.isSymlink && h.stat(end).value.isRegular
  }

  ghost predicate EndsMasked(chain: seq<ID>) { |chain| > 1 && chain[|chain| - 1] == ID("/dev/null") }

  lemma {:induction false} LongerChain(h: Host, p: ID, q: ID, chain: seq<ID>, hops: nat)
    requires Points(h, p, q) && q != ID("/dev/null") && LeadsTo(h, q, chain, hops)
    ensures LeadsTo(h, p, [p] + chain, hops + 1)
  {
  }

  lemma {:induction false} ShorterChain(h: Host, p: ID, chain: seq<ID>, hops: int)
    requires LeadsTo(h, p, chain, hops) && |chain| > 1
    ensures Points(h, p, chain[1]) && (chain[1] == ID("/dev/null") ==> |chain| == 2)
    ensures chain[1] != ID("/dev/null") ==> LeadsTo(h, chain[1], chain[1..], hops - 1)
  {
    var rest := chain[1..];
    assert Points(h, chain[0], chain[1]);
    forall i | 0 < i < |rest| ensures Points(h, rest[i - 1], rest[i]) { assert Points(h, chain[i], chain[i + 1]); }
  }

  /** Following links finds the end of the chain, if it is a regular file. */
  lemma {:induction false} FollowedToFile(h: Host, p: ID, hop: nat, chain: seq<ID>)
    requires hop <= 4 && LeadsTo(h, p, chain, 4 - hop) && EndsInFile(h, chain)
    ensures Follow(h, p, hop) == Ok(chain[|chain| - 1])
    decreases |chain|
  {
    if |chain| > 1 {
      ShorterChain(h, p, chain, 4 - hop);
      FollowedToFile(h, chain[1], hop + 1, chain[1..]);
    }
  }

  lemma {:induction false} FollowedToMask(h: Host, p: ID, hop: nat, chain: seq<ID>)
    requires hop <= 4 && LeadsTo(h, p, chain, 4 - hop) && EndsMasked(chain)
    ensures Follow(h, p, hop) == Err(Masked)
    decreases |chain|
  {
    ShorterChain(h, p, chain, 4 - hop);
    if chain[1] != ID("/dev/null") { FollowedToMask(h, chain[1], hop + 1, chain[1..]); }
  }

  /** Something about the end of the chain fails for this reason. */
  ghost predicate FailsAt(h: Host, chain: seq<ID>, e: StatError)
    requires chain != []
  {
    var end := chain[|chain| - 1];
    || h.stat(end) == Err(e)
    || (h.stat(end).Ok? && h.stat(end).value.isSymlink && |chain| <= 4 && h.readlink(end) == Err(e))
    || (EndsInFile(h, chain) && h.read(end) == Err(e))
  }

  /** What the chain comes to, for each state a fragment can have. */
  ghost predicate Explains(h: Host, chain: seq<ID>, state: UnitState)
    requires chain != []
  {
    var end := chain[|chain| - 1];
    match state
    case Masked => EndsMasked(chain)
    case Denied => FailsAt(h, chain, Permission)
    case Absent => FailsAt(h, chain, NotExist)
    case NotRegular => FailsAt(h, chain, NotRegularFile) || (h.stat(end).Ok? && if h.stat(end).value.isSymlink then |chain| == 5 else !h.stat(end).value.isRegular)
    case Truncated => EndsInFile(h, chain) && h.read(end).Ok? && h.read(end).value.truncated
    case Unreadable => FailsAt(h, chain, OtherError) || (EndsInFile(h, chain) && h.read(end).Ok? && !h.read(end).value.truncated && !h.read(end).value.isText)
    case Present => EndsInFile(h, chain) && h.read(end).Ok? && !h.read(end).value.truncated && h.read(end).value.isText
  }

  /** Where the links lead, and what is found there, however that ends. */
  lemma {:induction false} ChainFollowed(h: Host, p: ID, hop: nat) returns (chain: seq<ID>)
    requires hop <= 4
    ensures LeadsTo(h, p, chain, 4 - hop)
    ensures var r, end := Follow(h, p, hop), chain[|chain| - 1];
            match r
            case Ok(file) => EndsInFile(h, chain) && file == end
            case Err(state) => (EndsMasked(chain) && state == Masked) || StopsAt(h, end, hop + |chain| - 1, state)
    decreases 4 - hop
  {
    var st := h.stat(p);
    if st.Err? || !st.value.isSymlink || hop == 4 || h.readlink(p).Err? {
      chain := [p];
    } else {
      var q := h.resolve(p, h.readlink(p).value);
      if q == ID("/dev/null") {
        chain := [p, q];
      } else {
        var rest := ChainFollowed(h, q, hop + 1);
        LongerChain(h, p, q, rest, 4 - hop - 1);
        chain := [p] + rest;
      }
    }
  }

  /** Following links stops short at this place, so many links on, for what the system answers there. */
  ghost predicate StopsAt(h: Host, end: ID, hops: int, state: UnitState) {
    match h.stat(end)
    case Err(e) => state == StateFor(e)
    case Ok(info) =>
      if !info.isSymlink then !info.isRegular && state == NotRegular
      else if hops >= 4 then hops == 4 && state == NotRegular
      else h.readlink(end).Err? && state == StateFor(h.readlink(end).error)
  }

  /** Every fragment's state is what some chain of at most four links comes to. */
  lemma {:induction false} StateIsExplained(h: Host, p: ID)
    ensures exists chain :: LeadsTo(h, p, chain, 4) && Explains(h, chain, if ReadText(h, p).Ok? then Present else ReadText(h, p).error)
  {
    var chain := ChainFollowed(h, p, 0);
    assert Explains(h, chain, if ReadText(h, p).Ok? then Present else ReadText(h, p).error);
  }

  /** A fragment has a text exactly when at most four links lead to a regular file that was read whole, as text. */
  lemma {:induction false} TextExactlyWhen(h: Host, p: ID, text: string)
    ensures ReadText(h, p) == Ok(text) <==>
              exists chain :: LeadsTo(h, p, chain, 4) && EndsInFile(h, chain) && HoldsText(h, chain[|chain| - 1], text)
  {
    if ReadText(h, p) == Ok(text) {
      var chain := ChainFollowed(h, p, 0);
      assert HoldsText(h, chain[|chain| - 1], text);
    }
    if exists chain :: LeadsTo(h, p, chain, 4) && EndsInFile(h, chain) && HoldsText(h, chain[|chain| - 1], text) {
      var chain :| LeadsTo(h, p, chain, 4) && EndsInFile(h, chain) && HoldsText(h, chain[|chain| - 1], text);
      FollowedToFile(h, p, 0, chain);
    }
  }

  predicate HoldsText(h: Host, p: ID, text: string) {
    h.read(p).Ok? && !h.read(p).value.truncated && h.read(p).value.isText && h.read(p).value.text == text
  }

  /** A unit is masked exactly when at most four links lead to /dev/null. */
  lemma {:induction false} MaskedExactlyWhen(h: Host, p: ID)
    ensures ReadText(h, p) == Err(Masked) <==> exists chain :: LeadsTo(h, p, chain, 4) && EndsMasked(chain)
  {
    if ReadText(h, p) == Err(Masked) {
      var chain := ChainFollowed(h, p, 0);
    }
    if exists chain :: LeadsTo(h, p, chain, 4) && EndsMasked(chain) {
      var chain :| LeadsTo(h, p, chain, 4) && EndsMasked(chain);
      FollowedToMask(h, p, 0, chain);
    }
  }
}
