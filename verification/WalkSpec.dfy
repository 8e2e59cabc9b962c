/** The traversal of internal/collect/walker/walker.go, without its questions.
 *
 * What a walk sees depends only on the filesystem, the configuration and the
 * clock. The functions here say which inodes it offers, which directories it
 * lists and which limits fire, in order; Walker.dfy refines them and folds the
 * same events into facts. */
module WalkSpec {
  import opened Basics
  import opened FsFacts
  import opened Ids
  import Lex

  const DEFAULT_MAX_DEPTH := 64
  const DEFAULT_MAX_INODES := 3_000_000
  const DEFAULT_BUDGET := 240_000_000_000
  const CLOCK_CHECK_EVERY := 4096

  const SKIP_FS_TYPES: seq<string> := [
    "proc", "sysfs", "devtmpfs", "devpts", "cgroup*", "tracefs", "debugfs", "fuse*", "nfs*", "cifs",
    "smb*", "autofs", "rpc_pipefs", "binfmt_misc", "securityfs", "pstore", "bpf", "configfs", "mqueue",
    "hugetlbfs"]

  /** One skip-list entry against a type: a trailing star makes it a prefix. */
  predicate SkipMatches(pat: string, fstype: string) {
    if pat != [] && pat[|pat| - 1] == '*' then pat[..|pat| - 1] <= fstype else fstype == pat
  }

  predicate SkippedFSType(fstype: string) {
    exists pat | pat in SKIP_FS_TYPES :: SkipMatches(pat, fstype)
  }

  /** One traversal's parameters; zero or less means the default. */
  datatype Config = Config(
    roots: seq<ID>, crossFS: bool, maxDepth: int, maxInodes: int, budget: int, maxDirEntries: int)
  {
    function Roots(): seq<ID> { if roots == [] then [ID("/")] else roots }
    function MaxDepth(): int { if maxDepth <= 0 then DEFAULT_MAX_DEPTH else maxDepth }
    function MaxInodes(): nat { if maxInodes <= 0 then DEFAULT_MAX_INODES else maxInodes }
    function Budget(): int { if budget <= 0 then DEFAULT_BUDGET else budget }
  }

  /** The world a walk runs in. The filesystem answers by path; the clock and the
   * context answer by how often they have been asked. */
  datatype World = World(
    stat: ID -> Option<FileInfo>,
    readDir: (ID, int) -> Option<DirResult>,
    fstypeAt: ID -> Option<ID>,
    mountsKnown: bool,
    ctxDone: nat -> bool,
    clock: nat -> int,
    cfg: Config)
  {
    function List(path: ID): Option<DirResult> { readDir(path, cfg.maxDirEntries) }

    /** Crossing is declined when the mount table could not be read. */
    predicate Crosses() { cfg.crossFS && mountsKnown }

    function Deadline(): int { clock(0) + cfg.Budget() }

    predicate SkippedHere(path: ID) {
      fstypeAt(path).Some? && SkippedFSType(fstypeAt(path).value.name)
    }

    /** Whether dir is outside the scope of a walk rooted on rootDev. */
    predicate Declines(dir: FileInfo, rootDev: nat) {
      || (!Crosses() && dir.dev != 0 && rootDev != 0 && dir.dev != rootDev)
      || SkippedHere(dir.path)
    }
  }

  /** What happened during a walk, in order. */
  datatype Event =
    | Seen(fi: FileInfo)
    | Listed(dir: FileInfo)
    | Cut(reason: ID)

  datatype Core = Core(
    visited: set<DevIno>, inodes: nat, dirs: nat, cycles: nat, declined: nat,
    stop: bool, ticks: nat, events: seq<Event>)
  {
    function Log(e: Event): Core { this.(events := events + [e]) }
  }

  datatype Frame = Frame(fi: FileInfo, depth: int)

  function PathOf(fi: FileInfo): string { fi.path.name }

  function Start(): Core { Core({}, 0, 0, 0, 0, false, 0, []) }

  /** Present one inode; false when the inode budget is spent. */
  function Offer(w: World, c: Core, fi: FileInfo): (r: (Core, bool))
  {
    if c.inodes >= w.cfg.MaxInodes() then (c.Log(Cut(TRUNC_INODES)).(stop := true), false)
    else (c.Log(Seen(fi)).(inodes := c.inodes + 1), true)
  }

  function OverBudget(w: World, c: Core): (r: (Core, bool))
  {
    if c.stop then (c, true)
    else if w.ctxDone(c.ticks) || w.clock(c.ticks + 1) >= w.Deadline() then
      (c.Log(Cut(TRUNC_DEADLINE)).(stop := true, ticks := c.ticks + 1), true)
    else (c.(ticks := c.ticks + 1), false)
  }

  function OverBudgetSampled(w: World, c: Core): (r: (Core, bool))
  {
    if c.stop then (c, true)
    else if c.inodes % CLOCK_CHECK_EVERY != 0 then (c, false)
    else OverBudget(w, c)
  }

  datatype Scan = Scan(core: Core, children: seq<Frame>, finished: bool)

  /** Whether an offered entry becomes a directory to enter. */
  predicate Descends(w: World, depth: int, rootDev: nat, e: FileInfo) {
    e.Enterable() && depth + 1 <= w.cfg.MaxDepth() && !w.Declines(e, rootDev)
  }

  /** The state in which the scan goes on after an offered entry. */
  function AfterEntry(w: World, c: Core, depth: int, rootDev: nat, e: FileInfo): Core {
    if !e.Enterable() then c
    else if depth + 1 > w.cfg.MaxDepth() then c.Log(Cut(TRUNC_DEPTH))
    else if w.Declines(e, rootDev) then c.(declined := c.declined + 1)
    else c
  }

  /** The per-entry loop over one sorted listing. */
  function ScanEntries(w: World, c: Core, depth: int, rootDev: nat, es: seq<FileInfo>): (r: Scan)
    ensures r.core.inodes >= c.inodes + |r.children|
    ensures c.inodes <= w.cfg.MaxInodes() ==> r.core.inodes <= w.cfg.MaxInodes()
    decreases |es|
  {
    if es == [] then Scan(c, [], true)
    else
      var (c1, over) := OverBudgetSampled(w, c);
      if over then Scan(c1, [], false) else
      var (c2, ok) := Offer(w, c1, es[0]);
      if !ok then Scan(c2, [], false) else
      var rest := ScanEntries(w, AfterEntry(w, c2, depth, rootDev, es[0]), depth, rootDev, es[1..]);
      if Descends(w, depth, rootDev, es[0])
      then Scan(rest.core, [Frame(es[0], depth + 1)] + rest.children, rest.finished)
      else rest
  }

  /** Entering a directory: skipped when its identity was entered before. */
  predicate Revisit(c: Core, fi: FileInfo) {
    fi.Identified() && fi.Id() in c.visited
  }

  function MarkVisited(c: Core, fi: FileInfo): Core {
    if fi.Identified() then c.(visited := c.visited + {fi.Id()}) else c
  }

  /** Whether a listing succeeded, and the state when its entries are about to be scanned. */
  function ListDir(w: World, c: Core, fi: FileInfo): (Core, Option<seq<FileInfo>>)
  {
    var c1 := c.Log(Listed(fi));
    match w.List(fi.path)
    case None => (c1.Log(Cut(TRUNC_UNREADABLE)), None)
    case Some(l) =>
      var c2 := c1.(dirs := c1.dirs + 1);
      (if l.truncated then c2.Log(Cut(TRUNC_DIR_LISTING)) else c2, Some(Lex.SortBy(l.entries, PathOf)))
  }

  datatype Step = Halt(core: Core) | Next(core: Core, stack: seq<Frame>)

  /** One turn of the explicit-stack loop; the top of the stack is its last element. */
  function StackStep(w: World, c: Core, rootDev: nat, stack: seq<Frame>): (r: Step)
    requires c.inodes <= w.cfg.MaxInodes() && stack != []
    ensures c.inodes <= r.core.inodes <= w.cfg.MaxInodes()
    ensures r.Next? ==> r.core.inodes > c.inodes || |r.stack| < |stack|
  {
    var (c1, over) := OverBudget(w, c);
    if over then Halt(c1) else
    var f, rest := stack[|stack| - 1], stack[..|stack| - 1];
    if Revisit(c1, f.fi) then Next(c1.(cycles := c1.cycles + 1), rest)
    else
      var (c2, listing) := ListDir(w, MarkVisited(c1, f.fi), f.fi);
      if listing.None? then Next(c2, rest)
      else
        var r := ScanEntries(w, c2, f.depth, rootDev, listing.value);
        if r.finished then Next(r.core, rest + Reverse(r.children)) else Halt(r.core)
  }

  /** The explicit-stack depth-first loop. */
  function WalkStack(w: World, c: Core, rootDev: nat, stack: seq<Frame>): (r: Core)
    requires c.inodes <= w.cfg.MaxInodes()
    ensures r.inodes <= w.cfg.MaxInodes()
    decreases w.cfg.MaxInodes() - c.inodes, |stack|
  {
    if stack == [] || c.stop then c
    else
      match StackStep(w, c, rootDev, stack)
      case Halt(c1) => c1
      case Next(c1, next) => WalkStack(w, c1, rootDev, next)
  }

  function WalkRoot(w: World, c: Core, root: ID): (r: Core)
    requires c.inodes <= w.cfg.MaxInodes()
    ensures r.inodes <= w.cfg.MaxInodes()
  {
    match w.stat(root)
    case None => c.Log(Cut(TRUNC_UNREADABLE))
    case Some(fi) =>
      var (c1, ok) := Offer(w, c, fi);
      if !fi.Enterable() || !ok then c1
      else WalkStack(w, c1, fi.dev, [Frame(fi, 0)])
  }

  function WalkRoots(w: World, c: Core, roots: seq<ID>): (r: Core)
    requires c.inodes <= w.cfg.MaxInodes()
    ensures r.inodes <= w.cfg.MaxInodes()
    decreases |roots|
  {
    if roots == [] then c
    else
      var c1 := WalkRoot(w, c, roots[0]);
      if c1.stop then c1 else WalkRoots(w, c1, roots[1..])
  }

  /** State before the first root: an unreadable mount table is recorded when crossing was asked for. */
  function Prepared(w: World): Core {
    if !w.mountsKnown && w.cfg.crossFS then Start().Log(Cut(TRUNC_MOUNTS_UNKNOWN)) else Start()
  }

  function Walk(w: World): (r: Core)
    ensures r.inodes <= w.cfg.MaxInodes()
  {
    WalkRoots(w, Prepared(w), w.cfg.Roots())
  }
}
