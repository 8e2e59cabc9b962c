/** Paths, file types and listings as the live system answers them (internal/system/live/live.go). */
module LiveSystem {
  import opened Basics
  import opened FsFacts
  import opened Ids
  import opened WalkSpec

  // ---------------------------------------------------------------- clean paths

  /** A name a directory can hold. */
  predicate ProperName(n: string) {
    n != "" && '/' !in n && '\0' !in n && n != "." && n != ".."
  }

  /** path.Join of a clean path and a name. */
  function Below(dir: ID, n: string): ID {
    ID(Prefix(dir) + "/" + n)
  }

  function Prefix(dir: ID): string { if dir == ID("/") then "" else dir.name }

  /** The path of these names, from the top. */
  function At(names: seq<ID>): ID {
    if names == [] then ID("/") else Below(At(names[..|names| - 1]), names[|names| - 1].name)
  }

  /** What path.Clean gives for an absolute path. */
  ghost predicate CleanPath(p: ID) {
    exists names: seq<ID> :: p == At(names) && forall i | 0 <= i < |names| :: ProperName(names[i].name)
  }

  lemma {:induction false} CleanIsNotEmpty(p: ID)
    requires CleanPath(p)
    ensures p.name != ""
  {
    var names: seq<ID> :| p == At(names) && forall i | 0 <= i < |names| :: ProperName(names[i].name);
  }

  lemma {:induction false} BelowIsClean(dir: ID, n: string)
    requires CleanPath(dir) && ProperName(n)
    ensures CleanPath(Below(dir, n))
  {
    var names: seq<ID> :| dir == At(names) && forall i | 0 <= i < |names| :: ProperName(names[i].name);
    var more := names + [ID(n)];
    assert more[..|names|] == names;
    assert Below(dir, n) == At(more);
    assert forall i | 0 <= i < |more| :: ProperName(more[i].name);
  }

  lemma {:induction false} NoSlashAfter(a: string, n: string, k: nat)
    requires '/' !in n && k < |a + "/" + n| && (a + "/" + n)[k] == '/'
    ensures k <= |a|
  {
    var s := a + "/" + n;
    forall i | |a| < i < |s| ensures s[i] != '/' { assert s[i] == n[i - |a| - 1]; }
  }

  lemma {:induction false} LastSlash(a: string, n: string, b: string, m: string)
    requires a + "/" + n == b + "/" + m && '/' !in n && '/' !in m
    ensures a == b && n == m
  {
    var s := a + "/" + n;
    assert s[|a|] == '/' && s[|b|] == '/';
    NoSlashAfter(a, n, |b|);
    NoSlashAfter(b, m, |a|);
    assert s[..|a|] == a && s[..|b|] == b;
    assert s[|a| + 1..] == n && s[|b| + 1..] == m;
  }

  /** A path has one directory and one last name. */
  lemma {:induction false} BelowOnce(p: ID, n: string, q: ID, m: string)
    requires CleanPath(p) && CleanPath(q) && ProperName(n) && ProperName(m)
    requires Below(p, n) == Below(q, m)
    ensures p == q && n == m
  {
    CleanIsNotEmpty(p);
    CleanIsNotEmpty(q);
    LastSlash(Prefix(p), n, Prefix(q), m);
  }

  lemma {:induction false} BelowIsLonger(p: ID, n: string)
    requires CleanPath(p) && ProperName(n)
    ensures |p.name| < |Below(p, n).name| <= |p.name| + 1 + |n|
  {
    CleanIsNotEmpty(p);
  }

  // ---------------------------------------------------------------- file types

  const MODE_DIR := 0x8000_0000
  const MODE_SYMLINK := 0x800_0000
  const MODE_DEVICE := 0x400_0000

  predicate HasBit(mode: nat, bit: nat)
    requires bit > 0
  {
    (mode / bit) % 2 == 1
  }

  /** The three flags follow from the mode, as infoFor sets them. */
  predicate Typed(fi: FileInfo) {
    && fi.isDir == HasBit(fi.mode, MODE_DIR) && fi.isSymlink == HasBit(fi.mode, MODE_SYMLINK)
    && (fi.isRegular ==> !fi.isDir && !fi.isSymlink && !HasBit(fi.mode, MODE_DEVICE))
  }

  /** Two paths that end in one name. */
  ghost predicate SameName(a: ID, b: ID) {
    exists d, d', n :: CleanPath(d) && CleanPath(d') && ProperName(n) && a == Below(d, n) && b == Below(d', n)
  }

  // ---------------------------------------------------------------- what a filesystem answers

  /**
   * Stat and ReadDir as live.go gives them: flags fit modes, paths are clean, an entry's path is its directory's path and a name,
   * asking for an entry by its path gives that entry, and a whole listing leaves none out.
   */
  ghost predicate LaidOut(w: World) {
    && (forall p | w.stat(p).Some? :: StatIsClean(w, p))
    && (forall p | w.List(p).Some? :: CleanPath(p) && w.stat(p).Some?)
    && (forall p | w.List(p).Some? :: forall e | e in w.List(p).value.entries :: IsEntryOf(w, p, e))
    && (forall p | w.List(p).Some? && !w.List(p).value.truncated :: ListsAll(w, p))
  }

  ghost predicate StatIsClean(w: World, p: ID)
    requires w.stat(p).Some?
  {
    var path := w.stat(p).value.path;
    Typed(w.stat(p).value) && CleanPath(path) && w.stat(path) == w.stat(p) && (CleanPath(p) ==> path == p)
  }

  ghost predicate IsEntryOf(w: World, p: ID, e: FileInfo) {
    w.stat(e.path) == Some(e) && exists n :: ProperName(n) && e.path == Below(p, n)
  }

  ghost predicate ListsAll(w: World, p: ID)
    requires w.List(p).Some?
  {
    forall n | ProperName(n) && w.stat(Below(p, n)).Some? :: w.stat(Below(p, n)).value in w.List(p).value.entries
  }
}
