/** The order settings come out in, said of files and lines alone (internal/fact/kernel.go:225-261, 365-400). */
module SysctlOrder {
  import opened Basics
  import opened Ids
  import opened Sysctl
  import Text

  // ---------------------------------------------------------------- the three rules

  /** A line that names the key wins outright, whatever is excluded and whatever patterns match. */
  lemma {:induction false} LiteralWins(c: Config, key: ID, out: seq<Setting>)
    requires AreSettings(c, key, out) && key in c.configured && c.configured[key] != []
    ensures out == c.configured[key]
  {
  }

  /** Without one, a line that excludes the key stops every pattern. */
  lemma {:induction false} ExclusionWithholds(c: Config, key: ID, out: seq<Setting>, k: nat)
    requires AreSettings(c, key, out) && (key !in c.configured || c.configured[key] == [])
    requires k < |c.excluded| && c.excluded[k].key == key
    ensures out == []
  {
    assert c.excluded[k] in c.excluded;
  }

  /** Patterns decide: no line names the key, and none excludes it. */
  ghost predicate LeftToPatterns(c: Config, key: ID) {
    && (key !in c.configured || c.configured[key] == [])
    && forall k | 0 <= k < |c.excluded| :: c.excluded[k].key != key
  }

  /** A line of a pattern that covers the key. */
  ghost predicate SetByPattern(c: Config, key: ID, s: Setting) {
    exists p :: p in c.configured && s in c.configured[p] && c.matches(p, key) && exists k :: 0 <= k < |p.name| && p.name[k] in "*?["
  }

  // ---------------------------------------------------------------- file order, then line order

  /** The file comes k-th in the list; one that is not listed counts as the first. */
  ghost predicate ComesAt(files: seq<ID>, f: ID, k: nat) {
    if f in files then k < |files| && files[k] == f && f !in files[..k] else k == 0
  }

  lemma {:induction false} OneFirst(files: seq<ID>, f: ID, k: nat, i: nat)
    requires k < |files| && f !in files[..k] && i < |files| && files[i] == f
    ensures k <= i
  {
    forall j | 0 <= j < k ensures files[j] != f { assert files[..k][j] in files[..k]; }
  }

  lemma {:induction false} PositionIsWhere(files: seq<ID>, f: ID, k: nat)
    ensures ComesAt(files, f, k) <==> Position(files, f) == k
  {
    if f in files {
      var i := FirstIndex(files, f);
      if ComesAt(files, f, k) {
        OneFirst(files, f, k, i);
        OneFirst(files, f, i, k);
      }
    }
  }

  /** s is from an earlier file than t, or from the same file and no later line of it. */
  ghost predicate NotAfter(files: seq<ID>, s: Setting, t: Setting) {
    forall p, q | ComesAt(files, s.file, p) && ComesAt(files, t.file, q) :: p < q || (p == q && s.line <= t.line)
  }

  lemma {:induction false} NotAfterByRank(files: seq<ID>, s: Setting, t: Setting)
    ensures NotAfter(files, s, t) <==> AppliedBefore(RankIn(files), s, t)
  {
    forall p: nat ensures ComesAt(files, s.file, p) <==> Position(files, s.file) == p { PositionIsWhere(files, s.file, p); }
    forall q: nat ensures ComesAt(files, t.file, q) <==> Position(files, t.file) == q { PositionIsWhere(files, t.file, q); }
    assert ComesAt(files, s.file, Position(files, s.file)) && ComesAt(files, t.file, Position(files, t.file));
  }

  /** Every line of every covering pattern applies, from earlier files first, and in one file from earlier lines first. */
  lemma {:induction false} AppliedInOrder(c: Config, key: ID, out: seq<Setting>)
    requires AreSettings(c, key, out) && LeftToPatterns(c, key)
    ensures forall s :: s in out <==> SetByPattern(c, key, s)
    ensures forall i, j | 0 <= i < j < |out| :: NotAfter(c.files, out[i], out[j])
  {
    var patterns :| Enumerates(patterns, c) && out == SettingsVia(c, key, patterns);
    var all := Gathered(c, key, patterns);
    assert multiset(out) == multiset(all) && InOrder(RankIn(c.files), out);
    forall s ensures s in out <==> SetByPattern(c, key, s) {
      GatheredSet(c, key, patterns, s);
      assert s in out <==> s in multiset(out);
      assert s in all <==> s in multiset(all);
    }
    forall i, j | 0 <= i < j < |out| ensures NotAfter(c.files, out[i], out[j]) { NotAfterByRank(c.files, out[i], out[j]); }
  }

  lemma {:induction false} GatheredSet(c: Config, key: ID, patterns: seq<ID>, s: Setting)
    requires Enumerates(patterns, c)
    ensures s in Gathered(c, key, patterns) <==> SetByPattern(c, key, s)
  {
    GatheredMembers(c, key, patterns, s);
    forall p ensures p in patterns <==> p in c.configured { assert p in Members(patterns) <==> p in c.configured.Keys; }
    forall p: ID ensures IsGlob(p) <==> exists k :: 0 <= k < |p.name| && p.name[k] in "*?[" { GlobCharacters(p); }
  }

  lemma {:induction false} GlobCharacters(p: ID)
    ensures IsGlob(p) <==> exists k :: 0 <= k < |p.name| && p.name[k] in "*?["
  {
    if IsGlob(p) {
      var k :| 0 <= k < |p.name| && (p.name[k] == '*' || p.name[k] == '?' || p.name[k] == '[');
    }
  }

  /** So the value patterns leave is from the last of the files that set it, and from its last line there. */
  lemma {:induction false} LastFileDecides(c: Config, key: ID, out: seq<Setting>, s: Setting)
    requires AreSettings(c, key, out) && LeftToPatterns(c, key) && SetByPattern(c, key, s)
    ensures out != [] && NotAfter(c.files, s, out[|out| - 1])
  {
    AppliedInOrder(c, key, out);
    assert s in out;
    NotAfterByRank(c.files, s, s);
    LastIsAfter(c.files, out, s);
  }

  lemma {:induction false} LastIsAfter(files: seq<ID>, out: seq<Setting>, s: Setting)
    requires s in out && NotAfter(files, s, s)
    requires forall i, j | 0 <= i < j < |out| :: NotAfter(files, out[i], out[j])
    ensures out != [] && NotAfter(files, s, out[|out| - 1])
  {
    var i :| 0 <= i < |out| && out[i] == s;
    assert i < |out| - 1 ==> NotAfter(files, out[i], out[|out| - 1]);
  }

  // ---------------------------------------------------------------- what a directory ends on

  /** s[k] is the first, or the last, setting of its directory. */
  ghost predicate FirstOfDir(dirOf: Grouping, s: seq<Setting>, k: int) {
    0 <= k < |s| && forall j | 0 <= j < k :: dirOf(s[j].file) != dirOf(s[k].file)
  }

  ghost predicate LastOfDir(dirOf: Grouping, s: seq<Setting>, k: int) {
    0 <= k < |s| && forall j | k < j < |s| :: dirOf(s[j].file) != dirOf(s[k].file)
  }

  lemma {:induction false} EndOfDir(dirOf: Grouping, s: seq<Setting>, dir: ID) returns (k: int)
    requires InDir(dirOf, s, dir) != []
    ensures LastOfDir(dirOf, s, k) && dirOf(s[k].file) == dir && IsLastOf(dirOf, s, dir, s[k])
  {
    var n := |s| - 1;
    InDirStep(dirOf, s, dir);
    if dirOf(s[n].file) == dir {
      k := n;
    } else {
      k := EndOfDir(dirOf, s[..n], dir);
      assert s[..n][k] == s[k];
      forall j | k < j < |s| ensures dirOf(s[j].file) != dir { assert j < n ==> s[..n][j] == s[j]; }
    }
  }

  /** Where each directory is first met, in the order of the winners. */
  lemma {:induction false} FirstMet(dirOf: Grouping, s: seq<Setting>) returns (firsts: seq<int>)
    ensures AreFirsts(dirOf, s, Dirs(dirOf, s), firsts)
    ensures forall k | 0 <= k < |s| :: dirOf(s[k].file) in Dirs(dirOf, s)
  {
    if s == [] {
      firsts := [];
    } else {
      var n := |s| - 1;
      var before := FirstMet(dirOf, s[..n]);
      var dirs, dir := Dirs(dirOf, s[..n]), dirOf(s[n].file);
      KeepsFirsts(dirOf, s, dirs, before);
      forall k | 0 <= k < n ensures dirOf(s[k].file) in dirs { assert s[..n][k] == s[k]; }
      if dir in dirs {
        firsts := before;
      } else {
        AddsFirst(dirOf, s, dirs, before);
        firsts := before + [n];
      }
    }
  }

  lemma {:induction false} AddsFirst(dirOf: Grouping, s: seq<Setting>, dirs: seq<ID>, firsts: seq<int>)
    requires s != [] && AreFirsts(dirOf, s, dirs, firsts) && dirOf(s[|s| - 1].file) !in dirs
    requires forall k | 0 <= k < |s| - 1 :: dirOf(s[k].file) in dirs
    ensures AreFirsts(dirOf, s, dirs + [dirOf(s[|s| - 1].file)], firsts + [|s| - 1])
  {
    forall i | 0 <= i < |firsts| ensures firsts[i] < |s| - 1 {
      assert FirstOfDir(dirOf, s, firsts[i]);
      assert dirOf(s[firsts[i]].file) in dirs;
    }
  }

  /** Each listed directory is first met at its place, and the places go up. */
  ghost predicate AreFirsts(dirOf: Grouping, s: seq<Setting>, dirs: seq<ID>, firsts: seq<int>) {
    && |firsts| == |dirs|
    && (forall i | 0 <= i < |firsts| :: FirstOfDir(dirOf, s, firsts[i]) && dirOf(s[firsts[i]].file) == dirs[i])
    && (forall i, j | 0 <= i < j < |firsts| :: firsts[i] < firsts[j])
  }

  lemma {:induction false} KeepsFirsts(dirOf: Grouping, s: seq<Setting>, dirs: seq<ID>, firsts: seq<int>)
    requires s != [] && AreFirsts(dirOf, s[..|s| - 1], dirs, firsts)
    ensures AreFirsts(dirOf, s, dirs, firsts)
  {
    var before := s[..|s| - 1];
    forall i | 0 <= i < |firsts| ensures FirstOfDir(dirOf, s, firsts[i]) && dirOf(s[firsts[i]].file) == dirs[i] {
      assert FirstOfDir(dirOf, before, firsts[i]);
      assert forall j | 0 <= j <= firsts[i] :: before[j] == s[j];
    }
  }

  /**
   * The winners are the last setting of each directory, one for each, in the order the directories are first met:
   * at lasts[i] is the last setting of the directory first met at firsts[i].
   */
  lemma {:induction false} WinnersAreTheLast(dirOf: Grouping, s: seq<Setting>, w: seq<Setting>) returns (firsts: seq<int>, lasts: seq<int>)
    requires AreWinners(dirOf, s, w)
    ensures |firsts| == |lasts| == |w| && forall i, j | 0 <= i < j < |w| :: firsts[i] < firsts[j]
    ensures forall i | 0 <= i < |w| ::
              && FirstOfDir(dirOf, s, firsts[i]) && LastOfDir(dirOf, s, lasts[i])
              && w[i] == s[lasts[i]] && dirOf(s[firsts[i]].file) == dirOf(w[i].file)
    ensures forall k | 0 <= k < |s| :: exists i :: 0 <= i < |w| && dirOf(w[i].file) == dirOf(s[k].file)
  {
    var dirs := Dirs(dirOf, s);
    firsts := FirstMet(dirOf, s);
    lasts := LastPlaces(dirOf, s, dirs, w);
    forall k | 0 <= k < |s| ensures exists i :: 0 <= i < |w| && dirOf(w[i].file) == dirOf(s[k].file) {
      var i :| 0 <= i < |dirs| && dirs[i] == dirOf(s[k].file);
      assert dirOf(w[i].file) == dirs[i];
    }
  }

  lemma {:induction false} LastPlaces(dirOf: Grouping, s: seq<Setting>, dirs: seq<ID>, w: seq<Setting>) returns (lasts: seq<int>)
    requires |dirs| == |w| && forall i | 0 <= i < |w| :: IsLastOf(dirOf, s, dirs[i], w[i])
    ensures |lasts| == |w|
    ensures forall i | 0 <= i < |w| :: LastOfDir(dirOf, s, lasts[i]) && w[i] == s[lasts[i]] && dirOf(w[i].file) == dirs[i]
  {
    if w == [] {
      lasts := [];
    } else {
      var n := |w| - 1;
      var before := LastPlaces(dirOf, s, dirs[..n], w[..n]);
      assert IsLastOf(dirOf, s, dirs[n], w[n]);
      var k := EndOfDir(dirOf, s, dirs[n]);
      lasts := before + [k];
    }
  }

  // ---------------------------------------------------------------- which directory a file is in

  /** A file's directory is what stands before its name, but a file right in /etc is its own. */
  lemma {:induction false} DirectoryOfFile(dir: string, name: string)
    requires dir != "" && '/' !in name
    ensures DirOf(ID(dir + "/" + name)) == if dir == "/etc" then ID(dir + "/" + name) else ID(dir)
  {
    var s := dir + "/" + name;
    LastSlashAt(dir, name);
    assert s[..|dir|] == dir;
  }

  lemma {:induction false} LastSlashAt(dir: string, name: string)
    requires '/' !in name
    ensures Text.LastIndexOf(dir + "/" + name, '/') == |dir|
  {
    var s := dir + "/" + name;
    if name == "" {
      assert s[|s| - 1] == '/';
    } else {
      var n := |name| - 1;
      assert s[..|s| - 1] == dir + "/" + name[..n];
      assert s[|s| - 1] == name[n];
      LastSlashAt(dir, name[..n]);
    }
  }

  // ---------------------------------------------------------------- which values are the same

  /** Values are compared without the spaces around them: two that differ in those alone never conflict, two others do. */
  lemma {:induction false} ComparedWithoutSpaces(x: string, v: string, y: string, w: string)
    requires v != "" && Text.Trimmed(v) && (exists a, b :: Text.Around(x, a, v, b))
    requires w != "" && Text.Trimmed(w) && (exists a, b :: Text.Around(y, a, w, b))
    ensures Trimmed(ID(x)) == Trimmed(ID(y)) <==> v == w
  {
    Text.TrimExactlyWhen(x, v);
    Text.TrimExactlyWhen(y, w);
  }
}
