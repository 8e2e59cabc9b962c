/** Which configured value a kernel parameter ends on (internal/fact/kernel.go). */
module Sysctl {
  import opened Basics
  import opened Ids
  import Text

  /** One `key = value` line of one file. */
  datatype Setting = Setting(key: ID, value: ID, file: ID, line: int)

  /** The configured half of the fact; matches is globMatches on the path forms. */
  datatype Config = Config(configured: map<ID, seq<Setting>>, excluded: seq<Setting>, files: seq<ID>, matches: (ID, ID) -> bool)

  predicate IsGlob(key: ID) {
    '*' in key.name || '?' in key.name || '[' in key.name
  }

  function Trimmed(v: ID): ID { ID(Text.TrimSpace(v.name)) }

  // ---------------------------------------------------------------- application order

  /** Where a file stands in the list of files, first occurrence; a file not in the list counts as the first. */
  function Position(files: seq<ID>, f: ID): (i: nat)
    ensures f in files ==> i < |files| && files[i] == f
  {
    if f in files then FirstIndex(files, f) else 0
  }

  function FirstIndex(files: seq<ID>, f: ID): (i: nat)
    requires f in files
    ensures i < |files| && files[i] == f && f !in files[..i]
  {
    if files[0] == f then 0
    else
      var i := FirstIndex(files[1..], f) + 1;
      assert files[..i] == [files[0]] + files[1..][..i - 1];
      i
  }

  /** How early a file is applied. */
  type Rank = ID -> int

  function RankIn(files: seq<ID>): Rank { f => Position(files, f) }

  predicate AppliedBefore(rank: Rank, a: Setting, b: Setting) {
    rank(a.file) < rank(b.file) || (rank(a.file) == rank(b.file) && a.line <= b.line)
  }

  predicate InOrder(rank: Rank, s: seq<Setting>) {
    forall i, j | 0 <= i < j < |s| :: AppliedBefore(rank, s[i], s[j])
  }

  function Insert(rank: Rank, x: Setting, s: seq<Setting>): (r: seq<Setting>)
    requires InOrder(rank, s)
    ensures InOrder(rank, r) && multiset(r) == multiset(s) + multiset{x}
  {
    if s == [] then [x]
    else if AppliedBefore(rank, x, s[0]) then
      InFront(rank, x, s);
      [x] + s
    else
      var rest := Insert(rank, x, s[1..]);
      Behind(rank, x, s, rest);
      assert s == [s[0]] + s[1..];
      [s[0]] + rest
  }

  lemma {:induction false} InFront(rank: Rank, x: Setting, s: seq<Setting>)
    requires s != [] && InOrder(rank, s) && AppliedBefore(rank, x, s[0])
    ensures InOrder(rank, [x] + s)
  {
    var r := [x] + s;
    forall i, j | 0 <= i < j < |r| ensures AppliedBefore(rank, r[i], r[j]) {
      if i == 0 && j > 1 { assert AppliedBefore(rank, s[0], s[j - 1]); }
      if i > 0 { assert AppliedBefore(rank, s[i - 1], s[j - 1]); }
    }
  }

  lemma {:induction false} Behind(rank: Rank, x: Setting, s: seq<Setting>, rest: seq<Setting>)
    requires s != [] && InOrder(rank, s) && !AppliedBefore(rank, x, s[0])
    requires InOrder(rank, rest) && multiset(rest) == multiset(s[1..]) + multiset{x}
    ensures InOrder(rank, [s[0]] + rest)
  {
    var r := [s[0]] + rest;
    forall j | 0 <= j < |rest| ensures AppliedBefore(rank, s[0], rest[j]) {
      assert rest[j] in multiset(rest);
      if rest[j] != x {
        assert rest[j] in s[1..];
        var k :| 0 <= k < |s[1..]| && s[1..][k] == rest[j];
        assert AppliedBefore(rank, s[0], s[k + 1]);
      }
    }
    forall i, j | 0 <= i < j < |r| ensures AppliedBefore(rank, r[i], r[j]) {
      if i > 0 { assert AppliedBefore(rank, rest[i - 1], rest[j - 1]); }
    }
  }

  /** sort.SliceStable by file position, then line. */
  function Sorted(rank: Rank, s: seq<Setting>): (r: seq<Setting>)
    ensures InOrder(rank, r) && multiset(r) == multiset(s)
  {
    if s == [] then []
    else
      assert s == [s[0]] + s[1..];
      Insert(rank, s[0], Sorted(rank, s[1..]))
  }

  // ---------------------------------------------------------------- the settings of a key

  predicate Matching(c: Config, key: ID, pattern: ID) {
    IsGlob(pattern) && c.matches(pattern, key)
  }

  /** The settings of every matching pattern, in the order the patterns are listed. */
  function Gathered(c: Config, key: ID, patterns: seq<ID>): seq<Setting> {
    if patterns == [] then []
    else
      var n := |patterns| - 1;
      Gathered(c, key, patterns[..n]) + Of(c, key, patterns[n])
  }

  function Of(c: Config, key: ID, pattern: ID): seq<Setting> {
    if pattern in c.configured && Matching(c, key, pattern) then c.configured[pattern] else []
  }

  ghost predicate Enumerates(patterns: seq<ID>, c: Config) {
    NoDuplicates(patterns) && Members(patterns) == c.configured.Keys
  }

  predicate NamedLiterally(c: Config, key: ID) {
    key in c.configured && c.configured[key] != []
  }

  predicate Withheld(c: Config, key: ID) {
    exists ex | ex in c.excluded :: ex.key == key
  }

  /** What SettingsFor returns when the map is enumerated in the given order. */
  function SettingsVia(c: Config, key: ID, patterns: seq<ID>): seq<Setting> {
    Chosen(c, key, Gathered(c, key, patterns))
  }

  /** The literal settings, or none, or the gathered ones put in order. */
  function Chosen(c: Config, key: ID, all: seq<Setting>): seq<Setting> {
    if NamedLiterally(c, key) then c.configured[key]
    else if Withheld(c, key) then []
    else if |all| < 2 then all
    else Sorted(RankIn(c.files), all)
  }

  /** What SettingsFor may return: the settings by some enumeration of the map. */
  ghost predicate AreSettings(c: Config, key: ID, out: seq<Setting>) {
    exists patterns :: Enumerates(patterns, c) && out == SettingsVia(c, key, patterns)
  }

  /** A literal line wins outright, an exclusion stops every glob, otherwise all matching globs apply. */
  method SettingsFor(c: Config, key: ID) returns (out: seq<Setting>)
    ensures AreSettings(c, key, out)
  {
    ghost var patterns := AnyOrder(c.configured.Keys);
    assert Enumerates(patterns, c);
    if NamedLiterally(c, key) { return c.configured[key]; }
    for k := 0 to |c.excluded|
      invariant forall i | 0 <= i < k :: c.excluded[i].key != key
    {
      if c.excluded[k].key == key {
        assert c.excluded[k] in c.excluded;
        return [];
      }
    }
    assert !Withheld(c, key);
    out, patterns := [], [];
    var todo := c.configured.Keys;
    while todo != {}
      invariant todo <= c.configured.Keys && NoDuplicates(patterns) && Members(patterns) == c.configured.Keys - todo
      invariant out == Gathered(c, key, patterns)
      decreases todo
    {
      var pattern :| pattern in todo;
      MembersSnoc(patterns, pattern);
      assert pattern !in Members(patterns);
      assert (patterns + [pattern])[..|patterns|] == patterns;
      if IsGlob(pattern) && c.matches(pattern, key) { out := out + c.configured[pattern]; }
      patterns := patterns + [pattern];
      todo := todo - {pattern};
    }
    assert Enumerates(patterns, c);
    if |out| < 2 { return; }
    out := Sorted(RankIn(c.files), out);
  }

  // ---------------------------------------------------------------- enumeration order does not matter

  /** One line of one listed file assigns one thing. */
  ghost predicate LinesDistinct(c: Config) {
    && (forall p, s | p in c.configured && s in c.configured[p] :: s.file in c.files)
    && (forall p, s, q, t | p in c.configured && s in c.configured[p] && q in c.configured && t in c.configured[q] ::
          s.file == t.file && s.line == t.line ==> s == t)
  }

  lemma {:induction false} GatheredMembers(c: Config, key: ID, patterns: seq<ID>, s: Setting)
    ensures s in Gathered(c, key, patterns) <==> exists p :: p in patterns && p in c.configured && Matching(c, key, p) && s in c.configured[p]
  {
    if patterns != [] {
      var n := |patterns| - 1;
      assert patterns == patterns[..n] + [patterns[n]];
      GatheredMembers(c, key, patterns[..n], s);
      assert patterns[n] in patterns;
      if s in Gathered(c, key, patterns[..n]) {
        var p :| p in patterns[..n] && p in c.configured && Matching(c, key, p) && s in c.configured[p];
        assert p in patterns;
      }
    }
  }

  lemma {:induction false} GatheredConcat(c: Config, key: ID, a: seq<ID>, b: seq<ID>)
    ensures Gathered(c, key, a + b) == Gathered(c, key, a) + Gathered(c, key, b)
  {
    if b == [] {
      assert a + b == a;
      assert Gathered(c, key, a) + [] == Gathered(c, key, a);
    } else {
      var n := |b| - 1;
      GatheredConcat(c, key, a, b[..n]);
      assert (a + b)[..|a| + n] == a + b[..n];
      Regroup(Gathered(c, key, a), Gathered(c, key, b[..n]), Of(c, key, b[n]));
    }
  }

  lemma {:induction false} OnePattern(c: Config, key: ID, pattern: ID)
    ensures Gathered(c, key, [pattern]) == Of(c, key, pattern)
  {
    assert [pattern][..0] == [];
  }

  lemma {:induction false} GatheredWithout(c: Config, key: ID, patterns: seq<ID>, i: nat)
    requires i < |patterns|
    ensures var rest := patterns[..i] + patterns[i + 1..];
            multiset(Gathered(c, key, patterns)) == multiset(Gathered(c, key, rest)) + multiset(Of(c, key, patterns[i]))
  {
    var a, x, b := patterns[..i], [patterns[i]], patterns[i + 1..];
    assert patterns == a + x + b;
    GatheredThree(c, key, a, x, b);
    OnePattern(c, key, patterns[i]);
    MiddleOut(Gathered(c, key, a), Of(c, key, patterns[i]), Gathered(c, key, b));
  }

  lemma {:induction false} GatheredThree(c: Config, key: ID, a: seq<ID>, x: seq<ID>, b: seq<ID>)
    ensures Gathered(c, key, a + x + b) == Gathered(c, key, a) + Gathered(c, key, x) + Gathered(c, key, b)
    ensures Gathered(c, key, a + b) == Gathered(c, key, a) + Gathered(c, key, b)
  {
    GatheredConcat(c, key, a, b);
    GatheredConcat(c, key, a, x);
    GatheredConcat(c, key, a + x, b);
  }

  lemma {:induction false} MiddleOut<T>(a: seq<T>, x: seq<T>, b: seq<T>)
    ensures multiset(a + x + b) == multiset(a + b) + multiset(x)
  {
  }

  lemma {:induction false} SameBag(c: Config, key: ID, a: seq<ID>, b: seq<ID>)
    requires NoDuplicates(a) && NoDuplicates(b) && Members(a) == Members(b)
    ensures multiset(Gathered(c, key, a)) == multiset(Gathered(c, key, b))
    decreases |a|
  {
    CountMembers(a);
    CountMembers(b);
    if a != [] {
      var n := |a| - 1;
      assert a[n] in Members(b);
      var i :| 0 <= i < |b| && b[i] == a[n];
      var front, rest := a[..n], b[..i] + b[i + 1..];
      GatheredWithout(c, key, b, i);
      DropOne(a, b, i);
      SameBag(c, key, front, rest);
    }
  }

  lemma {:induction false} DropOne(a: seq<ID>, b: seq<ID>, i: nat)
    requires NoDuplicates(a) && NoDuplicates(b) && Members(a) == Members(b) && a != []
    requires i < |b| && b[i] == a[|a| - 1]
    ensures var front, rest := a[..|a| - 1], b[..i] + b[i + 1..];
            NoDuplicates(front) && NoDuplicates(rest) && Members(front) == Members(rest)
  {
    var n := |a| - 1;
    var front, rest := a[..n], b[..i] + b[i + 1..];
    assert a == front + [a[n]];
    assert b == b[..i] + [b[i]] + b[i + 1..];
    forall p ensures p in front <==> p in rest {
      assert p in front <==> p in a && p != a[n];
      assert p in rest <==> p in b && p != b[i];
      assert p in Members(a) <==> p in Members(b);
    }
  }

  ghost predicate NoTies(rank: Rank, a: seq<Setting>) {
    forall x, y | x in a && y in a && AppliedBefore(rank, x, y) && AppliedBefore(rank, y, x) :: x == y
  }

  lemma {:induction false} SameHead(rank: Rank, a: seq<Setting>, b: seq<Setting>)
    requires InOrder(rank, a) && InOrder(rank, b) && multiset(a) == multiset(b) && NoTies(rank, a) && a != [] && b != []
    ensures a[0] == b[0]
  {
    assert a[0] in multiset(a) && b[0] in multiset(b);
    var i :| 0 <= i < |b| && b[i] == a[0];
    var j :| 0 <= j < |a| && a[j] == b[0];
  }

  lemma {:induction false} HeadBag<T>(s: seq<T>)
    requires s != []
    ensures s == [s[0]] + s[1..] && multiset(s[1..]) == multiset(s) - multiset{s[0]}
  {
    assert s == [s[0]] + s[1..];
  }

  /** Sorting decides the whole sequence when no two different settings tie. */
  lemma {:induction false} SortedUnique(rank: Rank, a: seq<Setting>, b: seq<Setting>)
    requires InOrder(rank, a) && InOrder(rank, b) && multiset(a) == multiset(b) && NoTies(rank, a)
    ensures a == b
    decreases |a|
  {
    assert |a| == |multiset(a)| && |b| == |multiset(b)|;
    if a != [] {
      SameHead(rank, a, b);
      HeadBag(a);
      HeadBag(b);
      SortedUnique(rank, a[1..], b[1..]);
    }
  }

  lemma {:induction false} GatheredNeverTie(c: Config, key: ID, patterns: seq<ID>)
    requires LinesDistinct(c)
    ensures NoTies(RankIn(c.files), Gathered(c, key, patterns))
  {
    var all, rank := Gathered(c, key, patterns), RankIn(c.files);
    forall s, t | s in all && t in all && AppliedBefore(rank, s, t) && AppliedBefore(rank, t, s) ensures s == t {
      GatheredMembers(c, key, patterns, s);
      GatheredMembers(c, key, patterns, t);
      assert s.file in c.files && t.file in c.files;
      assert c.files[rank(s.file)] == s.file && c.files[rank(t.file)] == t.file;
    }
  }

  lemma {:induction false} SameSettings(rank: Rank, x: seq<Setting>, y: seq<Setting>)
    requires multiset(x) == multiset(y) && NoTies(rank, x)
    ensures Sorted(rank, x) == Sorted(rank, y)
    ensures |x| == |y| && (|x| < 2 ==> x == y)
  {
    assert |x| == |multiset(x)| && |y| == |multiset(y)|;
    var p, q := Sorted(rank, x), Sorted(rank, y);
    forall s | s in p ensures s in x { assert s in multiset(p); }
    SortedUnique(rank, p, q);
    if |x| == 1 { assert x[0] in multiset(y); }
  }

  /** The settings of a key are the same whatever order the map is enumerated in. */
  lemma {:induction false} EnumerationDoesNotMatter(c: Config, key: ID, a: seq<ID>, b: seq<ID>)
    requires Enumerates(a, c) && Enumerates(b, c) && LinesDistinct(c)
    ensures SettingsVia(c, key, a) == SettingsVia(c, key, b)
  {
    SameBag(c, key, a, b);
    GatheredNeverTie(c, key, a);
    ChosenAgree(c, key, Gathered(c, key, a), Gathered(c, key, b));
  }

  lemma {:induction false} ChosenAgree(c: Config, key: ID, x: seq<Setting>, y: seq<Setting>)
    requires multiset(x) == multiset(y) && NoTies(RankIn(c.files), x)
    ensures Chosen(c, key, x) == Chosen(c, key, y)
  {
    SameSettings(RankIn(c.files), x, y);
  }

  lemma {:induction false} SettingsAreDetermined(c: Config, key: ID, x: seq<Setting>)
    requires AreSettings(c, key, x)
    ensures LinesDistinct(c) ==> forall y | AreSettings(c, key, y) :: y == x
  {
    if LinesDistinct(c) {
      var a :| Enumerates(a, c) && x == SettingsVia(c, key, a);
      forall y | AreSettings(c, key, y) ensures y == x {
        var b :| Enumerates(b, c) && y == SettingsVia(c, key, b);
        EnumerationDoesNotMatter(c, key, a, b);
      }
    }
  }

  // ---------------------------------------------------------------- conflicts between directories

  /** The directory a setting was read from; /etc/sysctl.conf is its own. */
  function DirOf(file: ID): ID {
    var i := Text.LastIndexOf(file.name, '/');
    if i > 0 then (if file.name[..i] == "/etc" then file else ID(file.name[..i])) else file
  }

  /** How settings are grouped by directory. */
  type Grouping = ID -> ID

  /** How values are compared. */
  type Reading = ID -> ID

  /** The settings of one directory, in order. */
  function InDir(dirOf: Grouping, s: seq<Setting>, dir: ID): seq<Setting> {
    if s == [] then []
    else
      var n := |s| - 1;
      InDir(dirOf, s[..n], dir) + if dirOf(s[n].file) == dir then [s[n]] else []
  }

  /** The directories, in the order they were first applied. */
  function Dirs(dirOf: Grouping, s: seq<Setting>): seq<ID> {
    if s == [] then []
    else
      var n := |s| - 1;
      var before := Dirs(dirOf, s[..n]);
      if dirOf(s[n].file) in before then before else before + [dirOf(s[n].file)]
  }

  lemma {:induction false} DirsAndSettings(dirOf: Grouping, s: seq<Setting>, dir: ID)
    ensures dir in Dirs(dirOf, s) <==> InDir(dirOf, s, dir) != []
    ensures NoDuplicates(Dirs(dirOf, s))
    ensures forall x | x in InDir(dirOf, s, dir) :: x in s && dirOf(x.file) == dir
    ensures InDir(dirOf, s, dir) != [] && dirOf(s[|s| - 1].file) == dir ==> InDir(dirOf, s, dir)[|InDir(dirOf, s, dir)| - 1] == s[|s| - 1]
  {
    if s != [] {
      var n := |s| - 1;
      DirsAndSettings(dirOf, s[..n], dir);
      assert s == s[..n] + [s[n]];
    }
  }

  /** The setting each directory ends on. */
  ghost predicate AreWinners(dirOf: Grouping, s: seq<Setting>, w: seq<Setting>) {
    && |w| == |Dirs(dirOf, s)|
    && forall i | 0 <= i < |w| :: IsLastOf(dirOf, s, Dirs(dirOf, s)[i], w[i])
  }

  ghost predicate IsLastOf(dirOf: Grouping, s: seq<Setting>, dir: ID, x: Setting) {
    var mine := InDir(dirOf, s, dir);
    mine != [] && x == mine[|mine| - 1]
  }

  ghost predicate AreLast(dirOf: Grouping, s: seq<Setting>, last: map<ID, Setting>) {
    && (forall d :: d in last <==> InDir(dirOf, s, d) != [])
    && forall d | d in last :: IsLastOf(dirOf, s, d, last[d])
  }

  lemma {:induction false} OneMoreSetting(dirOf: Grouping, s: seq<Setting>, last: map<ID, Setting>)
    requires s != [] && AreLast(dirOf, s[..|s| - 1], last)
    ensures var x := s[|s| - 1];
            var dir := dirOf(x.file);
            && AreLast(dirOf, s, last[dir := x])
            && Dirs(dirOf, s) == Dirs(dirOf, s[..|s| - 1]) + if dir in last then [] else [dir]
  {
    var before, x := s[..|s| - 1], s[|s| - 1];
    var dir := dirOf(x.file);
    DirsAndSettings(dirOf, before, dir);
    forall d
      ensures d in last[dir := x] <==> InDir(dirOf, s, d) != []
      ensures d in last[dir := x] ==> IsLastOf(dirOf, s, d, last[dir := x][d])
    {
      InDirStep(dirOf, s, d);
      assert d in last <==> InDir(dirOf, before, d) != [];
      assert d in last ==> IsLastOf(dirOf, before, d, last[d]);
    }
  }

  lemma {:induction false} InDirStep(dirOf: Grouping, s: seq<Setting>, d: ID)
    requires s != []
    ensures InDir(dirOf, s, d) == if dirOf(s[|s| - 1].file) == d then InDir(dirOf, s[..|s| - 1], d) + [s[|s| - 1]] else InDir(dirOf, s[..|s| - 1], d)
  {
    assert InDir(dirOf, s[..|s| - 1], d) + [] == InDir(dirOf, s[..|s| - 1], d);
  }

  lemma {:induction false} OneMoreAt(dirOf: Grouping, all: seq<Setting>, k: nat, last: map<ID, Setting>)
    requires k < |all| && AreLast(dirOf, all[..k], last)
    ensures var dir := dirOf(all[k].file);
            && AreLast(dirOf, all[..k + 1], last[dir := all[k]])
            && Dirs(dirOf, all[..k + 1]) == Dirs(dirOf, all[..k]) + if dir in last then [] else [dir]
  {
    assert all[..k + 1][..k] == all[..k];
    OneMoreSetting(dirOf, all[..k + 1], last);
  }

  method DirectoryWinners(dirOf: Grouping, all: seq<Setting>) returns (out: seq<Setting>)
    ensures AreWinners(dirOf, all, out)
  {
    var order: seq<ID>, last: map<ID, Setting> := [], map[];
    for k := 0 to |all|
      invariant order == Dirs(dirOf, all[..k]) && AreLast(dirOf, all[..k], last)
    {
      var dir := dirOf(all[k].file);
      OneMoreAt(dirOf, all, k, last);
      if dir !in last { order := order + [dir]; }
      last := last[dir := all[k]];
    }
    assert all[..|all|] == all;
    forall d | d in order ensures d in last { DirsAndSettings(dirOf, all, d); }
    out := LastOfEach(dirOf, all, order, last);
  }

  method LastOfEach(dirOf: Grouping, all: seq<Setting>, order: seq<ID>, last: map<ID, Setting>) returns (out: seq<Setting>)
    requires AreLast(dirOf, all, last) && forall d | d in order :: d in last
    ensures |out| == |order| && forall i | 0 <= i < |out| :: IsLastOf(dirOf, all, order[i], out[i])
  {
    out := [];
    for k := 0 to |order|
      invariant |out| == k && forall i | 0 <= i < k :: IsLastOf(dirOf, all, order[i], out[i])
    {
      assert order[k] in order;
      out := out + [last[order[k]]];
    }
  }

  /** Two directories end on different values. */
  ghost predicate Conflicting(trim: Reading, w: seq<Setting>) {
    exists i, j | 0 <= i < |w| && 0 <= j < |w| :: trim(w[i].value) != trim(w[j].value)
  }

  ghost predicate SameEnd(trim: Reading, q: seq<Setting>, r: seq<Setting>) {
    q != [] && r != [] ==> trim(q[|q| - 1].value) == trim(r[|r| - 1].value)
  }

  /** Some directory ends on another trimmed value than the first does. */
  method Disagree(trim: Reading, winners: seq<Setting>) returns (differ: bool)
    ensures differ <==> Conflicting(trim, winners)
  {
    if |winners| < 2 { return false; }
    var first := winners[0].value;
    for k := 1 to |winners|
      invariant forall i | 0 <= i < k :: trim(winners[i].value) == trim(first)
    {
      if trim(winners[k].value) != trim(first) { return true; }
    }
    return false;
  }

  method ConfiguredConflict(c: Config, key: ID) returns (conflict: bool)
    ensures exists all :: AreSettings(c, key, all) && (conflict <==> !OneOutcome(DirOf, Trimmed, all))
    ensures LinesDistinct(c) ==> forall all | AreSettings(c, key, all) :: conflict <==> !OneOutcome(DirOf, Trimmed, all)
  {
    var settings := SettingsFor(c, key);
    SettingsAreDetermined(c, key, settings);
    var winners := DirectoryWinners(DirOf, settings);
    ConflictMeansOutcomesDiffer(DirOf, Trimmed, settings, winners);
    conflict := Disagree(Trimmed, winners);
  }

  /** q applies the settings of p with the order inside each directory kept. */
  ghost predicate Rearranges(dirOf: Grouping, q: seq<Setting>, p: seq<Setting>) {
    multiset(q) == multiset(p) && forall dir :: InDir(dirOf, q, dir) == InDir(dirOf, p, dir)
  }

  /** Every tool that keeps directory order ends on the same trimmed value. */
  ghost predicate OneOutcome(dirOf: Grouping, trim: Reading, p: seq<Setting>) {
    forall q: seq<Setting>, r: seq<Setting> | Rearranges(dirOf, q, p) && Rearranges(dirOf, r, p) :: SameEnd(trim, q, r)
  }

  /** The last setting of a rearrangement is its directory's winner. */
  lemma {:induction false} EndsOnAWinner(dirOf: Grouping, p: seq<Setting>, w: seq<Setting>, q: seq<Setting>) returns (i: nat)
    requires AreWinners(dirOf, p, w) && Rearranges(dirOf, q, p) && q != []
    ensures i < |w| && w[i] == q[|q| - 1]
  {
    var dir := dirOf(q[|q| - 1].file);
    DirsAndSettings(dirOf, q, dir);
    assert InDir(dirOf, q, dir) != [];
    DirsAndSettings(dirOf, p, dir);
    assert InDir(dirOf, p, dir) == InDir(dirOf, q, dir);
    i :| 0 <= i < |Dirs(dirOf, p)| && Dirs(dirOf, p)[i] == dir;
    assert IsLastOf(dirOf, p, dir, w[i]);
  }

  /** The settings of every directory but one, in order. */
  function Outside(dirOf: Grouping, s: seq<Setting>, dir: ID): seq<Setting> {
    if s == [] then []
    else
      var n := |s| - 1;
      Outside(dirOf, s[..n], dir) + if dirOf(s[n].file) != dir then [s[n]] else []
  }

  lemma {:induction false} InDirConcat(dirOf: Grouping, a: seq<Setting>, b: seq<Setting>, dir: ID)
    ensures InDir(dirOf, a + b, dir) == InDir(dirOf, a, dir) + InDir(dirOf, b, dir)
  {
    if b == [] {
      assert a + b == a;
    } else {
      var n := |b| - 1;
      InDirConcat(dirOf, a, b[..n], dir);
      assert (a + b)[..|a| + n] == a + b[..n];
    }
  }

  lemma {:induction false} NothingOfItOutside(dirOf: Grouping, s: seq<Setting>, dir: ID, d: ID)
    ensures InDir(dirOf, Outside(dirOf, s, dir), d) == if d == dir then [] else InDir(dirOf, s, d)
  {
    if s != [] {
      var n := |s| - 1;
      NothingOfItOutside(dirOf, s[..n], dir, d);
      var o := Outside(dirOf, s[..n], dir);
      assert (o + [s[n]])[..|o|] == o && o + [] == o;
      assert InDir(dirOf, s[..n], d) + [] == InDir(dirOf, s[..n], d);
    }
  }

  lemma {:induction false} OnlyItInside(dirOf: Grouping, s: seq<Setting>, dir: ID, d: ID)
    ensures InDir(dirOf, InDir(dirOf, s, dir), d) == if d == dir then InDir(dirOf, s, d) else []
  {
    if s != [] {
      var n := |s| - 1;
      OnlyItInside(dirOf, s[..n], dir, d);
      var o := InDir(dirOf, s[..n], dir);
      assert (o + [s[n]])[..|o|] == o && o + [] == o;
      assert InDir(dirOf, s[..n], d) + [] == InDir(dirOf, s[..n], d);
    }
  }

  lemma {:induction false} OutsideAndInside(dirOf: Grouping, s: seq<Setting>, dir: ID)
    ensures multiset(Outside(dirOf, s, dir)) + multiset(InDir(dirOf, s, dir)) == multiset(s)
  {
    if s != [] {
      var n := |s| - 1;
      OutsideAndInside(dirOf, s[..n], dir);
      assert s == s[..n] + [s[n]];
    }
  }

  lemma {:induction false} MovedLast(dirOf: Grouping, p: seq<Setting>, dir: ID, d: ID)
    ensures InDir(dirOf, Outside(dirOf, p, dir) + InDir(dirOf, p, dir), d) == InDir(dirOf, p, d)
  {
    InDirConcat(dirOf, Outside(dirOf, p, dir), InDir(dirOf, p, dir), d);
    NothingOfItOutside(dirOf, p, dir, d);
    OnlyItInside(dirOf, p, dir, d);
    assert [] + InDir(dirOf, p, d) == InDir(dirOf, p, d) == InDir(dirOf, p, d) + [];
  }

  /** Some tool order ends on any given directory. */
  lemma {:induction false} AnyDirectoryCanBeLast(dirOf: Grouping, p: seq<Setting>, dir: ID) returns (q: seq<Setting>)
    requires InDir(dirOf, p, dir) != []
    ensures Rearranges(dirOf, q, p) && q != [] && q[|q| - 1] == InDir(dirOf, p, dir)[|InDir(dirOf, p, dir)| - 1]
  {
    var a, b := Outside(dirOf, p, dir), InDir(dirOf, p, dir);
    q := a + b;
    forall d ensures InDir(dirOf, q, d) == InDir(dirOf, p, d) { MovedLast(dirOf, p, dir, d); }
    OutsideAndInside(dirOf, p, dir);
    assert multiset(a + b) == multiset(a) + multiset(b);
  }

  lemma {:induction false} ConflictSplits(dirOf: Grouping, trim: Reading, p: seq<Setting>, w: seq<Setting>, i: nat, j: nat)
    requires AreWinners(dirOf, p, w) && i < |w| && j < |w| && trim(w[i].value) != trim(w[j].value)
    ensures !OneOutcome(dirOf, trim, p)
  {
    var q := WinnerCanBeLast(dirOf, p, w, i);
    var r := WinnerCanBeLast(dirOf, p, w, j);
    assert !SameEnd(trim, q, r);
  }

  lemma {:induction false} WinnerCanBeLast(dirOf: Grouping, p: seq<Setting>, w: seq<Setting>, i: nat) returns (q: seq<Setting>)
    requires AreWinners(dirOf, p, w) && i < |w|
    ensures Rearranges(dirOf, q, p) && q != [] && q[|q| - 1] == w[i]
  {
    assert IsLastOf(dirOf, p, Dirs(dirOf, p)[i], w[i]);
    q := AnyDirectoryCanBeLast(dirOf, p, Dirs(dirOf, p)[i]);
  }

  lemma {:induction false} SplitConflicts(dirOf: Grouping, trim: Reading, p: seq<Setting>, w: seq<Setting>, q: seq<Setting>, r: seq<Setting>)
    requires AreWinners(dirOf, p, w) && Rearranges(dirOf, q, p) && Rearranges(dirOf, r, p) && q != [] && r != []
    requires trim(q[|q| - 1].value) != trim(r[|r| - 1].value)
    ensures Conflicting(trim, w)
  {
    var i := EndsOnAWinner(dirOf, p, w, q);
    var j := EndsOnAWinner(dirOf, p, w, r);
  }

  /** A conflict is reported exactly when two orders that agree inside every directory end differently. */
  lemma {:induction false} ConflictMeansOutcomesDiffer(dirOf: Grouping, trim: Reading, p: seq<Setting>, w: seq<Setting>)
    requires AreWinners(dirOf, p, w)
    ensures Conflicting(trim, w) <==> !OneOutcome(dirOf, trim, p)
  {
    if i, j :| 0 <= i < |w| && 0 <= j < |w| && trim(w[i].value) != trim(w[j].value) {
      ConflictSplits(dirOf, trim, p, w, i, j);
    }
    if q: seq<Setting>, r: seq<Setting> :| Rearranges(dirOf, q, p) && Rearranges(dirOf, r, p) && !SameEnd(trim, q, r) {
      SplitConflicts(dirOf, trim, p, w, q, r);
    }
  }
}
