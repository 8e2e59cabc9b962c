/** Exactly when the order in which Go enumerates a map shows in SettingsFor (internal/fact/kernel.go). */
module SysctlTies {
  import opened Basics
  import opened Ids
  import opened Sysctl
  import Lex

  // ---------------------------------------------------------------- the sort leaves ties alone

  /** One file position and one line. */
  predicate Tied(rank: Rank, a: Setting, b: Setting) { rank(a.file) == rank(b.file) && a.line == b.line }

  /** The settings that tie with x, in order. */
  function TiedWith(rank: Rank, x: Setting, s: seq<Setting>): seq<Setting> {
    if s == [] then [] else One(rank, x, s[0]) + TiedWith(rank, x, s[1..])
  }

  function One(rank: Rank, x: Setting, y: Setting): seq<Setting> { if Tied(rank, x, y) then [y] else [] }

  lemma {:induction false} TiedCons(rank: Rank, x: Setting, y: Setting, s: seq<Setting>)
    ensures TiedWith(rank, x, [y] + s) == One(rank, x, y) + TiedWith(rank, x, s)
  {
    assert ([y] + s)[1..] == s;
  }

  lemma {:induction false} TiedConcat(rank: Rank, x: Setting, a: seq<Setting>, b: seq<Setting>)
    ensures TiedWith(rank, x, a + b) == TiedWith(rank, x, a) + TiedWith(rank, x, b)
  {
    if a == [] {
      assert a + b == b;
    } else {
      assert a == [a[0]] + a[1..] && a + b == [a[0]] + (a[1..] + b);
      TiedConcat(rank, x, a[1..], b);
      TiedCons(rank, x, a[0], a[1..] + b);
      Regroup(One(rank, x, a[0]), TiedWith(rank, x, a[1..]), TiedWith(rank, x, b));
    }
  }

  lemma {:induction false} TiedMembers(rank: Rank, x: Setting, s: seq<Setting>, y: Setting)
    ensures y in TiedWith(rank, x, s) <==> y in s && Tied(rank, x, y)
  {
    if s != [] {
      TiedMembers(rank, x, s[1..], y);
      assert y in s <==> y == s[0] || y in s[1..];
    }
  }

  lemma {:induction false} InsertKeepsTies(rank: Rank, x: Setting, y: Setting, s: seq<Setting>)
    requires InOrder(rank, s)
    ensures TiedWith(rank, x, Insert(rank, y, s)) == One(rank, x, y) + TiedWith(rank, x, s)
  {
    if s == [] || AppliedBefore(rank, y, s[0]) {
      assert [y] + [] == [y];
      TiedCons(rank, x, y, s);
    } else {
      InsertKeepsTies(rank, x, y, s[1..]);
      TiedCons(rank, x, s[0], Insert(rank, y, s[1..]));
    }
  }

  /** Sorting keeps the order of settings that tie. */
  lemma {:induction false} SortedKeepsTies(rank: Rank, x: Setting, s: seq<Setting>)
    ensures TiedWith(rank, x, Sorted(rank, s)) == TiedWith(rank, x, s)
  {
    if s != [] {
      SortedKeepsTies(rank, x, s[1..]);
      InsertKeepsTies(rank, x, s[0], Sorted(rank, s[1..]));
    }
  }

  lemma {:induction false} HeadTies(rank: Rank, s: seq<Setting>)
    requires s != []
    ensures TiedWith(rank, s[0], s) != [] && TiedWith(rank, s[0], s)[0] == s[0]
  {
  }

  /** Two sorted lists with the same ties begin alike. */
  lemma {:induction false} SameFirst(rank: Rank, a: seq<Setting>, b: seq<Setting>)
    requires InOrder(rank, a) && InOrder(rank, b) && a != [] && b != []
    requires forall x :: TiedWith(rank, x, a) == TiedWith(rank, x, b)
    ensures a[0] == b[0]
  {
    HeadTies(rank, a);
    HeadTies(rank, b);
    TiedMembers(rank, a[0], b, a[0]);
    TiedMembers(rank, b[0], a, b[0]);
    assert a[0] in TiedWith(rank, a[0], a) && b[0] in TiedWith(rank, b[0], b);
    var i :| 0 <= i < |b| && b[i] == a[0];
    var j :| 0 <= j < |a| && a[j] == b[0];
    assert Tied(rank, a[0], b[0]);
  }

  lemma {:induction false} TailTies(rank: Rank, a: seq<Setting>, b: seq<Setting>)
    requires a != [] && b != [] && a[0] == b[0]
    requires forall x :: TiedWith(rank, x, a) == TiedWith(rank, x, b)
    ensures forall x :: TiedWith(rank, x, a[1..]) == TiedWith(rank, x, b[1..])
  {
    forall x ensures TiedWith(rank, x, a[1..]) == TiedWith(rank, x, b[1..]) {
      assert TiedWith(rank, x, a) == TiedWith(rank, x, b);
      SameRest(One(rank, x, a[0]), TiedWith(rank, x, a[1..]), TiedWith(rank, x, b[1..]));
    }
  }

  lemma {:induction false} SameRest<T>(p: seq<T>, a: seq<T>, b: seq<T>)
    requires p + a == p + b
    ensures a == b
  {
    assert (p + a)[|p|..] == a && (p + b)[|p|..] == b;
  }

  /** A sorted list is decided by the order within each tie. */
  lemma {:induction false} TiesDecide(rank: Rank, a: seq<Setting>, b: seq<Setting>)
    requires InOrder(rank, a) && InOrder(rank, b) && forall x :: TiedWith(rank, x, a) == TiedWith(rank, x, b)
    ensures a == b
    decreases |a|
  {
    if a == [] {
      if b != [] { HeadTies(rank, b); }
    } else if b == [] {
      HeadTies(rank, a);
    } else {
      SameFirst(rank, a, b);
      TailTies(rank, a, b);
      TiesDecide(rank, a[1..], b[1..]);
      assert a == [a[0]] + a[1..] && b == [b[0]] + b[1..];
    }
  }

  // ---------------------------------------------------------------- what each pattern contributes to a tie

  /** No two settings of different matching patterns have one file position and one line. */
  ghost predicate NoCrossTies(c: Config, key: ID) {
    forall p, q, s, t | s in Of(c, key, p) && t in Of(c, key, q) && Tied(RankIn(c.files), s, t) :: p == q
  }

  lemma {:induction false} NothingContributed(c: Config, key: ID, patterns: seq<ID>, x: Setting)
    requires forall p | p in patterns :: TiedWith(RankIn(c.files), x, Of(c, key, p)) == []
    ensures TiedWith(RankIn(c.files), x, Gathered(c, key, patterns)) == []
  {
    if patterns != [] {
      var n := |patterns| - 1;
      assert patterns[n] in patterns;
      NothingContributed(c, key, patterns[..n], x);
      TiedConcat(RankIn(c.files), x, Gathered(c, key, patterns[..n]), Of(c, key, patterns[n]));
    }
  }

  lemma {:induction false} OthersContributeNothing(c: Config, key: ID, x: Setting, p: ID, q: ID)
    requires NoCrossTies(c, key) && p != q && TiedWith(RankIn(c.files), x, Of(c, key, p)) != []
    ensures TiedWith(RankIn(c.files), x, Of(c, key, q)) == []
  {
    var rank := RankIn(c.files);
    var a, b := TiedWith(rank, x, Of(c, key, p)), TiedWith(rank, x, Of(c, key, q));
    assert a[0] in a;
    TiedMembers(rank, x, Of(c, key, p), a[0]);
    forall t ensures t !in b {
      TiedMembers(rank, x, Of(c, key, q), t);
      assert Tied(rank, x, t) ==> Tied(rank, a[0], t);
    }
    Lex.NonemptyHasMember(b);
  }

  lemma {:induction false} OneContributes(c: Config, key: ID, patterns: seq<ID>, x: Setting, p: ID)
    requires NoCrossTies(c, key) && NoDuplicates(patterns) && p in patterns && TiedWith(RankIn(c.files), x, Of(c, key, p)) != []
    ensures TiedWith(RankIn(c.files), x, Gathered(c, key, patterns)) == TiedWith(RankIn(c.files), x, Of(c, key, p))
  {
    var rank, n := RankIn(c.files), |patterns| - 1;
    var front, last := patterns[..n], patterns[n];
    assert patterns == front + [last];
    TiedConcat(rank, x, Gathered(c, key, front), Of(c, key, last));
    if last == p {
      forall q | q in front ensures TiedWith(rank, x, Of(c, key, q)) == [] { OthersContributeNothing(c, key, x, p, q); }
      NothingContributed(c, key, front, x);
    } else {
      OneContributes(c, key, front, x, p);
      OthersContributeNothing(c, key, x, p, last);
      NothingAdded(TiedWith(rank, x, Of(c, key, p)));
    }
  }

  lemma {:induction false} SameContribution(c: Config, key: ID, a: seq<ID>, b: seq<ID>, x: Setting)
    requires NoCrossTies(c, key) && Enumerates(a, c) && Enumerates(b, c)
    ensures TiedWith(RankIn(c.files), x, Gathered(c, key, a)) == TiedWith(RankIn(c.files), x, Gathered(c, key, b))
  {
    assert forall p :: p in a <==> p in Members(a);
    assert forall p :: p in b <==> p in Members(b);
    if p :| p in a && TiedWith(RankIn(c.files), x, Of(c, key, p)) != [] {
      OneContributes(c, key, a, x, p);
      OneContributes(c, key, b, x, p);
    } else {
      NothingContributed(c, key, a, x);
      NothingContributed(c, key, b, x);
    }
  }

  /** Without cross ties every enumeration gives the same settings. */
  lemma {:induction false} NoCrossTiesAgree(c: Config, key: ID, a: seq<ID>, b: seq<ID>)
    requires NoCrossTies(c, key) && Enumerates(a, c) && Enumerates(b, c)
    ensures SettingsVia(c, key, a) == SettingsVia(c, key, b)
  {
    SameBag(c, key, a, b);
    forall x ensures TiedWith(RankIn(c.files), x, Gathered(c, key, a)) == TiedWith(RankIn(c.files), x, Gathered(c, key, b)) {
      SameContribution(c, key, a, b, x);
    }
    ChosenAlike(c, key, Gathered(c, key, a), Gathered(c, key, b));
  }

  lemma {:induction false} ChosenAlike(c: Config, key: ID, x: seq<Setting>, y: seq<Setting>)
    requires multiset(x) == multiset(y) && forall z :: TiedWith(RankIn(c.files), z, x) == TiedWith(RankIn(c.files), z, y)
    ensures Chosen(c, key, x) == Chosen(c, key, y)
  {
    SameSize(x, y);
    SortedAlike(RankIn(c.files), x, y);
  }

  lemma {:induction false} SortedAlike(rank: Rank, x: seq<Setting>, y: seq<Setting>)
    requires forall z :: TiedWith(rank, z, x) == TiedWith(rank, z, y)
    ensures Sorted(rank, x) == Sorted(rank, y)
  {
    forall z ensures TiedWith(rank, z, Sorted(rank, x)) == TiedWith(rank, z, Sorted(rank, y)) {
      assert TiedWith(rank, z, x) == TiedWith(rank, z, y);
      SortedKeepsTies(rank, z, x);
      SortedKeepsTies(rank, z, y);
    }
    TiesDecide(rank, Sorted(rank, x), Sorted(rank, y));
  }

  lemma {:induction false} SameSize<T>(x: seq<T>, y: seq<T>)
    requires multiset(x) == multiset(y)
    ensures |x| == |y| && (|x| < 2 ==> x == y)
  {
    assert |x| == |multiset(x)| && |y| == |multiset(y)|;
    if |x| == 1 { assert x[0] in multiset(y); }
  }

  // ---------------------------------------------------------------- a cross tie shows

  /** Settings are filed under their own key. */
  ghost predicate OwnKeys(c: Config) {
    forall p, s | p in c.configured && s in c.configured[p] :: s.key == p
  }

  /** What ties with a setting of the pattern listed first begins with a setting of that pattern. */
  lemma {:induction false} FirstPatternLeads(c: Config, key: ID, p: ID, q: ID, rest: seq<ID>, s: Setting)
    requires OwnKeys(c) && s in Of(c, key, p)
    ensures var tied := TiedWith(RankIn(c.files), s, Gathered(c, key, [p, q] + rest)); tied != [] && tied[0].key == p
  {
    var rank := RankIn(c.files);
    var mine := TiedWith(rank, s, Of(c, key, p));
    GatheredConcat(c, key, [p, q], rest);
    GatheredConcat(c, key, [p], [q]);
    assert [p] + [q] == [p, q];
    OnePattern(c, key, p);
    TiedConcat(rank, s, Gathered(c, key, [p, q]), Gathered(c, key, rest));
    TiedConcat(rank, s, Of(c, key, p), Gathered(c, key, [q]));
    TiedMembers(rank, s, Of(c, key, p), s);
    TiedMembers(rank, s, Of(c, key, p), mine[0]);
  }

  lemma {:induction false} TiesTransfer(rank: Rank, s: Setting, t: Setting, all: seq<Setting>)
    requires Tied(rank, s, t)
    ensures TiedWith(rank, s, all) == TiedWith(rank, t, all)
  {
    if all != [] { TiesTransfer(rank, s, t, all[1..]); }
  }

  lemma {:induction false} AtLeastTwo(c: Config, key: ID, p: ID, q: ID, rest: seq<ID>)
    requires Of(c, key, p) != [] && Of(c, key, q) != []
    ensures |Gathered(c, key, [p, q] + rest)| >= 2
  {
    GatheredConcat(c, key, [p, q], rest);
    GatheredConcat(c, key, [p], [q]);
    assert [p] + [q] == [p, q];
    OnePattern(c, key, p);
    OnePattern(c, key, q);
  }

  lemma {:induction false} TwoFirst(c: Config, p: ID, q: ID) returns (rest: seq<ID>)
    requires p in c.configured && q in c.configured && p != q
    ensures Enumerates([p, q] + rest, c) && Enumerates([q, p] + rest, c)
  {
    rest := AnyOrder(c.configured.Keys - {p, q});
    assert forall x :: x in rest <==> x in Members(rest);
    EachOnce(p, q, rest, c.configured.Keys);
    EachOnce(q, p, rest, c.configured.Keys);
  }

  lemma {:induction false} EachOnce(p: ID, q: ID, rest: seq<ID>, keys: set<ID>)
    requires p != q && p in keys && q in keys && NoDuplicates(rest) && forall x :: x in rest <==> x in keys && x != p && x != q
    ensures NoDuplicates([p, q] + rest) && Members([p, q] + rest) == keys
  {
    var all := [p, q] + rest;
    forall i, j | 0 <= i < j < |all| ensures all[i] != all[j] {
      if j >= 2 { assert all[j] == rest[j - 2] && rest[j - 2] in rest; }
    }
    assert all[0] == p && all[1] == q;
    forall x ensures x in all <==> x in keys { assert x in all <==> x == p || x == q || x in rest; }
  }

  /** Two settings of different patterns that tie come out in either order: two enumerations that differ. */
  lemma {:induction false} TiesDependOnEnumeration(c: Config, key: ID, p: ID, q: ID, s: Setting, t: Setting) returns (a: seq<ID>, b: seq<ID>)
    requires OwnKeys(c) && !NamedLiterally(c, key) && !Withheld(c, key) && p != q
    requires s in Of(c, key, p) && t in Of(c, key, q) && Tied(RankIn(c.files), s, t)
    ensures Enumerates(a, c) && Enumerates(b, c) && SettingsVia(c, key, a) != SettingsVia(c, key, b)
  {
    var rank := RankIn(c.files);
    var rest := TwoFirst(c, p, q);
    a, b := [p, q] + rest, [q, p] + rest;
    var x, y := Gathered(c, key, a), Gathered(c, key, b);
    FirstPatternLeads(c, key, p, q, rest, s);
    FirstPatternLeads(c, key, q, p, rest, t);
    TiesTransfer(rank, s, t, y);
    AtLeastTwo(c, key, p, q, rest);
    AtLeastTwo(c, key, q, p, rest);
    SortedKeepsTies(rank, s, x);
    SortedKeepsTies(rank, s, y);
  }

  /** Every enumeration of the map gives the same settings exactly when no cross tie can show. */
  lemma {:induction false} SettingsAgreeExactlyWhen(c: Config, key: ID)
    requires OwnKeys(c)
    ensures (forall x, y | AreSettings(c, key, x) && AreSettings(c, key, y) :: x == y) <==>
              NamedLiterally(c, key) || Withheld(c, key) || NoCrossTies(c, key)
  {
    if NamedLiterally(c, key) || Withheld(c, key) {
    } else if NoCrossTies(c, key) {
      forall x, y | AreSettings(c, key, x) && AreSettings(c, key, y) ensures x == y {
        var a :| Enumerates(a, c) && x == SettingsVia(c, key, a);
        var b :| Enumerates(b, c) && y == SettingsVia(c, key, b);
        NoCrossTiesAgree(c, key, a, b);
      }
    } else {
      var p, q, s, t :| s in Of(c, key, p) && t in Of(c, key, q) && Tied(RankIn(c.files), s, t) && p != q;
      var a, b := TiesDependOnEnumeration(c, key, p, q, s, t);
      assert AreSettings(c, key, SettingsVia(c, key, a)) && AreSettings(c, key, SettingsVia(c, key, b));
    }
  }

  /** Distinct lines of listed files are one way to have no cross ties. */
  lemma {:induction false} DistinctLinesNeverTie(c: Config, key: ID)
    requires OwnKeys(c) && LinesDistinct(c)
    ensures NoCrossTies(c, key)
  {
    forall p, q, s, t | s in Of(c, key, p) && t in Of(c, key, q) && Tied(RankIn(c.files), s, t) ensures p == q {
      assert s.file in c.files && t.file in c.files;
      assert c.files[Position(c.files, s.file)] == s.file && c.files[Position(c.files, t.file)] == t.file;
    }
  }
}
