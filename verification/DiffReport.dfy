/** A comparison is reported one way only, byte for byte (internal/diff/diff.go). */
module DiffReport {
  import opened Basics
  import opened Ids
  import opened Findings
  import opened Diff
  import Lex

  /** A fingerprint is computed from check and subject alone. */
  ghost predicate FingerprintsIdentify(fs: seq<Finding>) {
    forall f, g | f in fs && g in fs && f.checkID == g.checkID && f.subject == g.subject :: f.fingerprint == g.fingerprint
  }

  // ---------------------------------------------------------------- no two changes tie

  /** A finding is compared in one way only. */
  lemma {:induction false} SameSideSamePair(om: Index, nm: Index, p: Pair, q: Pair)
    requires PairOk(om, nm, p) && PairOk(om, nm, q)
    requires (p.was.Some? && p.was == q.was) || (p.now.Some? && p.now == q.now)
    ensures p == q
  {
  }

  /** The fingerprint under which a change is named. */
  lemma {:induction false} NamedKey(before: seq<Finding>, after: seq<Finding>, p: Pair, c: Change)
    requires PairOk(IndexOf(before), IndexOf(after), p) && ChangeOf(IndexOf(before), IndexOf(after), p) == Some(c)
    ensures Named(c).Some? && Named(c).value in before + after
    ensures p.now.Some? ==> Named(c).value.fingerprint == p.now.value
    ensures p.now.None? ==> p.was.Some? && Named(c).value.fingerprint == p.was.value
  {
    IndexIsKeyed(before);
    IndexIsKeyed(after);
    assert forall f :: f in before + after <==> f in before || f in after;
  }

  lemma {:induction false} OneNameOneChange(before: seq<Finding>, after: seq<Finding>, p: Pair, c: Change, q: Pair, d: Change)
    requires PairOk(IndexOf(before), IndexOf(after), p) && ChangeOf(IndexOf(before), IndexOf(after), p) == Some(c)
    requires PairOk(IndexOf(before), IndexOf(after), q) && ChangeOf(IndexOf(before), IndexOf(after), q) == Some(d)
    requires Named(c).Some? && Named(d).Some? && Named(c).value.fingerprint == Named(d).value.fingerprint
    ensures c == d
  {
    NamedKey(before, after, p, c);
    NamedKey(before, after, q, d);
    if p.now.Some? == q.now.Some? { SameSideSamePair(IndexOf(before), IndexOf(after), p, q); }
  }

  /** Changes that each may come before the other are one change. */
  lemma {:induction false} TiesAreEqual(c: Change, d: Change)
    requires ReportOrder(c, d) && ReportOrder(d, c)
    ensures CheckIDOf(c) == CheckIDOf(d) && SubjectOf(c) == SubjectOf(d)
  {
    if RankOf(c) != RankOf(d) { Lex.LeqAntisymmetric(RankOf(c), RankOf(d)); }
    if CheckIDOf(c) != CheckIDOf(d) { Lex.LeqAntisymmetric(CheckIDOf(c), CheckIDOf(d)); }
    Lex.LeqAntisymmetric(SubjectOf(c), SubjectOf(d));
  }

  /** The pair a change comes from. */
  lemma {:induction false} PairOf(before: seq<Finding>, after: seq<Finding>, changes: seq<Change>, c: Change) returns (p: Pair)
    requires IsComparison(before, after, changes) && c in changes
    ensures PairOk(IndexOf(before), IndexOf(after), p) && ChangeOf(IndexOf(before), IndexOf(after), p) == Some(c)
  {
    var om, nm := IndexOf(before), IndexOf(after);
    var pairs :| Matched(om, nm, pairs) && changes == Ordered(Moved(om, nm, pairs));
    OrderedKeepsAll(Moved(om, nm, pairs));
    assert c in multiset(changes);
    MovedMembers(om, nm, pairs, c);
    p :| p in pairs && ChangeOf(om, nm, p) == Some(c);
  }

  lemma {:induction false} NoTwoTie(before: seq<Finding>, after: seq<Finding>, changes: seq<Change>, c: Change, d: Change)
    requires FingerprintsIdentify(before + after) && IsComparison(before, after, changes) && c in changes && d in changes
    requires ReportOrder(c, d) && ReportOrder(d, c)
    ensures c == d
  {
    var p := PairOf(before, after, changes, c);
    var q := PairOf(before, after, changes, d);
    NamedKey(before, after, p, c);
    NamedKey(before, after, q, d);
    TiesAreEqual(c, d);
    OneNameOneChange(before, after, p, c, q, d);
  }

  // ---------------------------------------------------------------- one sequence

  lemma {:induction false} CountsTwice<T>(s: seq<T>, p: T -> bool, i: nat, j: nat)
    requires i < j < |s| && p(s[i]) && p(s[j])
    ensures CountIf(s, p) >= 2
  {
    var n := |s| - 1;
    if j == n { CountsOnce(s[..n], p, i); } else { CountsTwice(s[..n], p, i, j); }
  }

  lemma {:induction false} CountsOnce<T>(s: seq<T>, p: T -> bool, i: nat)
    requires i < |s| && p(s[i])
    ensures CountIf(s, p) >= 1
  {
    if i < |s| - 1 { CountsOnce(s[..|s| - 1], p, i); }
  }

  lemma {:induction false} NoChangeTwice(before: seq<Finding>, after: seq<Finding>, changes: seq<Change>)
    requires IsComparison(before, after, changes)
    ensures NoDuplicates(changes)
  {
    forall i, j | 0 <= i < j < |changes| ensures changes[i] != changes[j] {
      if changes[i] == changes[j] {
        var k := NamedSomewhere(before, after, changes, changes[i]);
        OneChangeEach(before, after, changes, k);
        if NewSideIs(changes[i], k) {
          CountsTwice(changes, c => NewSideIs(c, k), i, j);
        } else {
          CountsTwice(changes, c => OldSideIs(c, k), i, j);
        }
      }
    }
  }

  lemma {:induction false} NamedSomewhere(before: seq<Finding>, after: seq<Finding>, changes: seq<Change>, c: Change) returns (k: ID)
    requires IsComparison(before, after, changes) && c in changes
    ensures NewSideIs(c, k) || OldSideIs(c, k)
  {
    var p := PairOf(before, after, changes, c);
    NamedKey(before, after, p, c);
    k := Named(c).value.fingerprint;
  }

  /** Distinct elements in an order without ties can be listed one way only. */
  lemma {:induction false} OneListing<T>(x: seq<T>, y: seq<T>, rel: (T, T) -> bool)
    requires NoDuplicates(x) && NoDuplicates(y) && Lex.Pairwise(x, rel) && Lex.Pairwise(y, rel)
    requires multiset(x) == multiset(y)
    requires NoTies(x, rel)
    ensures x == y
    decreases |x|
  {
    assert |x| == |multiset(x)| && |y| == |multiset(y)|;
    if x != [] {
      SameFirst(x, y, rel);
      TailOf(x, rel);
      TailOf(y, rel);
      OneListing(x[1..], y[1..], rel);
    }
  }

  lemma {:induction false} TailOf<T>(x: seq<T>, rel: (T, T) -> bool)
    requires x != [] && NoDuplicates(x) && Lex.Pairwise(x, rel)
    ensures x == [x[0]] + x[1..] && multiset(x[1..]) == multiset(x) - multiset{x[0]}
    ensures NoDuplicates(x[1..]) && Lex.Pairwise(x[1..], rel)
    ensures NoTies(x, rel) ==> NoTies(x[1..], rel)
  {
    assert x == [x[0]] + x[1..];
    if NoTies(x, rel) {
      forall i, j | 0 <= i < |x| - 1 && 0 <= j < |x| - 1 && rel(x[1..][i], x[1..][j]) && rel(x[1..][j], x[1..][i]) ensures x[1..][i] == x[1..][j] {
        assert rel(x[i + 1], x[j + 1]) && rel(x[j + 1], x[i + 1]);
      }
    }
  }

  /** Elements that each may come before the other are equal. */
  ghost predicate NoTies<T>(x: seq<T>, rel: (T, T) -> bool) {
    forall i, j | 0 <= i < |x| && 0 <= j < |x| && rel(x[i], x[j]) && rel(x[j], x[i]) :: x[i] == x[j]
  }

  lemma {:induction false} SameFirst<T>(x: seq<T>, y: seq<T>, rel: (T, T) -> bool)
    requires x != [] && y != [] && Lex.Pairwise(x, rel) && Lex.Pairwise(y, rel) && multiset(x) == multiset(y)
    requires NoTies(x, rel)
    ensures x[0] == y[0]
  {
    assert x[0] in multiset(y) && y[0] in multiset(x);
    var i :| 0 <= i < |x| && x[i] == y[0];
    var j :| 0 <= j < |y| && y[j] == x[0];
    if i > 0 && j > 0 { assert rel(x[0], x[i]) && rel(y[0], y[j]); }
  }

  /** Two comparisons of the same runs are the same sequence of changes. */
  lemma {:induction false} ReportsAreIdentical(before: seq<Finding>, after: seq<Finding>, x: seq<Change>, y: seq<Change>)
    requires FingerprintsIdentify(before + after) && IsComparison(before, after, x) && IsComparison(before, after, y)
    ensures x == y
  {
    ChangesAreDetermined(before, after, x, y);
    NoChangeTwice(before, after, x);
    NoChangeTwice(before, after, y);
    SameMembersSameBag(x, y);
    InReportOrder(before, after, x);
    InReportOrder(before, after, y);
    forall i, j | 0 <= i < |x| && 0 <= j < |x| && ReportOrder(x[i], x[j]) && ReportOrder(x[j], x[i]) ensures x[i] == x[j] {
      NoTwoTie(before, after, x, x[i], x[j]);
    }
    OneListing(x, y, ReportOrder);
  }

  lemma {:induction false} InReportOrder(before: seq<Finding>, after: seq<Finding>, x: seq<Change>)
    requires IsComparison(before, after, x)
    ensures Lex.Pairwise(x, ReportOrder)
  {
    var pairs :| Matched(IndexOf(before), IndexOf(after), pairs) && x == Ordered(Moved(IndexOf(before), IndexOf(after), pairs));
    ReportIsOrdered(Moved(IndexOf(before), IndexOf(after), pairs));
  }

  lemma {:induction false} SameMembersSameBag<T>(x: seq<T>, y: seq<T>)
    requires NoDuplicates(x) && NoDuplicates(y) && forall c :: c in x <==> c in y
    ensures multiset(x) == multiset(y)
  {
    forall c ensures multiset(x)[c] == multiset(y)[c] {
      OnceEach(x, c);
      OnceEach(y, c);
      assert c in x <==> c in multiset(x);
      assert c in y <==> c in multiset(y);
    }
  }
}
