/** Comparing two sets of findings (internal/diff/diff.go). */
module Diff {
  import opened Basics
  import opened Ids
  import opened Findings
  import Lex

  datatype Category = NewFailure | Regressed | VerdictChanged | NewlySuppressed | Resolved

  /** A finding on one side, or its absence. */
  type Side = Option<Finding>

  datatype Change = Change(category: Category, was: Side, now: Side)

  // ---------------------------------------------------------------- classification

  predicate IsSuppressed(s: Side) { s.Some? && s.value.suppression.Some? }

  /** The verdict the check reached, seeing through a suppression. */
  function Underlying(s: Side): Option<Verdict> {
    if s.None? then None
    else if s.value.suppression.Some? then Some(s.value.suppression.value.original)
    else Some(s.value.result)
  }

  predicate Failing(s: Side) { Underlying(s).Some? && IsOpen(Underlying(s).value) }

  /** The order of the cases is what makes an expired acceptance a regression and not a new failure. */
  function Classify(was: Side, now: Side): Option<Category> {
    if IsSuppressed(was) && !IsSuppressed(now) && Failing(now) then Some(Regressed)
    else if !IsSuppressed(was) && IsSuppressed(now) then Some(NewlySuppressed)
    else if Failing(was) && !Failing(now) then Some(Resolved)
    else if !Failing(was) && Failing(now) then Some(NewFailure)
    else if Failing(was) && Failing(now) && Underlying(was) != Underlying(now) then Some(VerdictChanged)
    else None
  }

  // ---------------------------------------------------------------- the join

  type Index = map<ID, Finding>

  /** Findings by fingerprint; the last of several with one fingerprint stands. */
  function IndexOf(fs: seq<Finding>): Index {
    if fs == [] then map[] else IndexOf(fs[..|fs| - 1])[fs[|fs| - 1].fingerprint := fs[|fs| - 1]]
  }

  /** The last of a side's findings with fingerprint k is at i. */
  ghost predicate LastAt(fs: seq<Finding>, k: ID, i: nat) {
    i < |fs| && fs[i].fingerprint == k && forall j | i < j < |fs| :: fs[j].fingerprint != k
  }

  /** A side's index holds, of every fingerprint met on it, the last finding, and nothing else. */
  lemma {:induction false} LastStands(fs: seq<Finding>, k: ID)
    ensures if k in IndexOf(fs) then exists i: nat :: LastAt(fs, k, i) && IndexOf(fs)[k] == fs[i]
            else forall i: nat | i < |fs| :: fs[i].fingerprint != k
  {
    if fs != [] {
      var n := |fs| - 1;
      LastStands(fs[..n], k);
      assert forall i | 0 <= i < n :: fs[..n][i] == fs[i];
      if fs[n].fingerprint == k {
        assert LastAt(fs, k, n);
      } else if k in IndexOf(fs[..n]) {
        var i: nat :| LastAt(fs[..n], k, i) && IndexOf(fs[..n])[k] == fs[..n][i];
        assert LastAt(fs, k, i);
      }
    }
  }

  /** Which fingerprint of the old side is compared with which of the new. */
  datatype Pair = Pair(was: Option<ID>, now: Option<ID>)

  function At(m: Index, k: Option<ID>): Side {
    if k.Some? && k.value in m then Some(m[k.value]) else None
  }

  function WasKeys(pairs: seq<Pair>): seq<ID> {
    if pairs == [] then []
    else WasKeys(pairs[..|pairs| - 1]) + if pairs[|pairs| - 1].was.Some? then [pairs[|pairs| - 1].was.value] else []
  }

  function NowKeys(pairs: seq<Pair>): seq<ID> {
    if pairs == [] then []
    else NowKeys(pairs[..|pairs| - 1]) + if pairs[|pairs| - 1].now.Some? then [pairs[|pairs| - 1].now.value] else []
  }

  /** keys lists each member of the set once. */
  ghost predicate Covers(keys: seq<ID>, members: set<ID>) {
    NoDuplicates(keys) && Members(keys) == members
  }

  /** Every finding of either side stands in exactly one pair. */
  ghost predicate Joined(om: Index, nm: Index, pairs: seq<Pair>) {
    Covers(WasKeys(pairs), om.Keys) && Covers(NowKeys(pairs), nm.Keys)
  }

  /** k is the only finding of its check that m has and other lacks. */
  ghost predicate Loner(m: Index, other: Index, k: ID) {
    k in m && k !in other && forall x | x in m && x !in other && m[x].checkID == m[k].checkID :: x == k
  }

  /** The one leftover of a check on each side: the same check under another subject. */
  ghost predicate Drifted(om: Index, nm: Index, o: ID, n: ID) {
    Loner(om, nm, o) && Loner(nm, om, n) && om[o].checkID == nm[n].checkID
  }

  /** Sides are compared under one fingerprint, or as drifted, and stand alone only where neither is possible. */
  ghost predicate PairOk(om: Index, nm: Index, p: Pair) {
    match p
    case Pair(Some(o), Some(n)) => (o == n && o in om && n in nm) || Drifted(om, nm, o, n)
    case Pair(Some(o), None) => o in om && o !in nm && forall n :: !Drifted(om, nm, o, n)
    case Pair(None, Some(n)) => n in nm && n !in om && forall o :: !Drifted(om, nm, o, n)
    case Pair(None, None) => false
  }

  lemma {:induction false} KeysConcat(a: seq<Pair>, b: seq<Pair>)
    ensures WasKeys(a + b) == WasKeys(a) + WasKeys(b) && NowKeys(a + b) == NowKeys(a) + NowKeys(b)
  {
    if b == [] {
      NothingAdded(a);
      NothingAdded(WasKeys(a));
      NothingAdded(NowKeys(a));
    } else {
      var n := |b| - 1;
      KeysConcat(a, b[..n]);
      assert (a + b)[..|a| + n] == a + b[..n] && (a + b)[|a| + n] == b[n];
      Regroup(WasKeys(a), WasKeys(b[..n]), if b[n].was.Some? then [b[n].was.value] else []);
      Regroup(NowKeys(a), NowKeys(b[..n]), if b[n].now.Some? then [b[n].now.value] else []);
    }
  }

  lemma {:induction false} KeysOne(p: Pair)
    ensures WasKeys([p]) == (if p.was.Some? then [p.was.value] else []) && NowKeys([p]) == (if p.now.Some? then [p.now.value] else [])
  {
    assert [p][..0] == [];
  }

  lemma {:induction false} CoversConcat(a: seq<ID>, x: set<ID>, b: seq<ID>, y: set<ID>)
    requires Covers(a, x) && Covers(b, y) && x !! y
    ensures Covers(a + b, x + y)
  {
    assert forall k | k in a :: k in x;
    assert forall k | k in b :: k in y;
    forall i, j | 0 <= i < j < |a + b| ensures (a + b)[i] != (a + b)[j] {
      if i < |a| <= j { assert a[i] in a && b[j - |a|] in b; }
    }
  }

  lemma {:induction false} CoversSnoc(a: seq<ID>, x: set<ID>, k: ID)
    requires Covers(a, x) && k !in x
    ensures Covers(a + [k], x + {k})
  {
    assert Covers([k], {k});
    CoversConcat(a, x, [k], {k});
  }

  lemma {:induction false} OneMoreCommon(pairs: seq<Pair>, oldOnly: seq<ID>, before: set<ID>, other: set<ID>, fp: ID)
    requires fp !in before && NowKeys(pairs) == WasKeys(pairs)
    requires Covers(WasKeys(pairs), before * other) && Covers(oldOnly, before - other)
    ensures var more := if fp in other then pairs + [Pair(Some(fp), Some(fp))] else pairs;
            && NowKeys(more) == WasKeys(more) && Covers(WasKeys(more), (before + {fp}) * other)
            && Covers(if fp in other then oldOnly else oldOnly + [fp], (before + {fp}) - other)
  {
    if fp in other {
      var p := Pair(Some(fp), Some(fp));
      KeysConcat(pairs, [p]);
      KeysOne(p);
      CoversSnoc(WasKeys(pairs), before * other, fp);
      assert (before + {fp}) * other == before * other + {fp};
      assert (before + {fp}) - other == before - other;
    } else {
      CoversSnoc(oldOnly, before - other, fp);
      assert (before + {fp}) - other == before - other + {fp};
      assert (before + {fp}) * other == before * other;
    }
  }

  /** Pass one: fingerprints present on both sides, and what is left of each. */
  method Join(om: Index, nm: Index) returns (pairs: seq<Pair>, oldOnly: seq<ID>, newOnly: seq<ID>)
    ensures forall p | p in pairs :: PairOk(om, nm, p)
    ensures Covers(WasKeys(pairs), om.Keys * nm.Keys) && Covers(NowKeys(pairs), om.Keys * nm.Keys)
    ensures Covers(oldOnly, om.Keys - nm.Keys) && Covers(newOnly, nm.Keys - om.Keys)
  {
    pairs, oldOnly, newOnly := [], [], [];
    var oldKeys := SortedKeys(om.Keys);
    for k := 0 to |oldKeys|
      invariant forall p | p in pairs :: PairOk(om, nm, p)
      invariant Covers(WasKeys(pairs), Members(oldKeys[..k]) * nm.Keys) && NowKeys(pairs) == WasKeys(pairs)
      invariant Covers(oldOnly, Members(oldKeys[..k]) - nm.Keys)
    {
      var fp := oldKeys[k];
      MembersStep(oldKeys, k);
      assert fp in oldKeys;
      OneMoreCommon(pairs, oldOnly, Members(oldKeys[..k]), nm.Keys, fp);
      if fp in nm {
        pairs := pairs + [Pair(Some(fp), Some(fp))];
      } else {
        oldOnly := oldOnly + [fp];
      }
    }
    assert oldKeys[..|oldKeys|] == oldKeys && Members(oldKeys) == om.Keys;
    newOnly := LeftOver(nm, om);
  }

  /** The fingerprints of one side that the other lacks. */
  method LeftOver(m: Index, other: Index) returns (only: seq<ID>)
    ensures Covers(only, m.Keys - other.Keys)
  {
    only := [];
    var keys := SortedKeys(m.Keys);
    for k := 0 to |keys|
      invariant Covers(only, Members(keys[..k]) - other.Keys)
    {
      MembersStep(keys, k);
      if keys[k] !in other {
        CoversSnoc(only, Members(keys[..k]) - other.Keys, keys[k]);
        assert Members(keys[..k + 1]) - other.Keys == Members(keys[..k]) - other.Keys + {keys[k]};
        only := only + [keys[k]];
      } else {
        assert Members(keys[..k + 1]) - other.Keys == Members(keys[..k]) - other.Keys;
      }
    }
    assert keys[..|keys|] == keys && Members(keys) == m.Keys;
  }

  // ---------------------------------------------------------------- pass two: subject drift

  function CheckOf(m: Index, k: ID): ID
    requires k in m
  {
    m[k].checkID
  }

  /** The leftovers of one check. */
  function OfCheck(m: Index, keys: seq<ID>, check: ID): seq<ID>
    requires forall k | k in keys :: k in m
  {
    if keys == [] then []
    else
      var n := |keys| - 1;
      assert keys[n] in keys;
      OfCheck(m, keys[..n], check) + if CheckOf(m, keys[n]) == check then [keys[n]] else []
  }

  lemma {:induction false} OfCheckDistinct(m: Index, keys: seq<ID>, check: ID)
    requires NoDuplicates(keys) && forall k | k in keys :: k in m
    ensures NoDuplicates(OfCheck(m, keys, check))
  {
    if keys != [] {
      var n := |keys| - 1;
      OfCheckDistinct(m, keys[..n], check);
      OfCheckMembers(m, keys[..n], check);
      assert keys[n] !in keys[..n];
    }
  }

  /** A check has one leftover in the list exactly when it has a loner. */
  lemma {:induction false} OneOfCheck(m: Index, other: Index, keys: seq<ID>, check: ID)
    requires Covers(keys, m.Keys - other.Keys) && forall k | k in keys :: k in m
    ensures |OfCheck(m, keys, check)| == 1 ==> Loner(m, other, OfCheck(m, keys, check)[0]) && CheckOf(m, OfCheck(m, keys, check)[0]) == check
    ensures forall k | Loner(m, other, k) && CheckOf(m, k) == check :: |OfCheck(m, keys, check)| == 1
  {
    OfCheckMembers(m, keys, check);
    OfCheckDistinct(m, keys, check);
    var l := OfCheck(m, keys, check);
    assert |l| > 1 ==> l[0] != l[1];
    assert forall k :: k in keys <==> k in Members(keys);
    if |l| == 1 { assert l[0] in l && forall k | k in l :: k == l[0]; }
    forall k | Loner(m, other, k) && CheckOf(m, k) == check ensures |l| == 1 {
      assert k in l;
      forall i | 0 <= i < |l| ensures l[i] == k {
        assert l[i] in l;
        assert l[i] in Members(keys);
      }
    }
  }

  lemma {:induction false} OfCheckMembers(m: Index, keys: seq<ID>, check: ID)
    requires forall k | k in keys :: k in m
    ensures forall k :: k in OfCheck(m, keys, check) <==> k in keys && k in m && CheckOf(m, k) == check
  {
    if keys != [] {
      var n := |keys| - 1;
      assert keys == keys[..n] + [keys[n]];
      assert keys[n] in keys;
      OfCheckMembers(m, keys[..n], check);
    }
  }

  /** The keys that stand in for the paired checks. */
  ghost function Taken(m: Index, keys: seq<ID>, paired: set<ID>): set<ID>
    requires forall k | k in keys :: k in m
  {
    set k | k in Members(keys) && k in m && CheckOf(m, k) in paired
  }

  lemma {:induction false} TakenOne(m: Index, keys: seq<ID>, paired: set<ID>, check: ID)
    requires (forall k | k in keys :: k in m) && |OfCheck(m, keys, check)| == 1 && check !in paired
    ensures var o := OfCheck(m, keys, check)[0];
            o in m && o in keys && CheckOf(m, o) == check && o !in Taken(m, keys, paired)
            && Taken(m, keys, paired + {check}) == Taken(m, keys, paired) + {o}
  {
    OfCheckMembers(m, keys, check);
    var l := OfCheck(m, keys, check);
    assert l[0] in l;
    assert forall k | k in l :: k == l[0];
  }

  lemma {:induction false} OneMoreDrift(om: Index, nm: Index, oldOnly: seq<ID>, newOnly: seq<ID>, pairs: seq<Pair>, paired: set<ID>, check: ID)
    requires (forall k | k in oldOnly :: k in om) && (forall k | k in newOnly :: k in nm)
    requires Covers(oldOnly, om.Keys - nm.Keys) && Covers(newOnly, nm.Keys - om.Keys) && check !in paired
    requires |OfCheck(om, oldOnly, check)| == 1 && |OfCheck(nm, newOnly, check)| == 1
    requires Covers(WasKeys(pairs), Taken(om, oldOnly, paired)) && Covers(NowKeys(pairs), Taken(nm, newOnly, paired))
    ensures var p := Pair(Some(OfCheck(om, oldOnly, check)[0]), Some(OfCheck(nm, newOnly, check)[0]));
            && PairOk(om, nm, p)
            && Covers(WasKeys(pairs + [p]), Taken(om, oldOnly, paired + {check}))
            && Covers(NowKeys(pairs + [p]), Taken(nm, newOnly, paired + {check}))
  {
    var o, n := OfCheck(om, oldOnly, check)[0], OfCheck(nm, newOnly, check)[0];
    var p := Pair(Some(o), Some(n));
    OneOfCheck(om, nm, oldOnly, check);
    OneOfCheck(nm, om, newOnly, check);
    TakenOne(om, oldOnly, paired, check);
    TakenOne(nm, newOnly, paired, check);
    KeysConcat(pairs, [p]);
    KeysOne(p);
    CoversSnoc(WasKeys(pairs), Taken(om, oldOnly, paired), o);
    CoversSnoc(NowKeys(pairs), Taken(nm, newOnly, paired), n);
  }

  lemma {:induction false} NoLonersOtherwise(om: Index, nm: Index, oldOnly: seq<ID>, newOnly: seq<ID>, check: ID)
    requires (forall k | k in oldOnly :: k in om) && (forall k | k in newOnly :: k in nm)
    requires Covers(oldOnly, om.Keys - nm.Keys) && Covers(newOnly, nm.Keys - om.Keys)
    ensures forall o, n | Drifted(om, nm, o, n) && CheckOf(om, o) == check ::
              |OfCheck(om, oldOnly, check)| == 1 && |OfCheck(nm, newOnly, check)| == 1
  {
    OneOfCheck(om, nm, oldOnly, check);
    OneOfCheck(nm, om, newOnly, check);
  }

  /** Join leftovers whose check has exactly one on each side. */
  method PairBySingleton(om: Index, nm: Index, oldOnly: seq<ID>, newOnly: seq<ID>) returns (pairs: seq<Pair>, paired: set<ID>)
    requires (forall k | k in oldOnly :: k in om && k !in nm) && (forall k | k in newOnly :: k in nm && k !in om)
    requires Covers(oldOnly, om.Keys - nm.Keys) && Covers(newOnly, nm.Keys - om.Keys)
    ensures forall p | p in pairs :: PairOk(om, nm, p)
    ensures Covers(WasKeys(pairs), Taken(om, oldOnly, paired)) && Covers(NowKeys(pairs), Taken(nm, newOnly, paired))
    ensures forall o, n | Drifted(om, nm, o, n) :: CheckOf(om, o) in paired
  {
    pairs, paired := [], {};
    var checks := seq(|oldOnly|, i requires 0 <= i < |oldOnly| => assert oldOnly[i] in oldOnly; CheckOf(om, oldOnly[i]));
    var ids := Dedupe(checks);
    for k := 0 to |ids|
      invariant forall p | p in pairs :: PairOk(om, nm, p)
      invariant paired <= Members(ids[..k])
      invariant forall o, n | Drifted(om, nm, o, n) && CheckOf(om, o) in Members(ids[..k]) :: CheckOf(om, o) in paired
      invariant Covers(WasKeys(pairs), Taken(om, oldOnly, paired)) && Covers(NowKeys(pairs), Taken(nm, newOnly, paired))
    {
      MembersStep(ids, k);
      var o, n := OfCheck(om, oldOnly, ids[k]), OfCheck(nm, newOnly, ids[k]);
      NoLonersOtherwise(om, nm, oldOnly, newOnly, ids[k]);
      if |o| == 1 && |n| == 1 {
        OneMoreDrift(om, nm, oldOnly, newOnly, pairs, paired, ids[k]);
        pairs := pairs + [Pair(Some(o[0]), Some(n[0]))];
        paired := paired + {ids[k]};
      }
    }
    assert ids[..|ids|] == ids;
    forall o, n | Drifted(om, nm, o, n) ensures CheckOf(om, o) in paired {
      assert o in Members(oldOnly);
      var i :| 0 <= i < |oldOnly| && oldOnly[i] == o;
      assert checks[i] in checks;
    }
  }

  /** The leftovers whose check was not paired. */
  method Rest(m: Index, keys: seq<ID>, paired: set<ID>) returns (rest: seq<ID>)
    requires NoDuplicates(keys) && forall k | k in keys :: k in m
    ensures Covers(rest, Members(keys) - Taken(m, keys, paired))
    ensures forall x | x in rest :: x in keys && x in m && CheckOf(m, x) !in paired
  {
    rest := [];
    for k := 0 to |keys|
      invariant NoDuplicates(rest)
      invariant forall x :: x in rest <==> x in keys[..k] && x in m && CheckOf(m, x) !in paired
    {
      assert keys[..k + 1] == keys[..k] + [keys[k]];
      assert keys[k] in keys && keys[k] !in keys[..k];
      if CheckOf(m, keys[k]) !in paired { rest := rest + [keys[k]]; }
    }
    assert keys[..|keys|] == keys;
  }

  /** Findings compared with their own absence. */
  function Gone(keys: seq<ID>): seq<Pair> { seq(|keys|, i requires 0 <= i < |keys| => Pair(Some(keys[i]), None)) }

  function Come(keys: seq<ID>): seq<Pair> { seq(|keys|, i requires 0 <= i < |keys| => Pair(None, Some(keys[i]))) }

  lemma {:induction false} SingleKeys(keys: seq<ID>)
    ensures WasKeys(Gone(keys)) == keys && NowKeys(Gone(keys)) == [] && WasKeys(Come(keys)) == [] && NowKeys(Come(keys)) == keys
  {
    if keys != [] {
      var n := |keys| - 1;
      SingleKeys(keys[..n]);
      assert Gone(keys)[..n] == Gone(keys[..n]) && Come(keys)[..n] == Come(keys[..n]);
      assert keys == keys[..n] + [keys[n]];
    }
  }

  /** Both passes: every finding of either side ends in exactly one pair. */
  method AllPairs(om: Index, nm: Index) returns (pairs: seq<Pair>)
    ensures Matched(om, nm, pairs)
  {
    var both, oldOnly, newOnly := Join(om, nm);
    assert forall k | k in oldOnly :: k in Members(oldOnly);
    assert forall k | k in newOnly :: k in Members(newOnly);
    var drift, paired := PairBySingleton(om, nm, oldOnly, newOnly);
    var oldRest := Rest(om, oldOnly, paired);
    var newRest := Rest(nm, newOnly, paired);
    pairs := both + drift + Gone(oldRest) + Come(newRest);
    WholeJoin(om, nm, both, drift, oldRest, Taken(om, oldOnly, paired), newRest, Taken(nm, newOnly, paired));
    assert forall k | k in oldRest :: k in Members(oldRest);
    assert forall k | k in newRest :: k in Members(newRest);
    SinglesOk(om, nm, oldRest, newRest);
  }

  lemma {:induction false} WholeJoin(om: Index, nm: Index, both: seq<Pair>, drift: seq<Pair>, oldRest: seq<ID>, oldTaken: set<ID>, newRest: seq<ID>, newTaken: set<ID>)
    requires Covers(WasKeys(both), om.Keys * nm.Keys) && Covers(NowKeys(both), om.Keys * nm.Keys)
    requires oldTaken <= om.Keys - nm.Keys && Covers(WasKeys(drift), oldTaken) && Covers(oldRest, om.Keys - nm.Keys - oldTaken)
    requires newTaken <= nm.Keys - om.Keys && Covers(NowKeys(drift), newTaken) && Covers(newRest, nm.Keys - om.Keys - newTaken)
    ensures Joined(om, nm, both + drift + Gone(oldRest) + Come(newRest))
  {
    SingleKeys(oldRest);
    SingleKeys(newRest);
    Assembled(both, drift, Gone(oldRest), Come(newRest));
    ThreeParts(WasKeys(both), om.Keys * nm.Keys, WasKeys(drift), oldTaken, oldRest, om.Keys - nm.Keys);
    ThreeParts(NowKeys(both), om.Keys * nm.Keys, NowKeys(drift), newTaken, newRest, nm.Keys - om.Keys);
    assert om.Keys * nm.Keys + (om.Keys - nm.Keys) == om.Keys && om.Keys * nm.Keys + (nm.Keys - om.Keys) == nm.Keys;
  }

  lemma {:induction false} Assembled(a: seq<Pair>, b: seq<Pair>, c: seq<Pair>, d: seq<Pair>)
    ensures WasKeys(a + b + c + d) == WasKeys(a) + WasKeys(b) + WasKeys(c) + WasKeys(d)
    ensures NowKeys(a + b + c + d) == NowKeys(a) + NowKeys(b) + NowKeys(c) + NowKeys(d)
  {
    KeysConcat(a, b);
    KeysConcat(a + b, c);
    KeysConcat(a + b + c, d);
  }

  lemma {:induction false} ThreeParts(a: seq<ID>, x: set<ID>, b: seq<ID>, y: set<ID>, c: seq<ID>, left: set<ID>)
    requires Covers(a, x) && Covers(b, y) && Covers(c, left - y) && x !! left && y <= left
    ensures Covers(a + b + c + [], x + left) && Covers(a + b + [] + c, x + left)
  {
    CoversConcat(a, x, b, y);
    CoversConcat(a + b, x + y, c, left - y);
    assert x + y + (left - y) == x + left;
    assert a + b + c + [] == a + b + c && a + b + [] + c == a + b + c;
  }

  lemma {:induction false} SinglesOk(om: Index, nm: Index, oldRest: seq<ID>, newRest: seq<ID>)
    requires (forall k | k in oldRest :: k in om && k !in nm) && (forall k | k in newRest :: k in nm && k !in om)
    requires (forall o, n | o in oldRest :: !Drifted(om, nm, o, n)) && (forall o, n | n in newRest :: !Drifted(om, nm, o, n))
    ensures forall p | p in Gone(oldRest) + Come(newRest) :: PairOk(om, nm, p)
  {
    forall p | p in Gone(oldRest) ensures PairOk(om, nm, p) {
      var i :| 0 <= i < |oldRest| && p == Pair(Some(oldRest[i]), None);
      assert oldRest[i] in oldRest;
    }
    forall p | p in Come(newRest) ensures PairOk(om, nm, p) {
      var i :| 0 <= i < |newRest| && p == Pair(None, Some(newRest[i]));
      assert newRest[i] in newRest;
    }
  }

  // ---------------------------------------------------------------- the changes, in report order

  /** The pairs that moved. */
  function Moved(om: Index, nm: Index, pairs: seq<Pair>): seq<Change> {
    if pairs == [] then []
    else
      var n := |pairs| - 1;
      var was, now := At(om, pairs[n].was), At(nm, pairs[n].now);
      Moved(om, nm, pairs[..n]) + if Classify(was, now).Some? then [Change(Classify(was, now).value, was, now)] else []
  }

  /** The side a change is named for: the new one, if there is one. */
  function Named(c: Change): Option<Finding> { if c.now.Some? then c.now else c.was }

  function SubjectOf(c: Change): string { if Named(c).Some? then Named(c).value.subject.name else "" }

  function CheckIDOf(c: Change): string { if Named(c).Some? then Named(c).value.checkID.name else "" }

  function RankOf(c: Change): string {
    match c.category
    case NewFailure => "0"
    case Regressed => "1"
    case VerdictChanged => "2"
    case NewlySuppressed => "3"
    case Resolved => "4"
  }

  /** By category, then check, then subject: three stable sorts, least significant first. */
  function Ordered(changes: seq<Change>): seq<Change> {
    Lex.SortBy(Lex.SortBy(Lex.SortBy(changes, SubjectOf), CheckIDOf), RankOf)
  }

  /** By subject only. */
  predicate BySubject(a: Change, b: Change) { Lex.Leq(SubjectOf(a), SubjectOf(b)) }

  /** By check, then subject. */
  predicate ByCheck(a: Change, b: Change) {
    Lex.Less(CheckIDOf(a), CheckIDOf(b)) || (CheckIDOf(a) == CheckIDOf(b) && BySubject(a, b))
  }

  /** By category, then check, then subject. */
  predicate ReportOrder(a: Change, b: Change) {
    Lex.Less(RankOf(a), RankOf(b)) || (RankOf(a) == RankOf(b) && ByCheck(a, b))
  }

  lemma {:induction false} SortedThenTied(s: seq<Change>, key: Change -> string, rel: (Change, Change) -> bool, both: (Change, Change) -> bool)
    requires Lex.OrderedBy(s, key) && Lex.PairwiseTied(s, key, rel)
    requires forall a, b :: both(a, b) <==> Lex.Less(key(a), key(b)) || (key(a) == key(b) && rel(a, b))
    ensures Lex.Pairwise(s, both)
  {
    forall i, j | 0 <= i < j < |s| ensures both(s[i], s[j]) {
      assert Lex.Leq(key(s[i]), key(s[j]));
    }
  }

  /** The three stable sorts make one report order. */
  lemma {:induction false} ReportIsOrdered(changes: seq<Change>)
    ensures Lex.Pairwise(Ordered(changes), ReportOrder)
  {
    var s := Lex.SortBy(changes, SubjectOf);
    var t := Lex.SortBy(s, CheckIDOf);
    Lex.SortBySorts(changes, SubjectOf);
    Lex.SortByIsStable(s, CheckIDOf, BySubject);
    Lex.SortBySorts(s, CheckIDOf);
    SortedThenTied(t, CheckIDOf, BySubject, ByCheck);
    Lex.SortByIsStable(t, RankOf, ByCheck);
    Lex.SortBySorts(t, RankOf);
    SortedThenTied(Ordered(changes), RankOf, ByCheck, ReportOrder);
  }

  /** What a reader meets first: new failures, regressions, changed verdicts, acceptances, and resolutions last. */
  predicate NotBefore(a: Category, b: Category) {
    match b
    case NewFailure => a.NewFailure?
    case Regressed => a.NewFailure? || a.Regressed?
    case VerdictChanged => !a.NewlySuppressed? && !a.Resolved?
    case NewlySuppressed => !a.Resolved?
    case Resolved => true
  }

  /** The name a change is reported under: that of the new finding, or of the old where there is no new one. */
  predicate ReportedAs(c: Change, f: Finding) {
    (c.now == Some(f)) || (c.now.None? && c.was == Some(f))
  }

  /** In the report categories come in that order, within one the checks by name, within a check the subjects. */
  lemma {:induction false} ReportReads(changes: seq<Change>, i: nat, j: nat, f: Finding, g: Finding)
    requires i < j < |Ordered(changes)| && ReportedAs(Ordered(changes)[i], f) && ReportedAs(Ordered(changes)[j], g)
    ensures var a, b := Ordered(changes)[i].category, Ordered(changes)[j].category;
            && NotBefore(a, b)
            && (a == b ==> Lex.Leq(f.checkID.name, g.checkID.name))
            && (a == b && f.checkID == g.checkID ==> Lex.Leq(f.subject.name, g.subject.name))
  {
    ReportIsOrdered(changes);
    var a, b := Ordered(changes)[i], Ordered(changes)[j];
    assert ReportOrder(a, b);
    RanksInOrder(a, b);
    assert Lex.Less(CheckIDOf(a), CheckIDOf(b)) ==> Lex.Leq(CheckIDOf(a), CheckIDOf(b));
    Lex.LeqTotal(CheckIDOf(a), CheckIDOf(b));
  }

  lemma {:induction false} RanksInOrder(a: Change, b: Change)
    requires Lex.Less(RankOf(a), RankOf(b)) || RankOf(a) == RankOf(b)
    ensures NotBefore(a.category, b.category) && (a.category == b.category <==> RankOf(a) == RankOf(b))
  {
    assert forall c: Change :: |RankOf(c)| == 1;
    assert RankOf(a)[0] <= RankOf(b)[0];
  }

  lemma {:induction false} OrderedKeepsAll(changes: seq<Change>)
    ensures multiset(Ordered(changes)) == multiset(changes)
  {
    Lex.SortBySorts(changes, SubjectOf);
    Lex.SortBySorts(Lex.SortBy(changes, SubjectOf), CheckIDOf);
    Lex.SortBySorts(Lex.SortBy(Lex.SortBy(changes, SubjectOf), CheckIDOf), RankOf);
  }

  /** Every finding of either side compared once, with what it should be compared with. */
  ghost predicate Matched(om: Index, nm: Index, pairs: seq<Pair>) {
    Joined(om, nm, pairs) && forall p | p in pairs :: PairOk(om, nm, p)
  }

  /** The changes are what moved between the two sides, in report order. */
  ghost predicate IsComparison(before: seq<Finding>, after: seq<Finding>, changes: seq<Change>) {
    exists pairs :: Matched(IndexOf(before), IndexOf(after), pairs) && changes == Ordered(Moved(IndexOf(before), IndexOf(after), pairs))
  }

  method Compare(before: seq<Finding>, after: seq<Finding>) returns (changes: seq<Change>)
    ensures IsComparison(before, after, changes)
  {
    var om, nm := IndexOf(before), IndexOf(after);
    var all := AllPairs(om, nm);
    changes := [];
    for k := 0 to |all|
      invariant changes == Moved(om, nm, all[..k])
    {
      assert all[..k + 1][..k] == all[..k];
      var was, now := At(om, all[k].was), At(nm, all[k].now);
      var c := Classify(was, now);
      if c.Some? { changes := changes + [Change(c.value, was, now)]; }
    }
    assert all[..|all|] == all;
    changes := Ordered(changes);
  }

  // ---------------------------------------------------------------- conservation

  /** A failure nobody accepted. */
  predicate IsOpenFailure(s: Side) { Failing(s) && !IsSuppressed(s) }

  function OpenAt(m: Index, k: ID): bool { IsOpenFailure(At(m, Some(k))) }

  /** Only failures are ever accepted. */
  predicate AcceptsFailures(m: Index) {
    forall k | k in m && m[k].suppression.Some? :: IsOpen(m[k].suppression.value.original)
  }

  function Sign(b: bool): int { if b then 1 else 0 }

  /** What one change does to the number of open failures. */
  function Effect(c: Change): int {
    match c.category
    case NewFailure => 1
    case Regressed => 1
    case VerdictChanged => 0
    case NewlySuppressed => -Sign(IsOpenFailure(c.was))
    case Resolved => -Sign(IsOpenFailure(c.was))
  }

  lemma {:induction false} ClassifyIsExact(was: Side, now: Side)
    requires IsSuppressed(was) ==> Failing(was)
    requires IsSuppressed(now) ==> Failing(now)
    ensures Sign(IsOpenFailure(now)) - Sign(IsOpenFailure(was)) ==
              if Classify(was, now).Some? then Effect(Change(Classify(was, now).value, was, now)) else 0
  {
  }

  /** How a finding stands: no failure (or gone), a failure with its verdict, or an accepted one with the verdict it covers. */
  datatype Standing = Fine | Open(verdict: Verdict) | Accepted(verdict: Verdict)

  function StandingOf(s: Side): Standing {
    match s
    case None => Fine
    case Some(f) =>
      if f.suppression.Some? then Accepted(f.suppression.value.original)
      else if f.result == Fail || f.result == Unknown then Open(f.result)
      else Fine
  }

  /** What is reported, by how the finding stood before and how it stands after. */
  lemma {:induction false} ReportedByStanding(was: Side, now: Side)
    requires IsSuppressed(was) ==> Failing(was)
    requires IsSuppressed(now) ==> Failing(now)
    ensures Classify(was, now) ==
              match (StandingOf(was), StandingOf(now))
              case (Accepted(_), Open(_)) => Some(Regressed)
              case (Fine, Open(_)) => Some(NewFailure)
              case (Fine, Accepted(_)) => Some(NewlySuppressed)
              case (Open(_), Accepted(_)) => Some(NewlySuppressed)
              case (Open(_), Fine) => Some(Resolved)
              case (Accepted(_), Fine) => Some(Resolved)
              case (Open(v), Open(w)) => if v == w then None else Some(VerdictChanged)
              case (Accepted(v), Accepted(w)) => if v == w then None else Some(VerdictChanged)
              case (Fine, Fine) => None
  {
  }

  function OpenCount(m: Index, keys: seq<ID>): nat { CountIf(keys, k => OpenAt(m, k)) }

  function NetEffect(changes: seq<Change>): int {
    if changes == [] then 0 else NetEffect(changes[..|changes| - 1]) + Effect(changes[|changes| - 1])
  }

  lemma {:induction false} SuppressedFails(m: Index, k: Option<ID>)
    requires AcceptsFailures(m)
    ensures IsSuppressed(At(m, k)) ==> Failing(At(m, k))
  {
  }

  /** Pair by pair, the open failures move by what the changes say. */
  lemma {:induction false} PairsBalance(om: Index, nm: Index, pairs: seq<Pair>)
    requires AcceptsFailures(om) && AcceptsFailures(nm)
    ensures OpenCount(nm, NowKeys(pairs)) - OpenCount(om, WasKeys(pairs)) == NetEffect(Moved(om, nm, pairs))
  {
    if pairs != [] {
      var n := |pairs| - 1;
      var front, p := pairs[..n], pairs[n];
      var was, now := At(om, p.was), At(nm, p.now);
      PairsBalance(om, nm, front);
      SuppressedFails(om, p.was);
      SuppressedFails(nm, p.now);
      ClassifyIsExact(was, now);
      OneMoreKey(om, WasKeys(front), p.was);
      OneMoreKey(nm, NowKeys(front), p.now);
      var c := Classify(was, now);
      if c.Some? {
        assert (Moved(om, nm, front) + [Change(c.value, was, now)])[..|Moved(om, nm, front)|] == Moved(om, nm, front);
      } else {
        assert Moved(om, nm, front) + [] == Moved(om, nm, front);
      }
    }
  }

  lemma {:induction false} OneMoreKey(m: Index, keys: seq<ID>, k: Option<ID>)
    ensures OpenCount(m, keys + if k.Some? then [k.value] else []) == OpenCount(m, keys) + Sign(IsOpenFailure(At(m, k)))
  {
    if k.Some? {
      CountIfConcat(keys, [k.value], x => OpenAt(m, x));
      CountIfOne(k.value, x => OpenAt(m, x));
    } else {
      assert keys + [] == keys;
    }
  }

  function Fingerprints(fs: seq<Finding>): seq<ID> { seq(|fs|, i requires 0 <= i < |fs| => fs[i].fingerprint) }

  lemma {:induction false} IndexHolds(fs: seq<Finding>)
    requires DistinctFingerprints(fs)
    ensures Covers(Fingerprints(fs), IndexOf(fs).Keys)
    ensures forall i | 0 <= i < |fs| :: fs[i].fingerprint in IndexOf(fs) && IndexOf(fs)[fs[i].fingerprint] == fs[i]
  {
    if fs != [] {
      var n := |fs| - 1;
      IndexHolds(fs[..n]);
      assert Fingerprints(fs) == Fingerprints(fs[..n]) + [fs[n].fingerprint];
      assert fs[n].fingerprint !in Members(Fingerprints(fs[..n]));
      CoversSnoc(Fingerprints(fs[..n]), IndexOf(fs[..n]).Keys, fs[n].fingerprint);
    }
  }

  lemma {:induction false} IndexIsKeyed(fs: seq<Finding>)
    ensures forall k | k in IndexOf(fs) :: IndexOf(fs)[k].fingerprint == k && IndexOf(fs)[k] in fs
  {
    if fs != [] {
      IndexIsKeyed(fs[..|fs| - 1]);
      assert forall f | f in fs[..|fs| - 1] :: f in fs;
      assert fs[|fs| - 1] in fs;
    }
  }

  lemma {:induction false} SameBag(a: seq<ID>, b: seq<ID>, x: set<ID>)
    requires Covers(a, x) && Covers(b, x)
    ensures multiset(a) == multiset(b)
  {
    forall k ensures multiset(a)[k] == multiset(b)[k] {
      OnceEach(a, k);
      OnceEach(b, k);
      assert k in Members(a) <==> k in Members(b);
      assert k in multiset(a) <==> k in a;
      assert k in multiset(b) <==> k in b;
    }
  }

  /** How many open failures a set of findings has. */
  function OpenIn(fs: seq<Finding>): nat { CountIf(fs, f => IsOpenFailure(Some(f))) }

  lemma {:induction false} OpenByKey(m: Index, fs: seq<Finding>)
    requires forall i | 0 <= i < |fs| :: fs[i].fingerprint in m && m[fs[i].fingerprint] == fs[i]
    ensures OpenCount(m, Fingerprints(fs)) == OpenIn(fs)
  {
    if fs != [] {
      var n := |fs| - 1;
      OpenByKey(m, fs[..n]);
      assert Fingerprints(fs)[..n] == Fingerprints(fs[..n]);
    }
  }

  /** The open failures of a side, counted over whatever order its pairs came in. */
  lemma {:induction false} OpenOfSide(fs: seq<Finding>, keys: seq<ID>)
    requires DistinctFingerprints(fs) && Covers(keys, IndexOf(fs).Keys)
    ensures OpenCount(IndexOf(fs), keys) == OpenIn(fs)
  {
    IndexHolds(fs);
    SameBag(keys, Fingerprints(fs), IndexOf(fs).Keys);
    CountPermutation(keys, Fingerprints(fs), k => OpenAt(IndexOf(fs), k));
    OpenByKey(IndexOf(fs), fs);
  }

  function Number(changes: seq<Change>, cat: Category): nat { CountIf(changes, (c: Change) => c.category == cat) }

  /** Changes of a category whose old side was an open failure. */
  function NumberOpen(changes: seq<Change>, cat: Category): nat { CountIf(changes, (c: Change) => c.category == cat && IsOpenFailure(c.was)) }

  lemma {:induction false} NetIsNumbers(changes: seq<Change>)
    ensures NetEffect(changes) == Number(changes, Regressed) + Number(changes, NewFailure)
              - NumberOpen(changes, NewlySuppressed) - NumberOpen(changes, Resolved)
  {
    if changes != [] { NetIsNumbers(changes[..|changes| - 1]); }
  }

  lemma {:induction false} OrderedKeepsNumbers(changes: seq<Change>, cat: Category)
    ensures Number(Ordered(changes), cat) == Number(changes, cat) && NumberOpen(Ordered(changes), cat) == NumberOpen(changes, cat)
  {
    OrderedKeepsAll(changes);
    CountPermutation(Ordered(changes), changes, (c: Change) => c.category == cat);
    CountPermutation(Ordered(changes), changes, (c: Change) => c.category == cat && IsOpenFailure(c.was));
  }

  /** Accepted findings are failures. */
  predicate AcceptedAreFailures(fs: seq<Finding>) {
    forall f | f in fs && f.suppression.Some? :: IsOpen(f.suppression.value.original)
  }

  /** The new number of open failures is the old one, plus what broke or lapsed, minus what was fixed or accepted. */
  lemma {:induction false} OpenFailuresConserved(before: seq<Finding>, after: seq<Finding>, changes: seq<Change>)
    requires DistinctFingerprints(before) && DistinctFingerprints(after)
    requires AcceptedAreFailures(before) && AcceptedAreFailures(after)
    requires IsComparison(before, after, changes)
    ensures OpenIn(after) == OpenIn(before) + Number(changes, Regressed) + Number(changes, NewFailure)
              - NumberOpen(changes, NewlySuppressed) - NumberOpen(changes, Resolved)
  {
    var om, nm := IndexOf(before), IndexOf(after);
    var pairs :| Matched(om, nm, pairs) && changes == Ordered(Moved(om, nm, pairs));
    var moved := Moved(om, nm, pairs);
    IndexIsKeyed(before);
    IndexIsKeyed(after);
    PairsBalance(om, nm, pairs);
    OpenOfSide(before, WasKeys(pairs));
    OpenOfSide(after, NowKeys(pairs));
    NetIsNumbers(moved);
    OrderedKeepsNumbers(moved, Regressed);
    OrderedKeepsNumbers(moved, NewFailure);
    OrderedKeepsNumbers(moved, NewlySuppressed);
    OrderedKeepsNumbers(moved, Resolved);
  }

  // ---------------------------------------------------------------- one change a finding, and none without a difference

  predicate OldSideIs(c: Change, k: ID) { c.was.Some? && c.was.value.fingerprint == k }

  predicate NewSideIs(c: Change, k: ID) { c.now.Some? && c.now.value.fingerprint == k }

  predicate Keyed(m: Index) { forall k | k in m :: m[k].fingerprint == k }

  lemma {:induction false} MovedAtMost(om: Index, nm: Index, pairs: seq<Pair>, k: ID)
    requires Keyed(om) && Keyed(nm)
    ensures CountIf(Moved(om, nm, pairs), c => OldSideIs(c, k)) <= CountIf(WasKeys(pairs), x => x == k)
    ensures CountIf(Moved(om, nm, pairs), c => NewSideIs(c, k)) <= CountIf(NowKeys(pairs), x => x == k)
  {
    if pairs != [] {
      var n := |pairs| - 1;
      var front, p := pairs[..n], pairs[n];
      MovedAtMost(om, nm, front, k);
      var was, now := At(om, p.was), At(nm, p.now);
      var more := if Classify(was, now).Some? then [Change(Classify(was, now).value, was, now)] else [];
      CountIfConcat(Moved(om, nm, front), more, c => OldSideIs(c, k));
      CountIfConcat(Moved(om, nm, front), more, c => NewSideIs(c, k));
      CountIfConcat(WasKeys(front), if p.was.Some? then [p.was.value] else [], x => x == k);
      CountIfConcat(NowKeys(front), if p.now.Some? then [p.now.value] else [], x => x == k);
      if more != [] {
        CountIfOne(more[0], c => OldSideIs(c, k));
        CountIfOne(more[0], c => NewSideIs(c, k));
      }
      if p.was.Some? { CountIfOne(p.was.value, x => x == k); }
      if p.now.Some? { CountIfOne(p.now.value, x => x == k); }
    }
  }

  lemma {:induction false} OnceAtMost(keys: seq<ID>, k: ID)
    requires NoDuplicates(keys)
    ensures CountIf(keys, x => x == k) <= 1
    ensures k !in keys ==> CountIf(keys, x => x == k) == 0
  {
    if keys != [] {
      var n := |keys| - 1;
      assert keys == keys[..n] + [keys[n]];
      OnceAtMost(keys[..n], k);
      assert keys[n] !in keys[..n];
    }
  }

  /** No finding of either side is in two changes. */
  lemma {:induction false} OneChangeEach(before: seq<Finding>, after: seq<Finding>, changes: seq<Change>, k: ID)
    requires IsComparison(before, after, changes)
    ensures CountIf(changes, c => OldSideIs(c, k)) <= 1 && CountIf(changes, c => NewSideIs(c, k)) <= 1
  {
    var pairs :| Matched(IndexOf(before), IndexOf(after), pairs) && changes == Ordered(Moved(IndexOf(before), IndexOf(after), pairs));
    var moved := Moved(IndexOf(before), IndexOf(after), pairs);
    IndexIsKeyed(before);
    IndexIsKeyed(after);
    MovedAtMost(IndexOf(before), IndexOf(after), pairs, k);
    OnceAtMost(WasKeys(pairs), k);
    OnceAtMost(NowKeys(pairs), k);
    OrderedKeepsAll(moved);
    CountPermutation(changes, moved, c => OldSideIs(c, k));
    CountPermutation(changes, moved, c => NewSideIs(c, k));
  }

  lemma {:induction false} NothingMoves(m: Index, pairs: seq<Pair>)
    requires forall p | p in pairs :: PairOk(m, m, p)
    ensures Moved(m, m, pairs) == []
  {
    if pairs != [] {
      var n := |pairs| - 1;
      assert pairs[n] in pairs && forall p | p in pairs[..n] :: p in pairs;
      NothingMoves(m, pairs[..n]);
    }
  }

  lemma {:induction false} KeyHasPair(pairs: seq<Pair>, o: ID) returns (p: Pair)
    requires o in WasKeys(pairs)
    ensures p in pairs && p.was == Some(o)
  {
    var n := |pairs| - 1;
    if pairs[n].was == Some(o) { p := pairs[n]; } else { p := KeyHasPair(pairs[..n], o); }
  }

  lemma {:induction false} NewKeyHasPair(pairs: seq<Pair>, k: ID) returns (p: Pair)
    requires k in NowKeys(pairs)
    ensures p in pairs && p.now == Some(k)
  {
    var n := |pairs| - 1;
    if pairs[n].now == Some(k) { p := pairs[n]; } else { p := NewKeyHasPair(pairs[..n], k); }
  }

  /** Which findings are compared with which is settled by the two sides alone. */
  lemma {:induction false} PairsAreDetermined(om: Index, nm: Index, a: seq<Pair>, b: seq<Pair>)
    requires Matched(om, nm, a) && Matched(om, nm, b)
    ensures forall p :: p in a <==> p in b
  {
    forall p ensures p in a <==> p in b {
      if p in a { PairRecurs(om, nm, p, b); }
      if p in b { PairRecurs(om, nm, p, a); }
    }
  }

  lemma {:induction false} PairRecurs(om: Index, nm: Index, p: Pair, b: seq<Pair>)
    requires PairOk(om, nm, p) && Matched(om, nm, b)
    ensures p in b
  {
    if p.was.Some? {
      assert p.was.value in Members(WasKeys(b));
      var q := KeyHasPair(b, p.was.value);
      assert PairOk(om, nm, q);
    } else {
      assert p.now.value in Members(NowKeys(b));
      var q := NewKeyHasPair(b, p.now.value);
      assert PairOk(om, nm, q);
    }
  }

  /** What one pair contributes. */
  function ChangeOf(om: Index, nm: Index, p: Pair): Option<Change> {
    var was, now := At(om, p.was), At(nm, p.now);
    if Classify(was, now).Some? then Some(Change(Classify(was, now).value, was, now)) else None
  }

  lemma {:induction false} MovedMembers(om: Index, nm: Index, pairs: seq<Pair>, c: Change)
    ensures c in Moved(om, nm, pairs) <==> exists p :: p in pairs && ChangeOf(om, nm, p) == Some(c)
  {
    if pairs != [] {
      var n := |pairs| - 1;
      MovedMembers(om, nm, pairs[..n], c);
      assert pairs == pairs[..n] + [pairs[n]];
      assert c in Moved(om, nm, pairs) <==> c in Moved(om, nm, pairs[..n]) || ChangeOf(om, nm, pairs[n]) == Some(c);
      assert pairs[n] in pairs && forall p :: p in pairs <==> p in pairs[..n] || p == pairs[n];
    }
  }

  /** Two comparisons of the same runs report the same changes, whatever order their maps were enumerated in. */
  lemma {:induction false} ChangesAreDetermined(before: seq<Finding>, after: seq<Finding>, x: seq<Change>, y: seq<Change>)
    requires IsComparison(before, after, x) && IsComparison(before, after, y)
    ensures forall c :: c in x <==> c in y
  {
    var om, nm := IndexOf(before), IndexOf(after);
    var a :| Matched(om, nm, a) && x == Ordered(Moved(om, nm, a));
    var b :| Matched(om, nm, b) && y == Ordered(Moved(om, nm, b));
    PairsAreDetermined(om, nm, a, b);
    OrderedKeepsAll(Moved(om, nm, a));
    OrderedKeepsAll(Moved(om, nm, b));
    forall c ensures c in x <==> c in y {
      MovedMembers(om, nm, a, c);
      MovedMembers(om, nm, b, c);
      assert c in x <==> c in multiset(x);
      assert c in y <==> c in multiset(y);
    }
  }

  /** A run compared with itself has no changes. */
  lemma {:induction false} NoChangeWithItself(fs: seq<Finding>, changes: seq<Change>)
    requires IsComparison(fs, fs, changes)
    ensures changes == []
  {
    var pairs :| Matched(IndexOf(fs), IndexOf(fs), pairs) && changes == Ordered(Moved(IndexOf(fs), IndexOf(fs), pairs));
    NothingMoves(IndexOf(fs), pairs);
  }
}
