/** What is proposed for which finding, and which shell functions the script then carries (internal/remediate/engine.go). */
module Remediation {
  import opened Basics
  import opened Ids
  import opened Findings
  import Lex
  import Suppress

  // ---------------------------------------------------------------- the helpers a script needs

  /** A shell function, and the call that says it is needed. */
  datatype Helper = Helper(call: string, body: string)

  /** strings.Contains. */
  predicate Contains(text: string, word: string) {
    exists i | 0 <= i <= |text| :: OccursAt(text, word, i)
  }

  predicate OccursAt(text: string, word: string, i: nat) {
    i + |word| <= |text| && text[i..i + |word|] == word
  }

  /** Definitions start on a new line, calls stay on theirs, and no two helpers share a call. */
  predicate WellFormed(helpers: seq<Helper>) {
    && (forall i | 0 <= i < |helpers| :: StartsLine(helpers[i].body) && IsCall(helpers[i].call))
    && forall i, j | 0 <= i < j < |helpers| :: helpers[i].call != helpers[j].call
  }

  predicate StartsLine(body: string) { body != "" && body[0] == '\n' }

  predicate IsCall(call: string) { call != "" && '\n' !in call }

  /** No call straddles the place where a definition was added. */
  lemma {:induction false} ContainsAcross(a: string, b: string, word: string)
    requires StartsLine(b) && IsCall(word)
    ensures Contains(a + b, word) <==> Contains(a, word) || Contains(b, word)
  {
    if Contains(a, word) {
      var i :| 0 <= i <= |a| && OccursAt(a, word, i);
      assert (a + b)[i..i + |word|] == a[i..i + |word|];
      assert OccursAt(a + b, word, i);
    }
    if Contains(b, word) {
      var i :| 0 <= i <= |b| && OccursAt(b, word, i);
      assert (a + b)[|a| + i..|a| + i + |word|] == b[i..i + |word|];
      assert OccursAt(a + b, word, |a| + i);
    }
    if Contains(a + b, word) {
      var i :| 0 <= i <= |a + b| && OccursAt(a + b, word, i);
      NoStraddle(a, b, word, i);
    }
  }

  lemma {:induction false} StraddlingHasNewline(a: string, b: string, word: string, i: nat)
    requires StartsLine(b) && OccursAt(a + b, word, i) && i < |a| < i + |word|
    ensures '\n' in word
  {
    assert (a + b)[i..i + |word|][|a| - i] == b[0];
  }

  lemma {:induction false} NoStraddle(a: string, b: string, word: string, i: nat)
    requires StartsLine(b) && IsCall(word) && OccursAt(a + b, word, i)
    ensures Contains(a, word) || Contains(b, word)
  {
    if i + |word| <= |a| {
      assert a[i..i + |word|] == (a + b)[i..i + |word|];
      assert OccursAt(a, word, i);
    } else if i >= |a| {
      assert b[i - |a|..i - |a| + |word|] == (a + b)[i..i + |word|];
      assert OccursAt(b, word, i - |a|);
    } else {
      StraddlingHasNewline(a, b, word, i);
    }
  }

  /** The call is made by the script's own lines, or by a helper of the set. */
  ghost predicate CalledBy(helpers: seq<Helper>, body: string, want: set<nat>, k: nat)
    requires k < |helpers|
  {
    Contains(body, helpers[k].call) || exists j :: j in want && j < |helpers| && Contains(helpers[j].body, helpers[k].call)
  }

  /** With every helper it holds, the set holds those that helper calls. */
  ghost predicate Closed(helpers: seq<Helper>, body: string, want: set<nat>) {
    forall k | 0 <= k < |helpers| && CalledBy(helpers, body, want, k) :: k in want
  }

  /** The smallest set that holds what the body calls and is closed under calls. */
  ghost predicate IsNeeded(helpers: seq<Helper>, body: string, want: set<nat>) {
    && (forall k | k in want :: k < |helpers|)
    && Closed(helpers, body, want)
    && forall other: set<nat> | Closed(helpers, body, other) :: want <= other
  }

  lemma {:induction false} NeededIsUnique(helpers: seq<Helper>, body: string, a: set<nat>, b: set<nat>)
    requires IsNeeded(helpers, body, a) && IsNeeded(helpers, body, b)
    ensures a == b
  {
    assert a <= b && b <= a;
  }

  /** The definitions of a set of helpers, in the order they are declared. */
  function Definitions(helpers: seq<Helper>, want: set<nat>): seq<string> {
    if helpers == [] then []
    else
      var n := |helpers| - 1;
      Definitions(helpers[..n], want) + if n in want then [helpers[n].body] else []
  }

  /** What has been scanned: the body and the definitions wanted so far. */
  ghost predicate Scanned(helpers: seq<Helper>, body: string, want: set<nat>, scan: string) {
    forall k | 0 <= k < |helpers| :: Contains(scan, helpers[k].call) <==> CalledBy(helpers, body, want, k)
  }

  ghost predicate Within(helpers: seq<Helper>, body: string, want: set<nat>) {
    && (forall k | k in want :: k < |helpers|)
    && forall other: set<nat> | Closed(helpers, body, other) :: want <= other
  }

  /** One helper more. */
  lemma {:induction false} WantOneMore(helpers: seq<Helper>, body: string, want: set<nat>, scan: string, k: nat)
    requires WellFormed(helpers) && k < |helpers| && Within(helpers, body, want) && Scanned(helpers, body, want, scan)
    requires Contains(scan, helpers[k].call)
    ensures Within(helpers, body, want + {k}) && Scanned(helpers, body, want + {k}, scan + helpers[k].body)
  {
    forall other: set<nat> | Closed(helpers, body, other) ensures want + {k} <= other {
      assert want <= other;
      assert CalledBy(helpers, body, want, k);
      assert CalledBy(helpers, body, other, k);
    }
    forall i | 0 <= i < |helpers|
      ensures Contains(scan + helpers[k].body, helpers[i].call) <==> CalledBy(helpers, body, want + {k}, i)
    {
      ContainsAcross(scan, helpers[k].body, helpers[i].call);
      if Contains(helpers[k].body, helpers[i].call) { assert k in want + {k}; }
    }
  }

  function Indices(helpers: seq<Helper>): (r: set<nat>)
    ensures forall k: nat :: k in r <==> k < |helpers|
  {
    if helpers == [] then {} else Indices(helpers[1..]) + {|helpers| - 1}
  }

  /** Scan, add what is called, and scan again until nothing is added. */
  method HelpersFor(helpers: seq<Helper>, body: string) returns (out: seq<string>)
    requires WellFormed(helpers)
    ensures exists want :: IsNeeded(helpers, body, want) && out == Definitions(helpers, want)
  {
    var wanted: set<nat> := {};
    var scan := body;
    var changed := true;
    ghost var all := Indices(helpers);
    while changed
      invariant Within(helpers, body, wanted) && Scanned(helpers, body, wanted, scan)
      invariant !changed ==> Closed(helpers, body, wanted)
      decreases all - wanted, changed
    {
      changed := false;
      ghost var before := wanted;
      for k := 0 to |helpers|
        invariant Within(helpers, body, wanted) && Scanned(helpers, body, wanted, scan) && before <= wanted
        invariant changed ==> before < wanted
        invariant !changed ==> before == wanted && forall i | 0 <= i < k :: i in wanted || !Contains(scan, helpers[i].call)
      {
        if k !in wanted && Contains(scan, helpers[k].call) {
          WantOneMore(helpers, body, wanted, scan, k);
          wanted := wanted + {k};
          scan := scan + helpers[k].body;
          changed := true;
        }
      }
      if changed { Shrinks(all, before, wanted); }
    }
    out := [];
    for k := 0 to |helpers|
      invariant out == Definitions(helpers[..k], wanted)
    {
      assert helpers[..k + 1][..k] == helpers[..k];
      if k in wanted { out := out + [helpers[k].body]; }
    }
    assert helpers[..|helpers|] == helpers;
    assert IsNeeded(helpers, body, wanted);
  }

  lemma {:induction false} Shrinks(all: set<nat>, before: set<nat>, after: set<nat>)
    requires before < after <= all
    ensures all - after < all - before
  {
    var x :| x in after && x !in before;
    assert x in all - before && x !in all - after;
  }

  // ---------------------------------------------------------------- which findings get a fix

  /** What one fix would do; checkID is what the fix writes into the action. */
  datatype Action = Action(checkID: ID, work: seq<ID>)

  /** A fix may decline a finding. */
  type Fixes = map<ID, Finding -> Option<Action>>

  /** Failed, and not accepted. */
  predicate Remediable(f: Finding) { f.result.Fail? && f.suppression.None? }

  function FixOf(fixes: Fixes, f: Finding): Option<Action> {
    if f.checkID in fixes then fixes[f.checkID](f) else None
  }

  predicate Fixed(fixes: Fixes, f: Finding) { Remediable(f) && FixOf(fixes, f).Some? }

  function Newest(fixes: Fixes, f: Finding): seq<Action> {
    if Fixed(fixes, f) then [FixOf(fixes, f).value] else []
  }

  function Left(fixes: Fixes, f: Finding): seq<Finding> {
    if Remediable(f) && !Fixed(fixes, f) then [f] else []
  }

  function Proposed(fixes: Fixes, fs: seq<Finding>): seq<Action> {
    if fs == [] then []
    else
      Proposed(fixes, fs[..|fs| - 1]) + Newest(fixes, fs[|fs| - 1])
  }

  function LeftOver(fixes: Fixes, fs: seq<Finding>): seq<Finding> {
    if fs == [] then []
    else
      LeftOver(fixes, fs[..|fs| - 1]) + Left(fixes, fs[|fs| - 1])
  }

  datatype Plan = Plan(actions: seq<Action>, unfixable: seq<Finding>)

  function ActionCheck(a: Action): string { a.checkID.name }

  function FindingCheck(f: Finding): string { f.checkID.name }

  /** Ordered by check, and nothing but the fixes of what failed and what no fix covers. */
  ghost predicate IsPlan(fixes: Fixes, fs: seq<Finding>, p: Plan) {
    && multiset(p.actions) == multiset(Proposed(fixes, fs)) && Lex.OrderedBy(p.actions, ActionCheck)
    && multiset(p.unfixable) == multiset(LeftOver(fixes, fs)) && Lex.OrderedBy(p.unfixable, FindingCheck)
  }

  method Generate(fixes: Fixes, fs: seq<Finding>) returns (p: Plan)
    ensures IsPlan(fixes, fs, p)
  {
    var actions, unfixable := [], [];
    for k := 0 to |fs|
      invariant actions == Proposed(fixes, fs[..k]) && unfixable == LeftOver(fixes, fs[..k])
    {
      assert fs[..k + 1][..k] == fs[..k];
      var f := fs[k];
      if !f.result.Fail? || f.suppression.Some? { continue; }
      if f.checkID !in fixes {
        unfixable := unfixable + [f];
        continue;
      }
      var action := fixes[f.checkID](f);
      if action.None? {
        unfixable := unfixable + [f];
        continue;
      }
      actions := actions + [action.value];
    }
    assert fs[..|fs|] == fs;
    Lex.SortBySorts(actions, ActionCheck);
    Lex.SortBySorts(unfixable, FindingCheck);
    p := Plan(Lex.SortBy(actions, ActionCheck), Lex.SortBy(unfixable, FindingCheck));
  }

  lemma {:induction false} PlanSize(fixes: Fixes, fs: seq<Finding>)
    ensures |Proposed(fixes, fs)| + |LeftOver(fixes, fs)| == CountIf(fs, Remediable)
  {
    if fs != [] { PlanSize(fixes, fs[..|fs| - 1]); }
  }

  /** The action is the fix of a failure nobody accepted. */
  ghost predicate Justified(fixes: Fixes, fs: seq<Finding>, a: Action) {
    exists f :: f in fs && Remediable(f) && FixOf(fixes, f) == Some(a)
  }

  lemma {:induction false} ProposedIsJustified(fixes: Fixes, fs: seq<Finding>, a: Action)
    requires a in Proposed(fixes, fs)
    ensures Justified(fixes, fs, a)
  {
    if fs != [] {
      var n := |fs| - 1;
      assert fs[n] in fs && forall f | f in fs[..n] :: f in fs;
      if a in Proposed(fixes, fs[..n]) { ProposedIsJustified(fixes, fs[..n], a); }
    }
  }

  lemma {:induction false} LeftOverHasNoFix(fixes: Fixes, fs: seq<Finding>, f: Finding)
    requires f in LeftOver(fixes, fs)
    ensures f in fs && Remediable(f) && FixOf(fixes, f).None?
  {
    if fs != [] {
      var n := |fs| - 1;
      if f in LeftOver(fixes, fs[..n]) { LeftOverHasNoFix(fixes, fs[..n], f); }
    }
  }

  /** Every failure nobody accepted is acted on or listed as unfixable, once; nothing else is touched. */
  lemma {:induction false} OnlyFailuresAreRemediated(fixes: Fixes, fs: seq<Finding>, p: Plan)
    requires IsPlan(fixes, fs, p)
    ensures |p.actions| + |p.unfixable| == CountIf(fs, Remediable)
    ensures forall a | a in p.actions :: Justified(fixes, fs, a)
    ensures forall f | f in p.unfixable :: f in fs && Remediable(f) && FixOf(fixes, f).None?
  {
    PlanSize(fixes, fs);
    assert |multiset(p.actions)| == |p.actions| && |multiset(p.unfixable)| == |p.unfixable|;
    assert |multiset(Proposed(fixes, fs))| == |Proposed(fixes, fs)| && |multiset(LeftOver(fixes, fs))| == |LeftOver(fixes, fs)|;
    forall a | a in p.actions ensures Justified(fixes, fs, a) {
      assert a in multiset(p.actions);
      ProposedIsJustified(fixes, fs, a);
    }
    forall f | f in p.unfixable ensures f in fs && Remediable(f) && FixOf(fixes, f).None? {
      assert f in multiset(p.unfixable);
      LeftOverHasNoFix(fixes, fs, f);
    }
  }

  /** Each finding is kept, or turned into one that is not remediated. */
  predicate Quieter(fs: seq<Finding>, gs: seq<Finding>) {
    |gs| == |fs| && forall i | 0 <= i < |fs| :: gs[i] == fs[i] || !Remediable(gs[i])
  }

  lemma {:induction false} SnocFewer<T>(a: seq<T>, b: seq<T>, x: seq<T>, y: seq<T>)
    requires multiset(a) <= multiset(b) && (x == y || x == [])
    ensures multiset(a + x) <= multiset(b + y)
  {
  }

  lemma {:induction false} FewerProposed(fixes: Fixes, fs: seq<Finding>, gs: seq<Finding>)
    requires Quieter(fs, gs)
    ensures multiset(Proposed(fixes, gs)) <= multiset(Proposed(fixes, fs))
    ensures multiset(LeftOver(fixes, gs)) <= multiset(LeftOver(fixes, fs))
  {
    if fs != [] {
      var n := |fs| - 1;
      FewerProposed(fixes, fs[..n], gs[..n]);
      SnocFewer(Proposed(fixes, gs[..n]), Proposed(fixes, fs[..n]), Newest(fixes, gs[n]), Newest(fixes, fs[n]));
      SnocFewer(LeftOver(fixes, gs[..n]), LeftOver(fixes, fs[..n]), Left(fixes, gs[n]), Left(fixes, fs[n]));
    }
  }

  /** Accepting risks only takes work off the plan, and never undoes what was accepted. */
  lemma {:induction false} AcceptingOnlyRemovesWork(trim: ID -> ID, rules: Suppress.Rules, at: int, fixes: Fixes, fs: seq<Finding>, p: Plan, q: Plan)
    requires IsPlan(fixes, fs, p) && IsPlan(fixes, Suppress.AppliedAll(trim, rules, at, fs), q)
    ensures multiset(q.actions) <= multiset(p.actions) && multiset(q.unfixable) <= multiset(p.unfixable)
    ensures forall i | 0 <= i < |fs| && Suppress.Accepts(rules, at, fs[i]) :: !Remediable(Suppress.AppliedAll(trim, rules, at, fs)[i])
  {
    FewerProposed(fixes, fs, Suppress.AppliedAll(trim, rules, at, fs));
  }
}
