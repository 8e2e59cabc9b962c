/** Accepting risks by rule (internal/suppress/suppress.go). */
module Suppress {
  import opened Basics
  import opened Ids
  import opened Findings
  import Lex

  /** One accepted finding; the zero time means no expiry. */
  datatype Rule = Rule(fingerprint: ID, justification: ID, expiresAt: ID, checkID: ID, subject: ID, expires: int) {
    function Expires(): Option<int> { if expires == ZERO_TIME then None else Some(expires) }

    predicate Lapsed(at: int) { Expires().Some? && at >= Expires().value }
  }

  const ZERO_TIME := 0

  type Rules = map<ID, Rule>

  /** What is on a finding that a live rule accepts. */
  function Accept(trim: ID -> ID, r: Rule, f: Finding): Finding {
    f.(result := Skipped, suppression := Some(Suppression(trim(r.justification), r.expiresAt, f.result)))
  }

  predicate Matches(rules: Rules, f: Finding) {
    IsOpen(f.result) && f.fingerprint in rules
  }

  predicate Accepts(rules: Rules, at: int, f: Finding) {
    Matches(rules, f) && !rules[f.fingerprint].Lapsed(at)
  }

  function Applied(trim: ID -> ID, rules: Rules, at: int, f: Finding): Finding {
    if Accepts(rules, at, f) then Accept(trim, rules[f.fingerprint], f) else f
  }

  function AppliedAll(trim: ID -> ID, rules: Rules, at: int, fs: seq<Finding>): (r: seq<Finding>)
    ensures |r| == |fs|
  {
    seq(|fs|, i requires 0 <= i < |fs| => Applied(trim, rules, at, fs[i]))
  }

  datatype Outcome = Outcome(findings: seq<Finding>, applied: seq<Rule>, expired: seq<Rule>, unmatched: seq<Rule>)

  /** The rules of some fingerprints, in order. */
  function RulesOf(rules: Rules, fps: seq<ID>, keep: ID -> bool): seq<Rule>
    requires forall fp | fp in fps :: fp in rules
  {
    if fps == [] then []
    else
      var n := |fps| - 1;
      assert fps[n] in fps;
      RulesOf(rules, fps[..n], keep) + if keep(fps[n]) then [rules[fps[n]]] else []
  }

  /** Some failing finding carries the fingerprint. */
  ghost predicate Hit(fs: seq<Finding>, fp: ID) {
    exists i :: 0 <= i < |fs| && IsOpen(fs[i].result) && fs[i].fingerprint == fp
  }

  class Set {
    var byFingerprint: Rules
    var order: seq<ID>

    ghost predicate Valid()
      reads this
    {
      && NoDuplicates(order) && (forall fp :: fp in order <==> fp in byFingerprint)
      && forall fp | fp in byFingerprint :: byFingerprint[fp].fingerprint == fp
    }

    constructor ()
      ensures Valid() && byFingerprint == map[] && order == []
    {
      byFingerprint, order := map[], [];
    }

    /** Parse's last step for one checked rule. */
    method Add(r: Rule) returns (ok: bool)
      requires Valid()
      modifies this
      ensures Valid() && ok == (r.fingerprint !in old(byFingerprint))
      ensures ok ==> byFingerprint == old(byFingerprint)[r.fingerprint := r] && order == old(order) + [r.fingerprint]
      ensures !ok ==> byFingerprint == old(byFingerprint) && order == old(order)
    {
      ok := r.fingerprint !in byFingerprint;
      if ok {
        byFingerprint := byFingerprint[r.fingerprint := r];
        order := order + [r.fingerprint];
      }
    }

    /** Rewrite every failing finding that carries a live rule, and account for every rule. */
    method Apply(trim: ID -> ID, input: seq<Finding>, at: int) returns (out: Outcome)
      requires Valid()
      ensures out.findings == AppliedAll(trim, byFingerprint, at, input)
      ensures IsAccount(byFingerprint, order, at, input, out)
    {
      if |byFingerprint| == 0 {
        EmptyRules(trim, byFingerprint, at, input);
        assert forall fp :: fp !in order;
        Lex.NonemptyHasMember(order);
        return Outcome(input, [], [], []);
      }
      var findings, applied, expired := Rewrite(trim, byFingerprint, at, input);
      var a, e, u: seq<Rule> := [], [], [];
      for k := 0 to |order|
        invariant forall fp | fp in order[..k] :: fp in byFingerprint
        invariant a == RulesOf(byFingerprint, order[..k], fp => fp in applied)
        invariant e == RulesOf(byFingerprint, order[..k], fp => fp !in applied && fp in expired)
        invariant u == RulesOf(byFingerprint, order[..k], fp => fp !in applied && fp !in expired)
      {
        assert order[..k + 1] == order[..k] + [order[k]] && order[..k + 1][..k] == order[..k];
        assert order[k] in order;
        var rule := byFingerprint[order[k]];
        if order[k] in applied { a := a + [rule]; } else if order[k] in expired { e := e + [rule]; } else { u := u + [rule]; }
      }
      assert order[..|order|] == order;
      out := Outcome(findings, a, e, u);
      Accounted(byFingerprint, order, at, input, applied, expired, out);
    }
  }

  lemma {:induction false} EmptyRules(trim: ID -> ID, rules: Rules, at: int, fs: seq<Finding>)
    requires |rules| == 0
    ensures AppliedAll(trim, rules, at, fs) == fs && rules == map[]
  {
    assert rules.Keys == {};
  }

  /** The first loop of Apply, and which rules it used or found lapsed. */
  method Rewrite(trim: ID -> ID, rules: Rules, at: int, input: seq<Finding>) returns (out: seq<Finding>, applied: set<ID>, expired: set<ID>)
    ensures out == AppliedAll(trim, rules, at, input)
    ensures forall fp :: fp in applied <==> fp in rules && Hit(input, fp) && !rules[fp].Lapsed(at)
    ensures forall fp :: fp in expired <==> fp in rules && Hit(input, fp) && rules[fp].Lapsed(at)
  {
    out, applied, expired := input, {}, {};
    for k := 0 to |input|
      invariant |out| == |input|
      invariant forall i | 0 <= i < |input| :: out[i] == if i < k then Applied(trim, rules, at, input[i]) else input[i]
      invariant forall fp :: fp in applied <==> fp in rules && Hit(input[..k], fp) && !rules[fp].Lapsed(at)
      invariant forall fp :: fp in expired <==> fp in rules && Hit(input[..k], fp) && rules[fp].Lapsed(at)
    {
      var f := input[k];
      HitSnoc(input, k);
      if IsOpen(f.result) && f.fingerprint in rules {
        var rule := rules[f.fingerprint];
        if rule.Lapsed(at) {
          expired := expired + {f.fingerprint};
        } else {
          out := out[k := Accept(trim, rule, f)];
          applied := applied + {f.fingerprint};
        }
      }
    }
    assert input[..|input|] == input;
  }

  lemma {:induction false} HitSnoc(fs: seq<Finding>, k: nat)
    requires k < |fs|
    ensures forall fp :: Hit(fs[..k + 1], fp) <==> Hit(fs[..k], fp) || (IsOpen(fs[k].result) && fs[k].fingerprint == fp)
  {
    forall fp ensures Hit(fs[..k + 1], fp) <==> Hit(fs[..k], fp) || (IsOpen(fs[k].result) && fs[k].fingerprint == fp) {
      if Hit(fs[..k], fp) {
        var i :| 0 <= i < k && IsOpen(fs[..k][i].result) && fs[..k][i].fingerprint == fp;
        assert fs[..k + 1][i] == fs[i];
      }
      if IsOpen(fs[k].result) && fs[k].fingerprint == fp { assert fs[..k + 1][k] == fs[k]; }
      if Hit(fs[..k + 1], fp) {
        var i :| 0 <= i < k + 1 && IsOpen(fs[..k + 1][i].result) && fs[..k + 1][i].fingerprint == fp;
        assert i < k ==> fs[..k][i] == fs[i];
      }
    }
  }

  /** The rules some failing finding met while live, those it met lapsed, and those it never met, each in file order. */
  ghost predicate IsAccount(rules: Rules, order: seq<ID>, at: int, fs: seq<Finding>, out: Outcome)
    requires forall fp | fp in order :: fp in rules
  {
    && out.applied == RulesOf(rules, order, fp => fp in rules && Hit(fs, fp) && !rules[fp].Lapsed(at))
    && out.expired == RulesOf(rules, order, fp => fp in rules && Hit(fs, fp) && rules[fp].Lapsed(at))
    && out.unmatched == RulesOf(rules, order, fp => !Hit(fs, fp))
  }

  /** A rule without a time never lapses; one with a time is live before it and lapsed from that moment on. */
  predicate Live(r: Rule, at: int) { r.expires == 0 || at < r.expires }

  /**
   * A finding that fails or could not be told, with a live rule for its fingerprint, is skipped and keeps its verdict
   * in the suppression; every other finding is left as it is.
   */
  lemma {:induction false} AcceptedWhileLive(trim: ID -> ID, rules: Rules, at: int, f: Finding)
    ensures var g := Applied(trim, rules, at, f);
            if (f.result == Fail || f.result == Unknown) && f.fingerprint in rules && Live(rules[f.fingerprint], at) then
              && g.result == Verdict.Skipped && g.checkID == f.checkID && g.subject == f.subject && g.severity == f.severity
              && g.fingerprint == f.fingerprint && g.skippedBy == f.skippedBy
              && g.suppression == Some(Suppression(trim(rules[f.fingerprint].justification), rules[f.fingerprint].expiresAt, f.result))
            else g == f
  {
  }

  /** The reported lists, by the rule's time: applied while live, expired once it lapsed, unmatched when nothing failing met it. */
  lemma {:induction false} ListedByTime(rules: Rules, order: seq<ID>, at: int, fs: seq<Finding>, out: Outcome, fp: ID)
    requires (forall x :: x in order <==> x in rules) && forall x | x in rules :: rules[x].fingerprint == x
    requires IsAccount(rules, order, at, fs, out) && fp in rules
    ensures var met := exists i :: 0 <= i < |fs| && (fs[i].result == Fail || fs[i].result == Unknown) && fs[i].fingerprint == fp;
            && (rules[fp] in out.applied <==> met && Live(rules[fp], at))
            && (rules[fp] in out.expired <==> met && !Live(rules[fp], at))
            && (rules[fp] in out.unmatched <==> !met)
  {
    RulesOfMembers(rules, order, x => x in rules && Hit(fs, x) && !rules[x].Lapsed(at), fp);
    RulesOfMembers(rules, order, x => x in rules && Hit(fs, x) && rules[x].Lapsed(at), fp);
    RulesOfMembers(rules, order, x => !Hit(fs, x), fp);
    assert Hit(fs, fp) <==> exists i :: 0 <= i < |fs| && (fs[i].result == Fail || fs[i].result == Unknown) && fs[i].fingerprint == fp;
  }

  lemma {:induction false} RulesOfAgree(rules: Rules, fps: seq<ID>, p: ID -> bool, q: ID -> bool)
    requires forall fp | fp in fps :: fp in rules && p(fp) == q(fp)
    ensures RulesOf(rules, fps, p) == RulesOf(rules, fps, q)
  {
    if fps != [] {
      var n := |fps| - 1;
      assert fps[n] in fps && forall fp | fp in fps[..n] :: fp in fps;
      RulesOfAgree(rules, fps[..n], p, q);
    }
  }

  lemma {:induction false} Accounted(rules: Rules, order: seq<ID>, at: int, fs: seq<Finding>, applied: set<ID>, expired: set<ID>, out: Outcome)
    requires forall fp | fp in order :: fp in rules
    requires forall fp :: fp in applied <==> fp in rules && Hit(fs, fp) && !rules[fp].Lapsed(at)
    requires forall fp :: fp in expired <==> fp in rules && Hit(fs, fp) && rules[fp].Lapsed(at)
    requires out.applied == RulesOf(rules, order, fp => fp in applied)
    requires out.expired == RulesOf(rules, order, fp => fp !in applied && fp in expired)
    requires out.unmatched == RulesOf(rules, order, fp => fp !in applied && fp !in expired)
    ensures IsAccount(rules, order, at, fs, out)
  {
    RulesOfAgree(rules, order, fp => fp in applied, fp => fp in rules && Hit(fs, fp) && !rules[fp].Lapsed(at));
    RulesOfAgree(rules, order, fp => fp !in applied && fp in expired, fp => fp in rules && Hit(fs, fp) && rules[fp].Lapsed(at));
    RulesOfAgree(rules, order, fp => fp !in applied && fp !in expired, fp => !Hit(fs, fp));
  }

  lemma {:induction false} RulesOfMembers(rules: Rules, fps: seq<ID>, keep: ID -> bool, fp: ID)
    requires (forall x | x in fps :: x in rules) && (forall x | x in rules :: rules[x].fingerprint == x) && fp in rules
    ensures rules[fp] in RulesOf(rules, fps, keep) <==> fp in fps && keep(fp)
  {
    if fps != [] {
      var n := |fps| - 1;
      assert fps == fps[..n] + [fps[n]];
      assert fps[n] in fps;
      RulesOfMembers(rules, fps[..n], keep, fp);
    }
  }

  lemma {:induction false} RulesSplit(rules: Rules, fps: seq<ID>, at: int, fs: seq<Finding>)
    requires forall x | x in fps :: x in rules
    ensures |RulesOf(rules, fps, fp => fp in rules && Hit(fs, fp) && !rules[fp].Lapsed(at))|
              + |RulesOf(rules, fps, fp => fp in rules && Hit(fs, fp) && rules[fp].Lapsed(at))|
              + |RulesOf(rules, fps, fp => !Hit(fs, fp))| == |fps|
  {
    if fps != [] {
      assert fps[|fps| - 1] in fps;
      RulesSplit(rules, fps[..|fps| - 1], at, fs);
    }
  }

  /** Every rule is in exactly one of the three lists, and which one says what became of it. */
  lemma {:induction false} EveryRuleIsAccounted(rules: Rules, order: seq<ID>, at: int, fs: seq<Finding>, out: Outcome)
    requires (forall fp :: fp in order <==> fp in rules) && forall fp | fp in rules :: rules[fp].fingerprint == fp
    requires IsAccount(rules, order, at, fs, out)
    ensures |out.applied| + |out.expired| + |out.unmatched| == |order|
    ensures forall fp | fp in rules ::
              && (rules[fp] in out.applied <==> Hit(fs, fp) && !rules[fp].Lapsed(at))
              && (rules[fp] in out.expired <==> Hit(fs, fp) && rules[fp].Lapsed(at))
              && (rules[fp] in out.unmatched <==> !Hit(fs, fp))
  {
    RulesSplit(rules, order, at, fs);
    forall fp | fp in rules
      ensures rules[fp] in out.applied <==> Hit(fs, fp) && !rules[fp].Lapsed(at)
      ensures rules[fp] in out.expired <==> Hit(fs, fp) && rules[fp].Lapsed(at)
      ensures rules[fp] in out.unmatched <==> !Hit(fs, fp)
    {
      RulesOfMembers(rules, order, x => x in rules && Hit(fs, x) && !rules[x].Lapsed(at), fp);
      RulesOfMembers(rules, order, x => x in rules && Hit(fs, x) && rules[x].Lapsed(at), fp);
      RulesOfMembers(rules, order, x => !Hit(fs, x), fp);
    }
  }

  /** Applying the same rules again, then or later, changes nothing. */
  lemma {:induction false} ApplyIsIdempotent(trim: ID -> ID, rules: Rules, at: int, again: int, fs: seq<Finding>)
    requires at <= again
    ensures AppliedAll(trim, rules, again, AppliedAll(trim, rules, at, fs)) == AppliedAll(trim, rules, at, fs)
  {
    var once := AppliedAll(trim, rules, at, fs);
    forall i | 0 <= i < |fs| ensures Applied(trim, rules, again, once[i]) == once[i] {
    }
  }

  // ---------------------------------------------------------------- the rule checks of Parse

  datatype ParseError = BadSchema | BadFingerprint(index: nat) | NoJustification(index: nat) | BadExpiry(index: nat) | LabelMismatch(index: nat) | Duplicate(index: nat)

  predicate IsFingerprint(id: ID) {
    |id.name| == 32 && forall i | 0 <= i < 32 :: '0' <= id.name[i] <= '9' || 'a' <= id.name[i] <= 'f'
  }

  /** The functions of the standard library and of finding.Fingerprint the checks rely on. */
  datatype Checks = Checks(normal: ID -> ID, trim: ID -> ID, parseTime: ID -> Option<int>, fingerprint: (ID, ID) -> ID)

  /** A rule as it will be stored. */
  function Read(c: Checks, r: Rule): Rule {
    r.(fingerprint := c.normal(r.fingerprint),
       expires := if r.expiresAt != NONE && c.parseTime(r.expiresAt).Some? then c.parseTime(r.expiresAt).value else ZERO_TIME)
  }

  /** What the parser demands of one rule on its own. */
  predicate Sound(c: Checks, r: Rule) {
    && IsFingerprint(c.normal(r.fingerprint))
    && c.trim(r.justification) != NONE
    && (r.expiresAt != NONE ==> c.parseTime(r.expiresAt).Some?)
    && (r.checkID != NONE || r.subject != NONE ==> c.fingerprint(r.checkID, r.subject) == c.normal(r.fingerprint))
  }

  const SCHEMA := ID("suppressions/v1")

  method CheckRule(c: Checks, rule: Rule, index: nat) returns (e: Option<ParseError>, stored: Rule)
    ensures e.None? <==> Sound(c, rule)
    ensures e.None? ==> stored == Read(c, rule)
  {
    stored := rule;
    var fp := c.normal(rule.fingerprint);
    if !IsFingerprint(fp) { return Some(BadFingerprint(index)), rule; }
    if c.trim(rule.justification) == NONE { return Some(NoJustification(index)), rule; }
    var expires := ZERO_TIME;
    if rule.expiresAt != NONE {
      var t := c.parseTime(rule.expiresAt);
      if t.None? { return Some(BadExpiry(index)), rule; }
      expires := t.value;
    }
    if rule.checkID != NONE || rule.subject != NONE {
      if c.fingerprint(rule.checkID, rule.subject) != fp { return Some(LabelMismatch(index)), rule; }
    }
    return None, rule.(fingerprint := fp, expires := expires);
  }

  /** All rules sound, and no two for one fingerprint. */
  ghost predicate SoundFile(c: Checks, schema: ID, rules: seq<Rule>) {
    && schema == SCHEMA
    && (forall i | 0 <= i < |rules| :: Sound(c, rules[i]))
    && (forall i, j | 0 <= i < j < |rules| :: Read(c, rules[i]).fingerprint != Read(c, rules[j]).fingerprint)
  }

  /** The stored rules are the file's, in file order. */
  ghost predicate Stores(c: Checks, rules: seq<Rule>, k: nat, byFingerprint: Rules, order: seq<ID>)
    requires k <= |rules|
  {
    |order| == k && forall i | 0 <= i < k ::
      order[i] == Read(c, rules[i]).fingerprint && order[i] in byFingerprint && byFingerprint[order[i]] == Read(c, rules[i])
  }

  /** Which rule set a decoded file stands for, or an error exactly when some rule is unsound or repeated. */
  method Parse(c: Checks, schema: ID, rules: seq<Rule>) returns (r: Result<Set, ParseError>)
    ensures r.Ok? <==> SoundFile(c, schema, rules)
    ensures r.Ok? ==> fresh(r.value) && r.value.Valid() && Stores(c, rules, |rules|, r.value.byFingerprint, r.value.order)
  {
    if schema != SCHEMA { return Err(BadSchema); }
    var parsed := new Set();
    for k := 0 to |rules|
      invariant fresh(parsed) && parsed.Valid() && Stores(c, rules, k, parsed.byFingerprint, parsed.order)
      invariant forall i | 0 <= i < k :: Sound(c, rules[i])
    {
      var e, stored := CheckRule(c, rules[k], k);
      if e.Some? { return Err(e.value); }
      var ok := parsed.Add(stored);
      if !ok {
        assert stored.fingerprint in parsed.order;
        return Err(Duplicate(k));
      }
    }
    return Ok(parsed);
  }
}
