/** Posture and coverage, over exact reals (internal/score/score.go), and what accepting a risk does to them. */
module Score {
  import opened Basics
  import opened Ids
  import opened Findings
  import opened Suppress

  /** The tally of findings by verdict. */
  datatype Counts = Counts(pass: nat, fail: nat, notApplicable: nat, skipped: nat, unknown: nat, total: nat, outOfProfile: nat) {
    function Evaluated(): nat { pass + fail }
    function Applicable(): int { total - notApplicable - outOfProfile }
  }

  /** Both figures can be undefined, which is not zero. */
  datatype Score = Score(counts: Counts, coverage: Option<real>, posture: Option<real>)

  /** How one finding counts. */
  function Tally(c: Counts, f: Finding): Counts {
    var c := c.(total := c.total + 1);
    match f.result
    case Pass => c.(pass := c.pass + 1)
    case Fail => c.(fail := c.fail + 1)
    case NotApplicable => c.(notApplicable := c.notApplicable + 1)
    case Skipped => c.(skipped := c.skipped + 1, outOfProfile := c.outOfProfile + if f.skippedBy != NONE then 1 else 0)
    case Unknown => c.(unknown := c.unknown + 1)
  }

  const ZERO := Counts(0, 0, 0, 0, 0, 0, 0)

  function CountsOf(fs: seq<Finding>): Counts {
    if fs == [] then ZERO else Tally(CountsOf(fs[..|fs| - 1]), fs[|fs| - 1])
  }

  function PassWeight(fs: seq<Finding>): nat {
    if fs == [] then 0 else PassWeight(fs[..|fs| - 1]) + if fs[|fs| - 1].result.Pass? then fs[|fs| - 1].severity.Weight() else 0
  }

  function EvaluatedWeight(fs: seq<Finding>): nat {
    if fs == [] then 0
    else EvaluatedWeight(fs[..|fs| - 1]) + if fs[|fs| - 1].result.Pass? || fs[|fs| - 1].result.Fail? then fs[|fs| - 1].severity.Weight() else 0
  }

  function Share(part: nat, whole: int): Option<real> {
    if whole > 0 then Some(part as real / whole as real * 100.0) else None
  }

  function Scored(fs: seq<Finding>): Score {
    var c := CountsOf(fs);
    Score(c, Share(c.Evaluated(), c.Applicable()), Share(PassWeight(fs), EvaluatedWeight(fs)))
  }

  method Compute(fs: seq<Finding>) returns (s: Score)
    ensures s == Scored(fs)
  {
    var c, passWeight, evaluatedWeight := ZERO, 0, 0;
    for k := 0 to |fs|
      invariant c == CountsOf(fs[..k]) && passWeight == PassWeight(fs[..k]) && evaluatedWeight == EvaluatedWeight(fs[..k])
    {
      assert fs[..k + 1][..k] == fs[..k];
      c := c.(total := c.total + 1);
      match fs[k].result {
        case Pass =>
          c := c.(pass := c.pass + 1);
          passWeight := passWeight + fs[k].severity.Weight();
          evaluatedWeight := evaluatedWeight + fs[k].severity.Weight();
        case Fail =>
          c := c.(fail := c.fail + 1);
          evaluatedWeight := evaluatedWeight + fs[k].severity.Weight();
        case NotApplicable => c := c.(notApplicable := c.notApplicable + 1);
        case Skipped =>
          c := c.(skipped := c.skipped + 1);
          if fs[k].skippedBy != NONE { c := c.(outOfProfile := c.outOfProfile + 1); }
        case Unknown => c := c.(unknown := c.unknown + 1);
      }
    }
    assert fs[..|fs|] == fs;
    var coverage, posture := None, None;
    if c.Applicable() > 0 { coverage := Some(c.Evaluated() as real / c.Applicable() as real * 100.0); }
    if evaluatedWeight > 0 { posture := Some(passWeight as real / evaluatedWeight as real * 100.0); }
    return Score(c, coverage, posture);
  }

  // ---------------------------------------------------------------- the figures, counted out

  function Having(v: Verdict): Finding -> bool { (f: Finding) => f.result == v }

  function Graded(v: Verdict, s: Severity): Finding -> bool { (f: Finding) => f.result == v && f.severity == s }

  /** How much the findings of one verdict weigh: four a critical one, three a high, two a medium, one a low. */
  function Weight(fs: seq<Finding>, v: Verdict): nat {
    4 * CountIf(fs, Graded(v, Critical)) + 3 * CountIf(fs, Graded(v, High)) + 2 * CountIf(fs, Graded(v, Medium)) + CountIf(fs, Graded(v, Low))
  }

  /** The marks a profile left on what it skips. */
  function Profiled(): Finding -> bool { (f: Finding) => f.result == Skipped && f.skippedBy != ID("") }

  lemma {:induction false} TalliesCount(fs: seq<Finding>)
    ensures var c := CountsOf(fs);
            && c.pass == CountIf(fs, Having(Pass)) && c.fail == CountIf(fs, Having(Fail)) && c.notApplicable == CountIf(fs, Having(NotApplicable))
            && c.skipped == CountIf(fs, Having(Skipped)) && c.unknown == CountIf(fs, Having(Unknown))
            && c.outOfProfile == CountIf(fs, Profiled()) && c.total == |fs|
  {
    if fs != [] { TalliesCount(fs[..|fs| - 1]); }
  }

  lemma {:induction false} WeightsCount(fs: seq<Finding>)
    ensures PassWeight(fs) == Weight(fs, Pass) && EvaluatedWeight(fs) == Weight(fs, Pass) + Weight(fs, Fail)
  {
    if fs != [] { WeightsCount(fs[..|fs| - 1]); }
  }

  /** The figure is so many percent of the whole, and shown only where there is one. */
  ghost predicate IsPercentage(figure: Option<real>, part: int, whole: int) {
    match figure
    case Some(x) => whole > 0 && x * whole as real == 100.0 * part as real
    case None => whole <= 0
  }

  lemma {:induction false} ShareIsPercentage(part: nat, whole: int)
    ensures IsPercentage(Share(part, whole), part, whole)
  {
    if whole > 0 {
      var p, w := part as real, whole as real;
      var x := p / w;
      assert x * w == p;
      assert x * 100.0 * w == 100.0 * (x * w);
    }
  }

  /** Coverage is the percentage of passes and failures among the findings that apply and are in profile. */
  lemma {:induction false} CoverageIs(fs: seq<Finding>)
    ensures IsPercentage(Scored(fs).coverage, CountIf(fs, Having(Pass)) + CountIf(fs, Having(Fail)),
                         |fs| - CountIf(fs, Having(NotApplicable)) - CountIf(fs, Profiled()))
  {
    TalliesCount(fs);
    ShareIsPercentage(CountsOf(fs).Evaluated(), CountsOf(fs).Applicable());
  }

  /** Posture is the percentage of passed weight in evaluated weight. */
  lemma {:induction false} PostureIs(fs: seq<Finding>)
    ensures IsPercentage(Scored(fs).posture, Weight(fs, Pass), Weight(fs, Pass) + Weight(fs, Fail))
  {
    WeightsCount(fs);
    ShareIsPercentage(PassWeight(fs), EvaluatedWeight(fs));
  }

  // ---------------------------------------------------------------- bounds

  lemma {:induction false} CountsAddUp(fs: seq<Finding>)
    ensures var c := CountsOf(fs);
            && c.total == c.pass + c.fail + c.notApplicable + c.skipped + c.unknown == |fs|
            && c.outOfProfile <= c.skipped
            && c.Evaluated() <= c.Applicable()
            && PassWeight(fs) <= EvaluatedWeight(fs)
            && (EvaluatedWeight(fs) > 0 ==> c.Evaluated() > 0)
  {
    if fs != [] { CountsAddUp(fs[..|fs| - 1]); }
  }

  lemma {:induction false} ShareInRange(part: nat, whole: int)
    requires part <= whole || whole <= 0
    ensures Share(part, whole).Some? ==> 0.0 <= Share(part, whole).value <= 100.0
  {
    if whole > 0 { RatioAtMost(part as real, whole as real, 1.0, 1.0); }
  }

  /** a/b <= c/d, cross-multiplied. */
  lemma {:induction false} RatioAtMost(a: real, b: real, c: real, d: real)
    requires a >= 0.0 && b > 0.0 && d > 0.0 && a * d <= c * b
    ensures 0.0 <= a / b <= c / d
  {
    var x, y := a / b, c / d;
    assert x * b == a && y * d == c;
    assert x * (b * d) == a * d && y * (b * d) == c * b by {
      Reordered(x, b, d);
      Reordered(y, d, b);
    }
    SameOrder(x, y, b * d);
    SameOrder(0.0, x, b);
  }

  lemma {:induction false} Reordered(x: real, p: real, q: real)
    ensures x * (p * q) == x * p * q && x * (q * p) == x * p * q
  {
  }

  lemma {:induction false} SameOrder(x: real, y: real, k: real)
    requires k > 0.0
    ensures x <= y <==> x * k <= y * k
  {
    assert x < y ==> (y - x) * k > 0.0;
    assert x > y ==> (x - y) * k > 0.0;
  }

  /** Both figures lie between 0 and 100, and posture is never shown without a coverage. */
  lemma {:induction false} FiguresInRange(fs: seq<Finding>)
    ensures var s := Scored(fs);
            && (s.coverage.Some? ==> 0.0 <= s.coverage.value <= 100.0)
            && (s.posture.Some? ==> 0.0 <= s.posture.value <= 100.0)
            && (s.posture.Some? ==> s.coverage.Some?)
  {
    CountsAddUp(fs);
    var c := CountsOf(fs);
    ShareInRange(c.Evaluated(), c.Applicable());
    ShareInRange(PassWeight(fs), EvaluatedWeight(fs));
  }

  // ---------------------------------------------------------------- accepting risks

  /** Accepted failures leave the evaluated; accepted findings marked by a profile leave the applicable. */
  predicate Moved(c: Counts, c': Counts, profiled: nat) {
    && c'.pass == c.pass && c'.fail <= c.fail && c'.Applicable() <= c.Applicable()
    && c.Applicable() - c'.Applicable() <= (c.fail - c'.fail) + profiled
  }

  function ProfiledUnknown(f: Finding): nat {
    if f.result.Unknown? && f.skippedBy != NONE then 1 else 0
  }

  lemma {:induction false} OneMoves(c: Counts, c': Counts, profiled: nat, trim: ID -> ID, rules: Rules, at: int, f: Finding)
    requires Moved(c, c', profiled)
    ensures Moved(Tally(c, f), Tally(c', Applied(trim, rules, at, f)), profiled + ProfiledUnknown(f))
  {
  }

  lemma {:induction false} AppliedSnoc(trim: ID -> ID, rules: Rules, at: int, fs: seq<Finding>)
    requires fs != []
    ensures var n, r := |fs| - 1, AppliedAll(trim, rules, at, fs);
            r[..n] == AppliedAll(trim, rules, at, fs[..n]) && r[n] == Applied(trim, rules, at, fs[n])
  {
  }

  /** How the tally and the weights move. */
  lemma {:induction false} AcceptingMoves(trim: ID -> ID, rules: Rules, at: int, fs: seq<Finding>)
    ensures var r := AppliedAll(trim, rules, at, fs);
            && PassWeight(r) == PassWeight(fs) && EvaluatedWeight(r) <= EvaluatedWeight(fs)
            && Moved(CountsOf(fs), CountsOf(r), ProfiledUnknowns(fs))
  {
    if fs != [] {
      var n := |fs| - 1;
      AcceptingMoves(trim, rules, at, fs[..n]);
      AppliedSnoc(trim, rules, at, fs);
      OneMoves(CountsOf(fs[..n]), CountsOf(AppliedAll(trim, rules, at, fs[..n])), ProfiledUnknowns(fs[..n]), trim, rules, at, fs[n]);
    }
  }

  /** How many unknown findings carry the mark of a profile. */
  function ProfiledUnknowns(fs: seq<Finding>): nat {
    if fs == [] then 0
    else ProfiledUnknowns(fs[..|fs| - 1]) + ProfiledUnknown(fs[|fs| - 1])
  }

  lemma {:induction false} NoneProfiled(fs: seq<Finding>)
    requires forall f | f in fs && f.result.Unknown? :: f.skippedBy == NONE
    ensures ProfiledUnknowns(fs) == 0
  {
    if fs != [] {
      assert forall f | f in fs[..|fs| - 1] :: f in fs;
      NoneProfiled(fs[..|fs| - 1]);
      assert fs[|fs| - 1] in fs;
    }
  }

  /** Accepting risks never lowers a posture that stays defined. */
  lemma {:induction false} AcceptingNeverLowersPosture(trim: ID -> ID, rules: Rules, at: int, fs: seq<Finding>)
    ensures var before, after := Scored(fs).posture, Scored(AppliedAll(trim, rules, at, fs)).posture;
            after.Some? ==> before.Some? && before.value <= after.value
  {
    var r := AppliedAll(trim, rules, at, fs);
    AcceptingMoves(trim, rules, at, fs);
    if EvaluatedWeight(r) > 0 {
      var p, e, e' := PassWeight(fs) as real, EvaluatedWeight(fs) as real, EvaluatedWeight(r) as real;
      assert p * e' <= p * e by { MoreIsMore(p, e', e); }
      RatioAtMost(p, e, p, e');
    }
  }

  lemma {:induction false} MoreIsMore(k: real, x: real, y: real)
    requires k >= 0.0 && x <= y
    ensures k * x <= k * y
  {
    assert k * (y - x) >= 0.0;
  }

  lemma {:induction false} CoverageFalls(c: Counts, c': Counts, profiled: nat)
    requires Moved(c, c', profiled) && c.Evaluated() <= c.Applicable() && 0 < c'.Applicable()
    requires profiled == 0 || c.Evaluated() == 0
    ensures Share(c'.Evaluated(), c'.Applicable()).value <= Share(c.Evaluated(), c.Applicable()).value
  {
    var e, a, e', a' := c.Evaluated(), c.Applicable(), c'.Evaluated(), c'.Applicable();
    if e > 0 { LessOverLess(e, a, e', a'); }
    assert e' * a <= e * a';
    assert e' as real * a as real <= e as real * a' as real;
    RatioAtMost(e' as real, a' as real, e as real, a as real);
  }

  /** Accepting risks never raises coverage, when no unknown finding is marked as out of profile. */
  lemma {:induction false} AcceptingNeverRaisesCoverage(trim: ID -> ID, rules: Rules, at: int, fs: seq<Finding>)
    requires (forall f | f in fs && f.result.Unknown? :: f.skippedBy == NONE) || CountsOf(fs).Evaluated() == 0
    ensures var before, after := Scored(fs).coverage, Scored(AppliedAll(trim, rules, at, fs)).coverage;
            after.Some? ==> before.Some? && after.value <= before.value
  {
    var r := AppliedAll(trim, rules, at, fs);
    AcceptingMoves(trim, rules, at, fs);
    CountsAddUp(fs);
    if CountsOf(fs).Evaluated() > 0 { NoneProfiled(fs); }
    if CountsOf(r).Applicable() > 0 { CoverageFalls(CountsOf(fs), CountsOf(r), ProfiledUnknowns(fs)); }
  }

  /** A profile marks only findings it skips, as the finding's own definition demands. */
  predicate MarksAreSkips(fs: seq<Finding>) {
    forall f | f in fs && f.skippedBy != NONE :: f.result.Skipped? && f.suppression.None?
  }

  /** On findings as profiles leave them, accepting risks never raises coverage, and leaves the marks so. */
  lemma {:induction false} CoverageNeverRises(trim: ID -> ID, rules: Rules, at: int, fs: seq<Finding>)
    requires MarksAreSkips(fs)
    ensures var before, after := Scored(fs).coverage, Scored(AppliedAll(trim, rules, at, fs)).coverage;
            after.Some? ==> before.Some? && after.value <= before.value
    ensures MarksAreSkips(AppliedAll(trim, rules, at, fs))
  {
    AcceptingNeverRaisesCoverage(trim, rules, at, fs);
    var r := AppliedAll(trim, rules, at, fs);
    forall f | f in r && f.skippedBy != NONE ensures f.result.Skipped? && f.suppression.None? {
      var i :| 0 <= i < |r| && r[i] == f;
      assert fs[i] in fs && r[i] == Applied(trim, rules, at, fs[i]);
    }
  }

  /** Taking at least as much from the part as from the whole lowers the share. */
  lemma {:induction false} LessOverLess(e: int, a: int, e': int, a': int)
    requires 0 <= e' <= e <= a && 0 < a' <= a && a - a' <= e - e'
    ensures e' * a <= e * a'
  {
    assert e * a' == e * a - e * (a - a');
    assert e * (a - a') <= a * (a - a') by { assert (a - e) * (a - a') >= 0; }
    assert a * (a - a') <= a * (e - e') by { assert a * ((e - e') - (a - a')) >= 0; }
    assert e' * a == e * a - a * (e - e');
  }

  /** The one rule that accepts a given finding. */
  function RuleFor(f: Finding): Rule { Rule(f.fingerprint, ID("accepted"), NONE, NONE, NONE, ZERO_TIME) }

  lemma {:induction false} Larger(e: real, a: real)
    requires e > 0.0 && a - 1.0 > 0.0
    ensures e / (a - 1.0) * 100.0 > e / a * 100.0
  {
    var x, y := e / (a - 1.0), e / a;
    assert x * (a - 1.0) == e && y * a == e;
    SameOrder(y, 0.0, a);
    assert y * (a - 1.0) == y * a - y;
    SameOrder(x, y, a - 1.0);
  }

  /** The tallies differ by so many findings that left the applicable unevaluated. */
  predicate Left(c: Counts, c': Counts, gone: nat) {
    c'.Evaluated() == c.Evaluated() && c'.Applicable() == c.Applicable() - gone
  }

  lemma {:induction false} OneTally(trim: ID -> ID, rules: Rules, f: Finding, c: Counts, c': Counts, gone: nat)
    requires Left(c, c', gone)
    requires f.fingerprint in rules ==> rules[f.fingerprint] == RuleFor(f) && f.result.Unknown? && f.skippedBy != NONE
    ensures Left(Tally(c, f), Tally(c', Applied(trim, rules, 0, f)), gone + if f.fingerprint in rules then 1 else 0)
  {
  }

  /** With one rule for one of distinct findings, only that one moves. */
  lemma {:induction false} OneAccepted(trim: ID -> ID, rules: Rules, fs: seq<Finding>, f: Finding)
    requires f.result.Unknown? && f.skippedBy != NONE && forall x | x in fs && x.fingerprint == f.fingerprint :: x == f
    requires rules == map[f.fingerprint := RuleFor(f)]
    ensures Left(CountsOf(fs), CountsOf(AppliedAll(trim, rules, 0, fs)), Times(fs, f))
  {
    if fs != [] {
      var n := |fs| - 1;
      assert fs[n] in fs && forall x | x in fs[..n] :: x in fs;
      OneAccepted(trim, rules, fs[..n], f);
      AppliedSnoc(trim, rules, 0, fs);
      OneTally(trim, rules, fs[n], CountsOf(fs[..n]), CountsOf(AppliedAll(trim, rules, 0, fs[..n])), Times(fs[..n], f));
    }
  }

  function Times(fs: seq<Finding>, f: Finding): nat {
    if fs == [] then 0 else Times(fs[..|fs| - 1], f) + if fs[|fs| - 1].fingerprint == f.fingerprint then 1 else 0
  }

  lemma {:induction false} TimesOnce(fs: seq<Finding>, k: nat)
    requires k < |fs| && DistinctFingerprints(fs)
    ensures Times(fs, fs[k]) == 1
  {
    var n := |fs| - 1;
    if k < n { TimesOnce(fs[..n], k); } else { TimesNone(fs[..n], fs[k]); }
  }

  lemma {:induction false} TimesNone(fs: seq<Finding>, f: Finding)
    requires forall i | 0 <= i < |fs| :: fs[i].fingerprint != f.fingerprint
    ensures Times(fs, f) == 0
  {
    if fs != [] { TimesNone(fs[..|fs| - 1], f); }
  }

  /**
   * Otherwise some acceptance does raise it: an unknown finding marked as out of profile is counted as
   * applicable until it is accepted, and not afterwards.
   */
  lemma {:induction false} AcceptingCanRaiseCoverage(trim: ID -> ID, fs: seq<Finding>, k: nat)
    requires k < |fs| && fs[k].result.Unknown? && fs[k].skippedBy != NONE
    requires CountsOf(fs).Evaluated() > 0 && DistinctFingerprints(fs)
    ensures var before, after := Scored(fs).coverage, Scored(AppliedAll(trim, map[fs[k].fingerprint := RuleFor(fs[k])], 0, fs)).coverage;
            before.Some? && after.Some? && after.value > before.value
  {
    var rules: Rules := map[fs[k].fingerprint := RuleFor(fs[k])];
    OneAccepted(trim, rules, fs, fs[k]);
    TimesOnce(fs, k);
    CountsAddUp(AppliedAll(trim, rules, 0, fs));
    Larger(CountsOf(fs).Evaluated() as real, CountsOf(fs).Applicable() as real);
  }

  ghost predicate Raises(trim: ID -> ID, fs: seq<Finding>, rules: Rules, at: int) {
    var before, after := Scored(fs).coverage, Scored(AppliedAll(trim, rules, at, fs)).coverage;
    after.Some? && (before.None? || after.value > before.value)
  }

  /** No acceptance whatever raises coverage exactly when no unknown finding is out of profile, or nothing was evaluated. */
  lemma {:induction false} CoverageIsMonotoneExactlyWhen(trim: ID -> ID, fs: seq<Finding>)
    requires DistinctFingerprints(fs)
    ensures (forall rules, at :: !Raises(trim, fs, rules, at)) <==>
              (forall f | f in fs && f.result.Unknown? :: f.skippedBy == NONE) || CountsOf(fs).Evaluated() == 0
  {
    if (forall f | f in fs && f.result.Unknown? :: f.skippedBy == NONE) || CountsOf(fs).Evaluated() == 0 {
      forall rules, at ensures !Raises(trim, fs, rules, at) {
        AcceptingNeverRaisesCoverage(trim, rules, at, fs);
      }
    } else {
      var f :| f in fs && f.result.Unknown? && f.skippedBy != NONE;
      var k :| 0 <= k < |fs| && fs[k] == f;
      AcceptingCanRaiseCoverage(trim, fs, k);
      assert Raises(trim, fs, map[fs[k].fingerprint := RuleFor(fs[k])], 0);
    }
  }
}
