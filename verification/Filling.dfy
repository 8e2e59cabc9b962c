/** Writing piece after piece until one does not fit: the loop of clean (internal/sanitize/sanitize.go), whatever the pieces are. */
module Filling {
  /** What one turn writes, and how much input it takes. */
  datatype Step<T> = Step(piece: seq<T>, size: nat)

  /** The turn that starts at each position of the input. */
  type Turns<!T> = nat -> Step<T>

  /** Every turn on n elements takes some of what is left, and writes one to four. */
  ghost predicate Advances<T>(turn: Turns<T>, n: nat) {
    forall i: nat | i < n :: 1 <= turn(i).size <= n - i && 1 <= |turn(i).piece| <= 4
  }

  /** What was written, and whether something did not fit. */
  datatype Fitting<T> = Fitting(text: seq<T>, cut: bool)

  function Fit<T>(turn: Turns<T>, n: nat, i: nat, out: seq<T>, max: nat): Fitting<T>
    requires Advances(turn, n)
    decreases n - i
  {
    if i >= n then Fitting(out, false)
    else if |out| + |turn(i).piece| > max then Fitting(out, true)
    else Fit(turn, n, i + turn(i).size, out + turn(i).piece, max)
  }

  method Fill<T>(turn: Turns<T>, n: nat, max: nat) returns (f: Fitting<T>)
    requires Advances(turn, n)
    ensures f == Fit(turn, n, 0, [], max)
  {
    var out: seq<T> := [];
    var i := 0;
    while i < n
      invariant 0 <= i <= n && |out| <= max
      invariant Fit(turn, n, i, out, max) == Fit(turn, n, 0, [], max)
    {
      var step := turn(i);
      if |out| + |step.piece| > max { return Fitting(out, true); }
      out, i := out + step.piece, i + step.size;
    }
    return Fitting(out, false);
  }

  /** The room is never exceeded, and a cut leaves less than one piece of it. */
  lemma {:induction false} FitFits<T>(turn: Turns<T>, n: nat, i: nat, out: seq<T>, max: nat)
    requires Advances(turn, n) && |out| <= max
    ensures var f := Fit(turn, n, i, out, max); |f.text| <= max && (f.cut ==> |f.text| + 4 > max)
    decreases n - i
  {
    if i < n && |out| + |turn(i).piece| <= max {
      FitFits(turn, n, i + turn(i).size, out + turn(i).piece, max);
    }
  }

  /** What the turns from i on would write, all told. */
  function SizeFrom<T>(turn: Turns<T>, n: nat, i: nat): nat
    requires Advances(turn, n)
    decreases n - i
  {
    if i >= n then 0 else |turn(i).piece| + SizeFrom(turn, n, i + turn(i).size)
  }

  /** Some of the pieces from i on, one after another, make exactly k elements. */
  predicate PieceEndsAt<T>(turn: Turns<T>, n: nat, i: nat, k: int)
    requires Advances(turn, n)
    decreases n - i
  {
    k == 0 || (i < n && |turn(i).piece| <= k && PieceEndsAt(turn, n, i + turn(i).size, k - |turn(i).piece|))
  }

  /** Something is cut exactly when all the pieces are too much, and then the room is full exactly when a piece ends there. */
  lemma {:induction false} CutExactlyWhen<T>(turn: Turns<T>, n: nat, i: nat, out: seq<T>, max: nat)
    requires Advances(turn, n) && |out| <= max
    ensures var f := Fit(turn, n, i, out, max);
            && (f.cut <==> |out| + SizeFrom(turn, n, i) > max)
            && (f.cut ==> (|f.text| == max <==> PieceEndsAt(turn, n, i, max - |out|)))
    decreases n - i
  {
    if i < n && |out| + |turn(i).piece| <= max {
      CutExactlyWhen(turn, n, i + turn(i).size, out + turn(i).piece, max);
    }
  }

  /** Single elements and then a piece of four: no piece ends after as many elements as there are turns. */
  lemma {:induction false} StepsOver<T>(turn: Turns<T>, n: nat, i: nat)
    requires Advances(turn, n) && i < n
    requires (forall j | i <= j < n - 1 :: turn(j).size == 1 && |turn(j).piece| == 1) && |turn(n - 1).piece| == 4
    ensures !PieceEndsAt(turn, n, i, n - i) && SizeFrom(turn, n, i) >= n - i + 3
    decreases n - i
  {
    if i < n - 1 { StepsOver(turn, n, i + 1); }
  }

  /** What every turn keeps true of the text holds of the result. */
  lemma {:induction false} FitKeeps<T(!new)>(turn: Turns<T>, n: nat, i: nat, out: seq<T>, max: nat, good: seq<T> -> bool)
    requires Advances(turn, n) && good(out)
    requires forall j: nat, text: seq<T> | j < n && good(text) :: good(text + turn(j).piece)
    ensures good(Fit(turn, n, i, out, max).text)
    decreases n - i
  {
    if i < n && |out| + |turn(i).piece| <= max {
      FitKeeps(turn, n, i + turn(i).size, out + turn(i).piece, max, good);
    }
  }

  /** From i on, the turns write s as it is. */
  ghost predicate Passes<T>(turn: Turns<T>, s: seq<T>, i: nat)
    requires i <= |s|
    decreases |s| - i
  {
    i == |s| || (1 <= turn(i).size <= |s| - i && turn(i).piece == s[i..i + turn(i).size] && Passes(turn, s, i + turn(i).size))
  }

  /** The turn at j takes a part of s as it is, and leaves off at a good place. */
  ghost predicate StepsWell<T>(turn: Turns<T>, s: seq<T>, good: nat -> bool, j: nat) {
    j < |s| && 1 <= turn(j).size <= |s| - j && turn(j).piece == s[j..j + turn(j).size] && good(j + turn(j).size)
  }

  /** Where every turn from a good place steps well, s passes from every good place. */
  lemma {:induction false} PassesFrom<T>(turn: Turns<T>, s: seq<T>, good: nat -> bool, i: nat)
    requires i <= |s| && good(i)
    requires forall j: nat | j < |s| && good(j) :: StepsWell(turn, s, good, j)
    ensures Passes(turn, s, i)
    decreases |s| - i
  {
    if i < |s| {
      assert StepsWell(turn, s, good, i);
      PassesFrom(turn, s, good, i + turn(i).size);
    }
  }

  lemma {:induction false} FitPasses<T>(turn: Turns<T>, n: nat, s: seq<T>, i: nat, max: nat)
    requires Advances(turn, n) && i <= |s| <= n && |s| <= max && Passes(turn, s, i)
    ensures Fit(turn, n, i, s[..i], max) == Fit(turn, n, |s|, s, max)
    decreases |s| - i
  {
    if i == |s| {
      assert s[..i] == s;
    } else {
      var j := i + turn(i).size;
      FitPasses(turn, n, s, j, max);
      assert s[..i] + s[i..j] == s[..j];
    }
  }

  /** Where every turn takes one element, as many are written as fit. */
  lemma {:induction false} FitOneByOne<T>(turn: Turns<T>, s: seq<T>, i: nat, max: nat)
    requires Advances(turn, |s|) && i <= max < |s|
    requires forall j | i <= j < |s| :: turn(j) == Step([s[j]], 1)
    ensures Fit(turn, |s|, i, s[..i], max) == Fitting(s[..max], true)
    decreases max - i
  {
    if i < max {
      assert s[..i] + [s[i]] == s[..i + 1];
      FitOneByOne(turn, s, i + 1, max);
    }
  }

  /** What the turns from i on write, all of it. */
  function All<T>(turn: Turns<T>, n: nat, i: nat): seq<T>
    requires Advances(turn, n)
    decreases n - i
  {
    if i >= n then [] else turn(i).piece + All(turn, n, i + turn(i).size)
  }

  /** Everything is written in order, and a cut leaves out only what comes last. */
  lemma {:induction false} FitIsPrefix<T>(turn: Turns<T>, n: nat, i: nat, out: seq<T>, max: nat)
    requires Advances(turn, n)
    ensures var f := Fit(turn, n, i, out, max); f.text <= out + All(turn, n, i) && (!f.cut ==> f.text == out + All(turn, n, i))
    decreases n - i
  {
    if i < n && |out| + |turn(i).piece| <= max {
      FitIsPrefix(turn, n, i + turn(i).size, out + turn(i).piece, max);
      assert out + turn(i).piece + All(turn, n, i + turn(i).size) == out + (turn(i).piece + All(turn, n, i + turn(i).size));
    }
  }

  /** One turn after another, whatever else unfolds like the turns is what they write. */
  lemma {:induction false} AllFrom<T(!new)>(turn: Turns<T>, n: nat, whole: nat -> seq<T>, i: nat)
    requires Advances(turn, n) && i <= n && whole(n) == []
    requires forall j: nat | j < n :: whole(j) == turn(j).piece + whole(j + turn(j).size)
    ensures All(turn, n, i) == whole(i)
    decreases n - i
  {
    if i < n { AllFrom(turn, n, whole, i + turn(i).size); }
  }
}
