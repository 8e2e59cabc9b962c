/** The order of a sorted depth-first walk, told from paths alone: name by name, a directory before what lies below it. */
module PathOrder {
  import opened Basics
  import opened FsFacts
  import opened Ids
  import opened LiveSystem
  import Lex

  ghost predicate Proper(names: seq<ID>) { forall i | 0 <= i < |names| :: ProperName(names[i].name) }

  predicate LessID(a: ID, b: ID) { Leq(a, b) && a != b }

  /** a parts from b to the left: they agree up to some name, and there a's is the smaller. */
  predicate LeftOf(a: seq<ID>, b: seq<ID>) {
    a != [] && b != [] && (LessID(a[0], b[0]) || (a[0] == b[0] && LeftOf(a[1..], b[1..])))
  }

  /** a comes before b: above it, or to its left. */
  predicate Before(a: seq<ID>, b: seq<ID>) {
    b != [] && (a == [] || LessID(a[0], b[0]) || (a[0] == b[0] && Before(a[1..], b[1..])))
  }

  lemma {:induction false} LessOneWay(a: ID, b: ID)
    requires LessID(a, b)
    ensures !LessID(b, a)
  {
    if Leq(b, a) { LeqAntisymmetric(a, b); }
  }

  /** No two paths come before each other. */
  lemma {:induction false} BeforeOneWay(a: seq<ID>, b: seq<ID>)
    requires Before(a, b)
    ensures !Before(b, a)
  {
    if a != [] {
      if LessID(a[0], b[0]) { LessOneWay(a[0], b[0]); } else { BeforeOneWay(a[1..], b[1..]); }
    }
  }

  lemma {:induction false} LeftIsBefore(a: seq<ID>, b: seq<ID>)
    requires LeftOf(a, b)
    ensures Before(a, b)
  {
    if !LessID(a[0], b[0]) { LeftIsBefore(a[1..], b[1..]); }
  }

  /** Going down on either side keeps left and right. */
  lemma {:induction false} LeftBelow(a: seq<ID>, x: seq<ID>, b: seq<ID>, y: seq<ID>)
    requires LeftOf(a, b)
    ensures LeftOf(a + x, b + y)
  {
    if !LessID(a[0], b[0]) {
      LeftBelow(a[1..], x, b[1..], y);
      assert (a + x)[1..] == a[1..] + x && (b + y)[1..] == b[1..] + y;
    }
  }

  /** What comes before a path comes before everything below it. */
  lemma {:induction false} BeforeBelow(a: seq<ID>, b: seq<ID>, y: seq<ID>)
    requires Before(a, b)
    ensures Before(a, b + y)
  {
    if a != [] && !LessID(a[0], b[0]) {
      BeforeBelow(a[1..], b[1..], y);
      assert (b + y)[1..] == b[1..] + y;
    }
  }

  lemma {:induction false} AboveIsBefore(a: seq<ID>, n: ID)
    ensures Before(a, a + [n])
  {
    if a != [] {
      AboveIsBefore(a[1..], n);
      assert (a + [n])[1..] == a[1..] + [n];
    }
  }

  /** Two entries of one directory. */
  lemma {:induction false} SiblingsLeft(a: seq<ID>, m: ID, n: ID)
    requires LessID(m, n)
    ensures LeftOf(a + [m], a + [n])
  {
    if a != [] {
      SiblingsLeft(a[1..], m, n);
      assert (a + [m])[1..] == a[1..] + [m] && (a + [n])[1..] == a[1..] + [n];
    }
  }

  // ---------------------------------------------------------------- paths and names

  lemma {:induction false} AtIsClean(names: seq<ID>)
    requires Proper(names)
    ensures CleanPath(At(names))
  {
  }

  lemma {:induction false} AtBelow(names: seq<ID>, n: ID)
    ensures At(names + [n]) == Below(At(names), n.name)
  {
    assert (names + [n])[..|names|] == names;
  }

  /** The same path ends in the same name under the same directory. */
  lemma {:induction false} SamePathSplits(a: seq<ID>, b: seq<ID>)
    requires Proper(a) && Proper(b) && a != [] && b != [] && At(a) == At(b)
    ensures At(a[..|a| - 1]) == At(b[..|b| - 1]) && a[|a| - 1] == b[|b| - 1]
  {
    var m, n := |a| - 1, |b| - 1;
    AtIsClean(a[..m]);
    AtIsClean(b[..n]);
    BelowOnce(At(a[..m]), a[m].name, At(b[..n]), b[n].name);
  }

  /** A naming of lists of names, which splits like paths do, names no two lists alike. */
  lemma {:induction false} SplitsToTheTop(at: seq<ID> -> ID, ok: seq<ID> -> bool, a: seq<ID>, b: seq<ID>)
    requires ok(a) && ok(b) && at(a) == at(b)
    requires forall x: seq<ID>, y: seq<ID> | ok(x) && ok(y) && at(x) == at(y) :: SplitsAlike(at, ok, x, y)
    ensures a == b
  {
    assert SplitsAlike(at, ok, a, b);
    if a != [] {
      SplitsToTheTop(at, ok, a[..|a| - 1], b[..|b| - 1]);
      assert a == a[..|a| - 1] + [a[|a| - 1]] && b == b[..|b| - 1] + [b[|b| - 1]];
    }
  }

  predicate SplitsAlike(at: seq<ID> -> ID, ok: seq<ID> -> bool, a: seq<ID>, b: seq<ID>) {
    if a == [] then b == []
    else b != [] && a[|a| - 1] == b[|b| - 1] && at(a[..|a| - 1]) == at(b[..|b| - 1]) && ok(a[..|a| - 1]) && ok(b[..|b| - 1])
  }

  lemma {:induction false} PathsSplitAlike(a: seq<ID>, b: seq<ID>)
    requires Proper(a) && Proper(b) && At(a) == At(b)
    ensures SplitsAlike((x: seq<ID>) => At(x), (x: seq<ID>) => Proper(x), a, b)
  {
    if a != [] { NotTheTop(a); }
    if b != [] { NotTheTop(b); }
    if a != [] && b != [] { SamePathSplits(a, b); }
  }

  /** A path has one list of names. */
  lemma {:induction false} AtOnce(a: seq<ID>, b: seq<ID>)
    requires Proper(a) && Proper(b) && At(a) == At(b)
    ensures a == b
  {
    var at, ok := (x: seq<ID>) => At(x), (x: seq<ID>) => Proper(x);
    forall x: seq<ID>, y: seq<ID> | ok(x) && ok(y) && at(x) == at(y) ensures SplitsAlike(at, ok, x, y) { PathsSplitAlike(x, y); }
    SplitsToTheTop(at, ok, a, b);
  }

  lemma {:induction false} NotTheTop(a: seq<ID>)
    requires Proper(a) && a != []
    ensures At(a) != ID("/")
  {
    assert ProperName(a[|a| - 1].name);
    assert |At(a).name| >= 1 + |a[|a| - 1].name|;
  }

  // ---------------------------------------------------------------- entries of one directory

  lemma {:induction false} LeqAfter(p: string, x: string, y: string)
    ensures Lex.Leq(p + x, p + y) <==> Lex.Leq(x, y)
  {
    if p == "" {
      assert p + x == x && p + y == y;
    } else {
      assert (p + x)[1..] == p[1..] + x && (p + y)[1..] == p[1..] + y;
      LeqAfter(p[1..], x, y);
    }
  }

  /** Sorting entries by path sorts them by name. */
  lemma {:induction false} NamesSortLikePaths(dir: ID, m: ID, n: ID)
    ensures Leq(Below(dir, m.name), Below(dir, n.name)) <==> Leq(m, n)
  {
    LeqAfter(Prefix(dir) + "/", m.name, n.name);
  }
}
