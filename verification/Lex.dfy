/** Byte-wise string order, and the sorts the program builds on it. */
module Lex {
  import opened Basics

  /** Lexicographic order: how Go compares strings. */
  predicate Leq(a: string, b: string)
  {
    a == [] || (b != [] && (a[0] < b[0] || (a[0] == b[0] && Leq(a[1..], b[1..]))))
  }

  predicate Less(a: string, b: string) {
    Leq(a, b) && a != b
  }

  lemma {:induction false} LeqTotal(a: string, b: string)
    ensures Leq(a, b) || Leq(b, a)
  {
    if a != [] && b != [] && a[0] == b[0] {
      LeqTotal(a[1..], b[1..]);
    }
  }

  lemma {:induction false} LeqAntisymmetric(a: string, b: string)
    requires Leq(a, b) && Leq(b, a)
    ensures a == b
  {
    if a != [] {
      LeqAntisymmetric(a[1..], b[1..]);
      assert a == [a[0]] + a[1..] && b == [b[0]] + b[1..];
    }
  }

  lemma {:induction false} LeqTransitive(a: string, b: string, c: string)
    requires Leq(a, b) && Leq(b, c)
    ensures Leq(a, c)
  {
    if a != [] && a[0] == b[0] && b[0] == c[0] {
      LeqTransitive(a[1..], b[1..], c[1..]);
    }
  }

  lemma NonemptyHasMember<T>(s: seq<T>)
    ensures s == [] || exists x :: x in s
  {
    if s != [] { assert s[0] in s; }
  }

  predicate OrderedBy<T>(s: seq<T>, key: T -> string) {
    forall i, j | 0 <= i < j < |s| :: Leq(key(s[i]), key(s[j]))
  }

  /** Put x in front of the first element whose key is not smaller. */
  function InsertBy<T>(x: T, s: seq<T>, key: T -> string): seq<T> {
    if s == [] then [x]
    else if Leq(key(x), key(s[0])) then [x] + s
    else [s[0]] + InsertBy(x, s[1..], key)
  }

  /** A stable insertion sort on a string key. */
  function SortBy<T>(s: seq<T>, key: T -> string): seq<T> {
    if s == [] then [] else InsertBy(s[0], SortBy(s[1..], key), key)
  }

  lemma {:induction false} InsertByInserts<T>(x: T, s: seq<T>, key: T -> string)
    requires OrderedBy(s, key)
    ensures var r := InsertBy(x, s, key); OrderedBy(r, key) && multiset(r) == multiset(s) + multiset{x}
  {
    if s != [] {
      assert s == [s[0]] + s[1..];
      if Leq(key(x), key(s[0])) {
        InFront(x, s, key);
      } else {
        InsertByInserts(x, s[1..], key);
        Behind(x, s, InsertBy(x, s[1..], key), key);
      }
    }
  }

  lemma {:induction false} InFront<T>(x: T, s: seq<T>, key: T -> string)
    requires s != [] && OrderedBy(s, key) && Leq(key(x), key(s[0]))
    ensures OrderedBy([x] + s, key)
  {
    var r := [x] + s;
    forall i, j | 0 <= i < j < |r| ensures Leq(key(r[i]), key(r[j])) {
      if i == 0 && j > 1 {
        LeqTransitive(key(x), key(s[0]), key(s[j - 1]));
      }
    }
  }

  lemma {:induction false} Behind<T>(x: T, s: seq<T>, rest: seq<T>, key: T -> string)
    requires s != [] && OrderedBy(s, key) && !Leq(key(x), key(s[0]))
    requires OrderedBy(rest, key) && multiset(rest) == multiset(s[1..]) + multiset{x}
    ensures OrderedBy([s[0]] + rest, key)
  {
    LeqTotal(key(x), key(s[0]));
    forall j | 0 <= j < |rest| ensures Leq(key(s[0]), key(rest[j])) {
      assert rest[j] in multiset(rest);
      if rest[j] != x {
        assert rest[j] in s[1..];
      }
    }
  }

  /** Sorting orders and neither adds nor loses anything. */
  lemma {:induction false} SortBySorts<T>(s: seq<T>, key: T -> string)
    ensures OrderedBy(SortBy(s, key), key) && multiset(SortBy(s, key)) == multiset(s)
  {
    if s != [] {
      assert s == [s[0]] + s[1..];
      SortBySorts(s[1..], key);
      InsertByInserts(s[0], SortBy(s[1..], key), key);
    }
  }

  lemma {:induction false} SortByMembers<T>(s: seq<T>, key: T -> string)
    ensures forall x :: x in SortBy(s, key) <==> x in s
    ensures |SortBy(s, key)| == |s|
  {
    SortBySorts(s, key);
    assert |multiset(SortBy(s, key))| == |SortBy(s, key)| && |multiset(s)| == |s|;
    forall x ensures x in SortBy(s, key) <==> x in s {
      assert x in SortBy(s, key) <==> x in multiset(SortBy(s, key));
      assert x in s <==> x in multiset(s);
    }
  }

  ghost predicate Pairwise<T>(s: seq<T>, rel: (T, T) -> bool) {
    forall i, j | 0 <= i < j < |s| :: rel(s[i], s[j])
  }

  /** Elements with one key stand in the relation in which they stand in the sequence. */
  ghost predicate PairwiseTied<T>(s: seq<T>, key: T -> string, rel: (T, T) -> bool) {
    forall i, j | 0 <= i < j < |s| && key(s[i]) == key(s[j]) :: rel(s[i], s[j])
  }

  lemma {:induction false} InsertByKeepsTies<T>(x: T, s: seq<T>, key: T -> string, rel: (T, T) -> bool)
    requires PairwiseTied(s, key, rel) && forall y | y in s && key(y) == key(x) :: rel(x, y)
    ensures PairwiseTied(InsertBy(x, s, key), key, rel)
  {
    if s != [] {
      if Leq(key(x), key(s[0])) {
        assert forall i | 0 <= i < |s| :: s[i] in s;
      } else {
        InsertByKeepsTies(x, s[1..], key, rel);
        var rest := InsertBy(x, s[1..], key);
        forall y | y in rest ensures y in s[1..] || y == x { InsertByMember(x, s[1..], key, y); }
        HeadKeepsTies(x, s, rest, key, rel);
      }
    }
  }

  lemma {:induction false} HeadKeepsTies<T>(x: T, s: seq<T>, rest: seq<T>, key: T -> string, rel: (T, T) -> bool)
    requires s != [] && PairwiseTied(s, key, rel) && PairwiseTied(rest, key, rel) && !Leq(key(x), key(s[0]))
    requires forall y | y in rest :: y in s[1..] || y == x
    ensures PairwiseTied([s[0]] + rest, key, rel)
  {
    LeqTotal(key(x), key(x));
    forall y | y in rest && key(y) == key(s[0]) ensures rel(s[0], y) {
      if y in s[1..] {
        var k :| 1 <= k < |s| && s[k] == y;
        assert rel(s[0], s[k]);
      }
    }
    var r := [s[0]] + rest;
    forall i, j | 0 <= i < j < |r| && key(r[i]) == key(r[j]) ensures rel(r[i], r[j]) {
      assert r[j] == rest[j - 1] && rest[j - 1] in rest;
    }
  }

  lemma {:induction false} InsertByMember<T>(x: T, s: seq<T>, key: T -> string, y: T)
    requires y in InsertBy(x, s, key)
    ensures y in s || y == x
  {
    if s != [] && y != s[0] && !Leq(key(x), key(s[0])) { InsertByMember(x, s[1..], key, y); }
  }

  lemma {:induction false} SortByMember<T>(s: seq<T>, key: T -> string, y: T)
    requires y in SortBy(s, key)
    ensures y in s
  {
    if s != [] {
      InsertByMember(s[0], SortBy(s[1..], key), key, y);
      if y != s[0] { SortByMember(s[1..], key, y); }
    }
  }

  /** The sort is stable: elements with one key keep the order they had. */
  lemma {:induction false} SortByIsStable<T>(s: seq<T>, key: T -> string, rel: (T, T) -> bool)
    requires Pairwise(s, rel)
    ensures PairwiseTied(SortBy(s, key), key, rel)
  {
    if s != [] {
      SortByIsStable(s[1..], key, rel);
      forall y | y in SortBy(s[1..], key) ensures rel(s[0], y) {
        SortByMember(s[1..], key, y);
        var k :| 0 <= k < |s| - 1 && s[1..][k] == y;
        assert s[k + 1] == y;
      }
      InsertByKeepsTies(s[0], SortBy(s[1..], key), key, rel);
    }
  }
}
