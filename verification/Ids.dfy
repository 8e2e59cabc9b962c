/** Strings compared as wholes (identifiers, paths, values), in the order sort.Strings gives them. */
module Ids {
  import opened Basics
  import Lex

  /** A string taken whole: an identifier, a path, a value. The wrapper keeps its characters out of
   * modules that never look at them. */
  datatype ID = ID(name: string)

  function NameOf(id: ID): string { id.name }

  predicate Leq(a: ID, b: ID) { Lex.Leq(a.name, b.name) }

  lemma {:induction false} LeqAntisymmetric(a: ID, b: ID)
    requires Leq(a, b) && Leq(b, a)
    ensures a == b
  {
    Lex.LeqAntisymmetric(a.name, b.name);
  }

  function Members(s: seq<ID>): set<ID> { set x | x in s }

  /** s lists the members of the set once each, smallest first. */
  ghost predicate Lists(s: seq<ID>, members: set<ID>) {
    && NoDuplicates(s)
    && (forall x :: x in s <==> x in members)
    && (forall i, j | 0 <= i < j < |s| :: Leq(s[i], s[j]))
  }

  function Sort(s: seq<ID>): seq<ID> { Lex.SortBy(s, NameOf) }

  /** Sorting distinct names lists their set. */
  lemma {:induction false} SortLists(s: seq<ID>)
    requires NoDuplicates(s)
    ensures Lists(Sort(s), Members(s)) && |Sort(s)| == |s|
  {
    var r := Sort(s);
    Lex.SortByMembers(s, NameOf);
    Lex.SortBySorts(s, NameOf);
    PermutationKeepsDistinct(s, r);
    forall i, j | 0 <= i < j < |r| ensures Leq(r[i], r[j]) {
      assert Lex.Leq(NameOf(r[i]), NameOf(r[j]));
    }
  }

  /** The sorted list of a set does not depend on how the set was enumerated. */
  lemma {:induction false} ListsUnique(a: seq<ID>, b: seq<ID>, members: set<ID>)
    requires Lists(a, members) && Lists(b, members)
    ensures a == b
  {
    if a == [] {
      Lex.NonemptyHasMember(b);
    } else {
      assert a[0] in a && a[0] in b;
      assert b[0] in b && b[0] in a;
      Lex.LeqTotal(a[0].name, a[0].name);
      LeqAntisymmetric(a[0], b[0]);
      TailLists(a, members);
      TailLists(b, members);
      ListsUnique(a[1..], b[1..], members - {a[0]});
      assert a == [a[0]] + a[1..] && b == [b[0]] + b[1..];
    }
  }

  ghost function AnyOrder(members: set<ID>): (s: seq<ID>)
    ensures NoDuplicates(s) && Members(s) == members
  {
    if members == {} then []
    else
      var x :| x in members;
      MembersSnoc(AnyOrder(members - {x}), x);
      assert x !in Members(AnyOrder(members - {x}));
      AnyOrder(members - {x}) + [x]
  }

  /** The one sorted list of a set. */
  ghost function SortedList(members: set<ID>): (s: seq<ID>)
    ensures Lists(s, members)
  {
    SortLists(AnyOrder(members));
    Sort(AnyOrder(members))
  }

  lemma {:induction false} TailLists(a: seq<ID>, members: set<ID>)
    requires Lists(a, members) && a != []
    ensures Lists(a[1..], members - {a[0]})
  {
    forall x ensures x in a[1..] <==> x in members - {a[0]} {
      assert a == [a[0]] + a[1..];
      assert x in a <==> x == a[0] || x in a[1..];
    }
  }

  lemma {:induction false} CountMembers(s: seq<ID>)
    requires NoDuplicates(s)
    ensures |Members(s)| == |s|
  {
    if s == [] {
      assert Members(s) == {};
    } else {
      var n := |s| - 1;
      CountMembers(s[..n]);
      assert s == s[..n] + [s[n]];
      assert Members(s) == Members(s[..n]) + {s[n]};
    }
  }

  lemma {:induction false} MembersSnoc(s: seq<ID>, x: ID)
    ensures Members(s + [x]) == Members(s) + {x}
  {
  }

  lemma {:induction false} MembersStep(s: seq<ID>, k: nat)
    requires k < |s|
    ensures Members(s[..k + 1]) == Members(s[..k]) + {s[k]}
    ensures NoDuplicates(s) ==> s[k] !in Members(s[..k])
  {
    assert s[..k + 1] == s[..k] + [s[k]];
  }

  /** The keys of a map, listed in the map's own order and then sorted. */
  method SortedKeys(keys: set<ID>) returns (ids: seq<ID>)
    ensures Lists(ids, keys)
  {
    ids := [];
    var todo := keys;
    while todo != {}
      invariant todo <= keys && NoDuplicates(ids) && Members(ids) == keys - todo
      decreases todo
    {
      var id :| id in todo;
      assert id !in Members(ids);
      MembersSnoc(ids, id);
      ids := ids + [id];
      todo := todo - {id};
    }
    SortLists(ids);
    ids := Sort(ids);
  }

  /** The distinct names of a list, sorted. */
  method Dedupe(input: seq<ID>) returns (out: seq<ID>)
    ensures Lists(out, Members(input))
  {
    var seen: set<ID> := {};
    out := [];
    for n := 0 to |input|
      invariant NoDuplicates(out)
      invariant seen == Members(input[..n]) == Members(out)
    {
      assert input[..n + 1] == input[..n] + [input[n]];
      MembersSnoc(input[..n], input[n]);
      MembersSnoc(out, input[n]);
      if input[n] !in seen {
        assert input[n] !in Members(out);
        seen := seen + {input[n]};
        out := out + [input[n]];
      }
    }
    assert input[..|input|] == input;
    SortLists(out);
    out := Sort(out);
  }
}
