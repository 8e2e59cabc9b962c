/** The set of facts and fact errors one collection run produces (internal/fact/fact.go). */
module FactSet {
  import opened Basics
  import opened Ids

  /** A fact as Go holds it: a value of a known type, or raw bytes this build cannot decode. */
  datatype Fact =
    | Typed(id: ID, version: int, shape: ID, value: nat)
    | Preserved(id: ID, version: int, raw: Blob)

  datatype ErrorKind = NotCollected | Permission | Timeout | Parse | TruncatedSource | Unsupported | Internal

  datatype Error = Error(fact: ID, kind: ErrorKind, msg: string, path: string)

  /** What a check finds under one ID. */
  datatype Cell = Present(fact: Fact) | Failed(error: Error) | NeverCollected

  datatype Ledger = Ledger(facts: map<ID, Fact>, errors: map<ID, Error>) {
    /** Facts and errors are filed under their own IDs, and no ID has both. */
    ghost predicate Valid() {
      && (forall id | id in facts :: facts[id].id == id)
      && (forall id | id in errors :: errors[id].fact == id)
      && facts.Keys !! errors.Keys
    }

    function At(id: ID): Cell {
      if id in errors then Failed(errors[id])
      else if id in facts then Present(facts[id])
      else NeverCollected
    }

    function Put(f: Fact): Ledger {
      Ledger(facts[f.id := f], errors - {f.id})
    }

    function PutError(e: Error): Ledger {
      Ledger(facts - {e.fact}, errors[e.fact := e])
    }

    /** Everything in other filed on top of this. */
    function Overlay(other: Ledger): Ledger {
      Ledger(facts - other.errors.Keys + other.facts, errors - other.facts.Keys + other.errors)
    }

    function Mentioned(): set<ID> { facts.Keys + errors.Keys }
  }

  const EMPTY := Ledger(map[], map[])

  /** A valid ledger is what a check sees of it. */
  lemma {:induction false} SameCells(a: Ledger, b: Ledger)
    requires a.Valid() && b.Valid()
    requires forall id :: a.At(id) == b.At(id)
    ensures a == b
  {
    forall id ensures id in a.facts <==> id in b.facts {
      assert a.At(id) == b.At(id);
    }
    forall id ensures id in a.errors <==> id in b.errors {
      assert a.At(id) == b.At(id);
    }
    forall id | id in a.facts ensures a.facts[id] == b.facts[id] {
      assert a.At(id) == b.At(id);
    }
    forall id | id in a.errors ensures a.errors[id] == b.errors[id] {
      assert a.At(id) == b.At(id);
    }
    assert a.facts == b.facts && a.errors == b.errors;
  }

  /** Filing a ledger on top of another replaces exactly what it mentions. */
  lemma {:induction false} OverlayCell(base: Ledger, other: Ledger, id: ID)
    requires base.Valid() && other.Valid()
    ensures base.Overlay(other).Valid()
    ensures base.Overlay(other).At(id) == if id in other.Mentioned() then other.At(id) else base.At(id)
  {
  }

  /** A typed lookup fails when the fact has another shape than the check asked for. */
  datatype Lookup = Found(fact: Fact) | Gap(error: Error) | WrongShape(id: ID) | Missing

  class Set {
    var facts: map<ID, Fact>
    var errors: map<ID, Error>

    function Contents(): Ledger
      reads this
    {
      Ledger(facts, errors)
    }

    constructor ()
      ensures Contents() == EMPTY && Contents().Valid()
    {
      facts, errors := map[], map[];
    }

    method Put(f: Fact)
      requires Contents().Valid()
      modifies this
      ensures Contents() == old(Contents()).Put(f) && Contents().Valid()
    {
      facts := facts[f.id := f];
      errors := errors - {f.id};
    }

    method PutError(e: Error)
      requires Contents().Valid()
      modifies this
      ensures Contents() == old(Contents()).PutError(e) && Contents().Valid()
    {
      errors := errors[e.fact := e];
      facts := facts - {e.fact};
    }

    /** The three states a check must keep apart, and the one that is a programming error. */
    method Get(id: ID, shape: ID) returns (r: Lookup)
      requires Contents().Valid()
      ensures r.Gap? <==> Contents().At(id).Failed?
      ensures r.Gap? ==> r.error == Contents().At(id).error && r.error.fact == id
      ensures r.Missing? <==> id !in Contents().Mentioned()
      ensures r.Found? <==> Contents().At(id).Present? && facts[id].Typed? && facts[id].shape == shape
      ensures r.Found? ==> r.fact == facts[id] && r.fact.id == id
    {
      if id in errors { return Gap(errors[id]); }
      if id !in facts { return Missing; }
      if facts[id].Typed? && facts[id].shape == shape { return Found(facts[id]); }
      return WrongShape(id);
    }

    /** The IDs of all present facts, sorted. */
    method IDs() returns (out: seq<ID>)
      ensures Lists(out, facts.Keys)
    {
      out := SortedKeys(facts.Keys);
    }

    /** All errors, sorted by fact ID. */
    method Errors() returns (out: seq<Error>)
      requires Contents().Valid()
      ensures Lists(seq(|out|, i requires 0 <= i < |out| => out[i].fact), errors.Keys)
      ensures forall e | e in out :: e.fact in errors && errors[e.fact] == e
    {
      var ids := SortedKeys(errors.Keys);
      out := [];
      for k := 0 to |ids|
        invariant |out| == k
        invariant forall i | 0 <= i < k :: ids[i] in errors && out[i] == errors[ids[i]]
      {
        assert ids[k] in ids;
        out := out + [errors[ids[k]]];
      }
      assert seq(|out|, i requires 0 <= i < |out| => out[i].fact) == ids;
    }

    /** Copy src into this set, facts before errors. */
    method MergeFrom(src: Set)
      requires src != this && Contents().Valid() && src.Contents().Valid()
      modifies this
      ensures Contents() == old(Contents()).Overlay(src.Contents()) && Contents().Valid()
    {
      ghost var base, other := Contents(), src.Contents();
      MergeFacts(src);
      ghost var middle := Contents();
      MergeErrors(src);
      assert Contents() == base.Overlay(other) by {
        assert middle == WithFacts(base, other, other.facts.Keys) && Contents() == WithErrors(middle, other, other.errors.Keys);
        WholeMerge(base, other);
      }
    }

    method MergeFacts(src: Set)
      requires src != this && Contents().Valid() && src.Contents().Valid()
      modifies this
      ensures Contents() == WithFacts(old(Contents()), src.Contents(), src.facts.Keys) && Contents().Valid()
    {
      ghost var base, other := Contents(), src.Contents();
      NoFacts(base, other);
      var ids := src.IDs();
      for k := 0 to |ids|
        invariant Contents().Valid() && src.Contents() == other
        invariant Contents() == WithFacts(base, other, Members(ids[..k]))
      {
        MembersStep(ids, k);
        assert ids[k] in ids;
        OneFact(base, other, Members(ids[..k]), ids[k]);
        Put(src.facts[ids[k]]);
      }
      assert ids[..|ids|] == ids && Members(ids) == other.facts.Keys;
    }

    method MergeErrors(src: Set)
      requires src != this && Contents().Valid() && src.Contents().Valid()
      modifies this
      ensures Contents() == WithErrors(old(Contents()), src.Contents(), src.errors.Keys) && Contents().Valid()
    {
      ghost var base, other := Contents(), src.Contents();
      NoErrors(base, other);
      var errs := src.Errors();
      ghost var names := seq(|errs|, i requires 0 <= i < |errs| => errs[i].fact);
      for k := 0 to |errs|
        invariant Contents().Valid() && src.Contents() == other
        invariant Contents() == WithErrors(base, other, Members(names[..k]))
      {
        MembersStep(names, k);
        assert errs[k] in errs;
        OneError(base, other, Members(names[..k]), names[k]);
        PutError(errs[k]);
      }
      assert names[..|errs|] == names && Members(names) == other.errors.Keys;
    }
  }

  ghost function Restrict<V>(m: map<ID, V>, keys: set<ID>): map<ID, V> {
    map k | k in m && k in keys :: m[k]
  }

  /** base after the facts of other under keys have been put on top. */
  ghost function WithFacts(base: Ledger, other: Ledger, keys: set<ID>): Ledger {
    Ledger(base.facts + Restrict(other.facts, keys), base.errors - keys)
  }

  ghost function WithErrors(base: Ledger, other: Ledger, keys: set<ID>): Ledger {
    Ledger(base.facts - keys, base.errors + Restrict(other.errors, keys))
  }

  lemma {:induction false} NoFacts(base: Ledger, other: Ledger)
    ensures WithFacts(base, other, {}) == base
  {
    assert Restrict(other.facts, {}) == map[] && base.errors - {} == base.errors;
  }

  lemma {:induction false} NoErrors(base: Ledger, other: Ledger)
    ensures WithErrors(base, other, {}) == base
  {
    assert Restrict(other.errors, {}) == map[] && base.facts - {} == base.facts;
  }

  lemma {:induction false} OneFact(base: Ledger, other: Ledger, keys: set<ID>, id: ID)
    requires other.Valid() && id in other.facts && id !in keys
    ensures WithFacts(base, other, keys).Put(other.facts[id]) == WithFacts(base, other, keys + {id})
  {
    assert Restrict(other.facts, keys + {id}) == Restrict(other.facts, keys)[id := other.facts[id]];
    assert base.errors - keys - {id} == base.errors - (keys + {id});
  }

  lemma {:induction false} OneError(base: Ledger, other: Ledger, keys: set<ID>, id: ID)
    requires other.Valid() && id in other.errors && id !in keys
    ensures WithErrors(base, other, keys).PutError(other.errors[id]) == WithErrors(base, other, keys + {id})
  {
    assert Restrict(other.errors, keys + {id}) == Restrict(other.errors, keys)[id := other.errors[id]];
    assert base.facts - keys - {id} == base.facts - (keys + {id});
  }

  lemma {:induction false} WholeMerge(base: Ledger, other: Ledger)
    requires other.Valid()
    ensures WithErrors(WithFacts(base, other, other.facts.Keys), other, other.errors.Keys) == base.Overlay(other)
  {
    assert Restrict(other.facts, other.facts.Keys) == other.facts && Restrict(other.errors, other.errors.Keys) == other.errors;
    assert base.facts + other.facts - other.errors.Keys == base.facts - other.errors.Keys + other.facts;
  }
}
