/** Bounded group-by over the walk (internal/collect/walker/tally.go, internal/fact/fstally.go). */
module Tally {
  import opened Basics
  import opened FsFacts
  import Lex

  /** One inode offered to a tally under a key. */
  datatype Folded = Folded(key: nat, fi: FileInfo)

  // ---------------------------------------------------------------- what a history of folds amounts to

  /** The keys of a history, in the order they first appear. */
  function Distinct(h: seq<Folded>): seq<nat> {
    if h == [] then []
    else
      var d, k := Distinct(h[..|h| - 1]), h[|h| - 1].key;
      if k in d then d else d + [k]
  }

  /** The keys a tally capped at max holds: the first max distinct ones. */
  function Admitted(h: seq<Folded>, max: nat): seq<nat> {
    if |Distinct(h)| <= max then Distinct(h) else Distinct(h)[..max]
  }

  function Count(h: seq<Folded>, k: nat): nat {
    if h == [] then 0 else Count(h[..|h| - 1], k) + if h[|h| - 1].key == k then 1 else 0
  }

  function First(h: seq<Folded>, k: nat): FileInfo
    requires k in Distinct(h)
  {
    if k in Distinct(h[..|h| - 1]) then First(h[..|h| - 1], k) else h[|h| - 1].fi
  }

  /** How many folds a tally capped at max discards. */
  function Discarded(h: seq<Folded>, max: nat): nat {
    if h == [] then 0
    else Discarded(h[..|h| - 1], max) + if h[|h| - 1].key in Admitted(h, max) then 0 else 1
  }

  lemma {:induction false} DistinctHasNoDuplicates(h: seq<Folded>)
    ensures forall i, j | 0 <= i < j < |Distinct(h)| :: Distinct(h)[i] != Distinct(h)[j]
  {
    if h != [] { DistinctHasNoDuplicates(h[..|h| - 1]); }
  }

  /** Admission never takes a key away, and a key discarded once stays out. */
  lemma {:induction false} AdmittedGrows(h: seq<Folded>, f: Folded, max: nat)
    ensures var a, b := Admitted(h, max), Admitted(h + [f], max);
            b == if f.key in a || |a| >= max then a else a + [f.key]
  {
    assert (h + [f])[..|h|] == h;
    var d := Distinct(h);
    if |d| <= max {
      assert (d + [f.key])[..|d|] == d;
    } else {
      assert (d + [f.key])[..max] == d[..max];
    }
  }

  /** First is the inode of the earliest fold with its key. */
  lemma {:induction false} FirstIsEarliest(h: seq<Folded>, k: nat)
    requires k in Distinct(h)
    ensures exists i :: 0 <= i < |h| && h[i] == Folded(k, First(h, k)) && forall j | 0 <= j < i :: h[j].key != k
  {
    var p := h[..|h| - 1];
    if k in Distinct(p) {
      FirstIsEarliest(p, k);
      var i :| 0 <= i < |p| && p[i] == Folded(k, First(p, k)) && forall j | 0 <= j < i :: p[j].key != k;
      assert h[i] == Folded(k, First(h, k));
      forall j | 0 <= j < i ensures h[j].key != k { assert h[j] == p[j]; }
    } else {
      var i := |h| - 1;
      forall j | 0 <= j < i ensures h[j].key != k {
        assert h[j] == p[j];
        InDistinct(p, j);
      }
      assert h[i] == Folded(k, First(h, k));
    }
  }

  lemma {:induction false} InDistinct(h: seq<Folded>, i: nat)
    requires i < |h|
    ensures h[i].key in Distinct(h)
  {
    if i < |h| - 1 {
      assert h[..|h| - 1][i] == h[i];
      InDistinct(h[..|h| - 1], i);
    }
  }

  lemma {:induction false} CountAbsent(h: seq<Folded>, k: nat)
    requires k !in Distinct(h)
    ensures Count(h, k) == 0
  {
    if h != [] {
      CountAbsent(h[..|h| - 1], k);
    }
  }

  function SumCounts(h: seq<Folded>, keys: seq<nat>): nat {
    if keys == [] then 0 else Count(h, keys[0]) + SumCounts(h, keys[1..])
  }

  lemma {:induction false} SumAfterFold(h: seq<Folded>, f: Folded, keys: seq<nat>)
    requires forall i, j | 0 <= i < j < |keys| :: keys[i] != keys[j]
    ensures SumCounts(h + [f], keys) == SumCounts(h, keys) + if f.key in keys then 1 else 0
  {
    assert (h + [f])[..|h|] == h;
    if keys != [] { SumAfterFold(h, f, keys[1..]); }
  }

  lemma {:induction false} SumAppend(h: seq<Folded>, keys: seq<nat>, k: nat)
    ensures SumCounts(h, keys + [k]) == SumCounts(h, keys) + Count(h, k)
  {
    if keys == [] {
      assert [k][1..] == [];
      assert SumCounts(h, [k]) == Count(h, k) + SumCounts(h, []);
      assert keys + [k] == [k];
    } else {
      assert (keys + [k])[1..] == keys[1..] + [k];
      SumAppend(h, keys[1..], k);
    }
  }

  /** Every fold is in exactly one recorded bucket or discarded. */
  lemma {:induction false} CountsConserve(h: seq<Folded>, max: nat)
    ensures SumCounts(h, Admitted(h, max)) + Discarded(h, max) == |h|
  {
    if h != [] {
      var p, f := h[..|h| - 1], h[|h| - 1];
      assert h == p + [f];
      CountsConserve(p, max);
      AdmittedGrows(p, f, max);
      DistinctHasNoDuplicates(h);
      var a, b := Admitted(p, max), Admitted(h, max);
      SumAfterFold(p, f, b);
      if b != a {
        assert a == Distinct(p);
        SumAppend(p, a, f.key);
        CountAbsent(p, f.key);
      }
    }
  }

  // ---------------------------------------------------------------- the fact

  predicate KeysIncreasing(bs: seq<FSBucket>) {
    forall i, j | 0 <= i < j < |bs| :: bs[i].key < bs[j].key
  }

  /** The bucket a history leaves under an admitted key: its total count and first inode. */
  predicate IsBucket(b: FSBucket, h: seq<Folded>, max: nat) {
    && b.key in Admitted(h, max)
    && b.count == Count(h, b.key)
    && b.example == DefaultRow(First(h, b.key))
  }

  /** bs records exactly the admitted keys, in key order. */
  ghost predicate Records(bs: seq<FSBucket>, h: seq<Folded>, max: nat) {
    && KeysIncreasing(bs)
    && (forall b :: b in bs <==> IsBucket(b, h, max))
  }

  lemma {:induction false} SameBuckets(a: seq<FSBucket>, b: seq<FSBucket>)
    requires KeysIncreasing(a) && KeysIncreasing(b)
    requires forall x :: x in a <==> x in b
    ensures a == b
  {
    if a == [] {
      Lex.NonemptyHasMember(b);
    } else {
      assert a[0] in b;
      assert b[0] in a;
      assert a == [a[0]] + a[1..] && b == [b[0]] + b[1..];
      forall x ensures x in a[1..] <==> x in b[1..] {
        if x in a[1..] { assert x in b; }
        if x in b[1..] { assert x in a; }
      }
      SameBuckets(a[1..], b[1..]);
    }
  }

  /** The fact is determined by the history. */
  lemma {:induction false} RecordsUnique(a: seq<FSBucket>, b: seq<FSBucket>, h: seq<Folded>, max: nat)
    requires Records(a, h, max) && Records(b, h, max)
    ensures a == b
  {
    SameBuckets(a, b);
  }

  function InsertBucket(b: FSBucket, bs: seq<FSBucket>): seq<FSBucket> {
    if bs == [] then [b]
    else if b.key < bs[0].key then [b] + bs
    else [bs[0]] + InsertBucket(b, bs[1..])
  }

  lemma {:induction false} InsertInserts(b: FSBucket, bs: seq<FSBucket>)
    requires KeysIncreasing(bs) && forall i | 0 <= i < |bs| :: bs[i].key != b.key
    ensures KeysIncreasing(InsertBucket(b, bs))
    ensures forall x :: x in InsertBucket(b, bs) <==> x in bs || x == b
  {
    if bs != [] {
      assert bs == [bs[0]] + bs[1..];
      if b.key > bs[0].key {
        InsertInserts(b, bs[1..]);
        FrontBucket(bs[0], InsertBucket(b, bs[1..]));
      }
    }
  }

  lemma {:induction false} FrontBucket(b: FSBucket, rest: seq<FSBucket>)
    requires KeysIncreasing(rest) && forall x | x in rest :: b.key < x.key
    ensures KeysIncreasing([b] + rest)
  {
  }

  /** The running count and first inode of one key. */
  ghost predicate BucketAt(h: seq<Folded>, k: nat, cell: (nat, FSRow)) {
    k in Distinct(h) && cell == (Count(h, k), DefaultRow(First(h, k)))
  }

  /** The running map of a tally that has folded h. */
  ghost predicate Holds(buckets: map<nat, (nat, FSRow)>, h: seq<Folded>, max: nat) {
    && |buckets| == |Admitted(h, max)|
    && (forall k :: k in buckets <==> k in Admitted(h, max))
    && (forall k | k in buckets :: BucketAt(h, k, buckets[k]))
  }

  /** A fold leaves the other keys' buckets alone. */
  lemma {:induction false} FoldOther(h: seq<Folded>, f: Folded, k: nat, cell: (nat, FSRow))
    requires BucketAt(h, k, cell) && k != f.key
    ensures BucketAt(h + [f], k, cell)
  {
    assert (h + [f])[..|h|] == h;
  }

  lemma {:induction false} FoldAgain(h: seq<Folded>, f: Folded, cell: (nat, FSRow))
    requires BucketAt(h, f.key, cell)
    ensures BucketAt(h + [f], f.key, (cell.0 + 1, cell.1))
  {
    assert (h + [f])[..|h|] == h;
  }

  lemma {:induction false} FoldFirst(h: seq<Folded>, f: Folded)
    requires f.key !in Distinct(h)
    ensures BucketAt(h + [f], f.key, (1, DefaultRow(f.fi)))
  {
    assert (h + [f])[..|h|] == h;
    CountAbsent(h, f.key);
  }

  lemma {:induction false} FoldDiscards(h: seq<Folded>, f: Folded, max: nat)
    ensures Discarded(h + [f], max) == Discarded(h, max) + if f.key in Admitted(h + [f], max) then 0 else 1
  {
    assert (h + [f])[..|h|] == h;
  }

  lemma {:induction false} OthersKept(buckets: map<nat, (nat, FSRow)>, h: seq<Folded>, f: Folded)
    requires forall k | k in buckets :: BucketAt(h, k, buckets[k])
    ensures forall k | k in buckets && k != f.key :: BucketAt(h + [f], k, buckets[k])
  {
    forall k | k in buckets && k != f.key ensures BucketAt(h + [f], k, buckets[k]) { FoldOther(h, f, k, buckets[k]); }
  }

  lemma {:induction false} FoldSeen(buckets: map<nat, (nat, FSRow)>, h: seq<Folded>, f: Folded, max: nat)
    requires Holds(buckets, h, max) && f.key in buckets
    ensures Holds(buckets[f.key := (buckets[f.key].0 + 1, buckets[f.key].1)], h + [f], max)
    ensures f.key in Admitted(h + [f], max)
  {
    AdmittedGrows(h, f, max);
    var after := buckets[f.key := (buckets[f.key].0 + 1, buckets[f.key].1)];
    assert after.Keys == buckets.Keys;
    OthersKept(buckets, h, f);
    FoldAgain(h, f, buckets[f.key]);
  }

  lemma {:induction false} FoldFull(buckets: map<nat, (nat, FSRow)>, h: seq<Folded>, f: Folded, max: nat)
    requires Holds(buckets, h, max) && f.key !in buckets && |buckets| >= max
    ensures Holds(buckets, h + [f], max)
    ensures f.key !in Admitted(h + [f], max)
  {
    AdmittedGrows(h, f, max);
    OthersKept(buckets, h, f);
  }

  lemma {:induction false} FoldNew(buckets: map<nat, (nat, FSRow)>, h: seq<Folded>, f: Folded, max: nat)
    requires Holds(buckets, h, max) && f.key !in buckets && |buckets| < max
    ensures Holds(buckets[f.key := (1, DefaultRow(f.fi))], h + [f], max)
    ensures f.key in Admitted(h + [f], max)
  {
    AdmittedGrows(h, f, max);
    var after := buckets[f.key := (1, DefaultRow(f.fi))];
    assert after.Keys == buckets.Keys + {f.key};
    OthersKept(buckets, h, f);
    FoldFirst(h, f);
  }

  /** The running map after one more fold: a known key is counted, a new one needs room. */
  function After(buckets: map<nat, (nat, FSRow)>, f: Folded, max: nat): map<nat, (nat, FSRow)> {
    if f.key in buckets then buckets[f.key := (buckets[f.key].0 + 1, buckets[f.key].1)]
    else if |buckets| >= max then buckets
    else buckets[f.key := (1, DefaultRow(f.fi))]
  }

  lemma {:induction false} FoldHolds(buckets: map<nat, (nat, FSRow)>, h: seq<Folded>, f: Folded, max: nat)
    requires Holds(buckets, h, max)
    ensures Holds(After(buckets, f, max), h + [f], max)
    ensures f.key in Admitted(h + [f], max) <==> f.key in buckets || |buckets| < max
  {
    if f.key in buckets { FoldSeen(buckets, h, f, max); }
    else if |buckets| >= max { FoldFull(buckets, h, f, max); }
    else { FoldNew(buckets, h, f, max); }
  }

  /** The running map of a whole history. */
  function Running(h: seq<Folded>, max: nat): map<nat, (nat, FSRow)> {
    if h == [] then map[] else After(Running(h[..|h| - 1], max), h[|h| - 1], max)
  }

  /** The map holds the admitted keys, each with its count and its first inode. */
  lemma {:induction false} RunningHolds(h: seq<Folded>, max: nat)
    ensures Holds(Running(h, max), h, max)
  {
    if h != [] {
      var p, f := h[..|h| - 1], h[|h| - 1];
      assert h == p + [f];
      RunningHolds(p, max);
      FoldHolds(Running(p, max), p, f, max);
    }
  }

  /** What a fold does to the map and to the count of discarded folds. */
  lemma {:induction false} FoldStep(h: seq<Folded>, f: Folded, max: nat)
    ensures Running(h + [f], max) == After(Running(h, max), f, max)
    ensures Discarded(h + [f], max) == Discarded(h, max) + if f.key in Running(h, max) || |Running(h, max)| < max then 0 else 1
    ensures f.key in Admitted(h + [f], max) <==> f.key in Running(h, max) || |Running(h, max)| < max
  {
    assert (h + [f])[..|h|] == h;
    RunningHolds(h, max);
    FoldHolds(Running(h, max), h, f, max);
    FoldDiscards(h, f, max);
  }

  /** Accumulates one tally during one walk. */
  class TallyState {
    var buckets: map<nat, (nat, FSRow)>
    var tallied: nat
    var dropped: nat
    const max: nat
    ghost var history: seq<Folded>

    ghost predicate Valid()
      reads this
    {
      && tallied == |history|
      && dropped == Discarded(history, max)
      && buckets == Running(history, max)
    }

    constructor (max: nat)
      ensures Valid() && this.max == max && history == []
    {
      this.max := max;
      buckets, tallied, dropped, history := map[], 0, 0, [];
    }

    /** Count one inode; the result says the keyspace cap discarded it. */
    method Fold(key: nat, fi: FileInfo) returns (discarded: bool)
      requires Valid()
      modifies this
      ensures Valid() && history == old(history) + [Folded(key, fi)]
      ensures discarded <==> key !in Admitted(history, max)
    {
      ghost var f := Folded(key, fi);
      FoldStep(history, f, max);
      history := history + [f];
      tallied := tallied + 1;
      discarded := false;
      if key in buckets {
        buckets := buckets[key := (buckets[key].0 + 1, buckets[key].1)];
      } else if |buckets| >= max {
        dropped := dropped + 1;
        discarded := true;
      } else {
        buckets := buckets[key := (1, DefaultRow(fi))];
      }
    }

    /** The buckets in key order, and the counters. */
    method AsFact(out: FSTally) returns (r: FSTally)
      requires Valid()
      ensures Records(r.buckets, history, max)
      ensures r == out.(buckets := r.buckets, inodesTallied := |history|, keysDropped := Discarded(history, max))
    {
      var bs := Sorted(buckets);
      RunningHolds(history, max);
      HeldIsRecorded(buckets, history, max, bs);
      r := out.(buckets := bs, inodesTallied := tallied, keysDropped := dropped);
    }
  }

  ghost predicate IsEntry(buckets: map<nat, (nat, FSRow)>, b: FSBucket) {
    b.key in buckets && buckets[b.key] == (b.count, b.example)
  }

  lemma {:induction false} HeldIsRecorded(buckets: map<nat, (nat, FSRow)>, h: seq<Folded>, max: nat, bs: seq<FSBucket>)
    requires Holds(buckets, h, max) && KeysIncreasing(bs) && forall b :: b in bs <==> IsEntry(buckets, b)
    ensures Records(bs, h, max)
  {
    forall b ensures b in bs <==> IsBucket(b, h, max) {
      if b.key in Admitted(h, max) { assert BucketAt(h, b.key, buckets[b.key]); }
    }
  }

  /** The entries of the map in key order. */
  method Sorted(buckets: map<nat, (nat, FSRow)>) returns (bs: seq<FSBucket>)
    ensures KeysIncreasing(bs) && forall b :: b in bs <==> IsEntry(buckets, b)
  {
    bs := [];
    var keys := buckets.Keys;
    while keys != {}
      invariant keys <= buckets.Keys
      invariant KeysIncreasing(bs)
      invariant forall b :: b in bs <==> IsEntry(buckets, b) && b.key !in keys
      decreases |keys|
    {
      var k :| k in keys;
      forall i | 0 <= i < |bs| ensures bs[i].key != k { assert bs[i] in bs; }
      InsertInserts(FSBucket(k, buckets[k].0, buckets[k].1), bs);
      bs := InsertBucket(FSBucket(k, buckets[k].0, buckets[k].1), bs);
      keys := keys - {k};
    }
  }

  /** sort.Search: the least index whose bucket key is not below key. */
  method Bucket(bs: seq<FSBucket>, key: nat) returns (r: Option<FSBucket>)
    requires KeysIncreasing(bs)
    ensures r.Some? ==> r.value in bs && r.value.key == key
    ensures r.None? ==> forall b | b in bs :: b.key != key
  {
    var i, j := 0, |bs|;
    while i < j
      invariant 0 <= i <= j <= |bs|
      invariant forall n | 0 <= n < i :: bs[n].key < key
      invariant forall n | j <= n < |bs| :: bs[n].key >= key
    {
      var h := (i + j) / 2;
      if bs[h].key >= key { j := h; } else { i := h + 1; }
    }
    if i < |bs| && bs[i].key == key { return Some(bs[i]); }
    return None;
  }

  function TotalOf(bs: seq<FSBucket>): nat {
    if bs == [] then 0 else TotalOf(bs[..|bs| - 1]) + bs[|bs| - 1].count
  }

  /** A sum over distinct keys does not depend on their order. */
  lemma {:induction false} SumAnyOrder(h: seq<Folded>, a: seq<nat>, b: seq<nat>)
    requires NoDuplicates(a) && NoDuplicates(b)
    requires forall k :: k in a <==> k in b
    ensures SumCounts(h, a) == SumCounts(h, b)
  {
    if a == [] {
      Lex.NonemptyHasMember(b);
    } else {
      assert a[0] in b;
      var j :| 0 <= j < |b| && b[j] == a[0];
      SameRest(a, b, j);
      SumAnyOrder(h, a[1..], b[..j] + b[j + 1..]);
      SumWithout(h, b, j);
    }
  }

  lemma {:induction false} SameRest(a: seq<nat>, b: seq<nat>, j: nat)
    requires NoDuplicates(a) && NoDuplicates(b) && a != [] && j < |b| && b[j] == a[0]
    requires forall k :: k in a <==> k in b
    ensures var rest := b[..j] + b[j + 1..]; NoDuplicates(a[1..]) && NoDuplicates(rest) && forall k :: k in a[1..] <==> k in rest
  {
    RemoveAt(b, j);
    RemoveAt(a, 0);
    assert a[..0] + a[1..] == a[1..];
    forall k ensures k in a[1..] <==> k in b[..j] + b[j + 1..] {
      assert k in a[..0] + a[1..] <==> k in a && k != a[0];
    }
  }

  lemma {:induction false} SumWithout(h: seq<Folded>, b: seq<nat>, j: nat)
    requires j < |b|
    ensures SumCounts(h, b) == Count(h, b[j]) + SumCounts(h, b[..j] + b[j + 1..])
  {
    SumSplit(h, b[..j], b[j..]);
    SumSplit(h, b[..j], b[j + 1..]);
    assert b == b[..j] + b[j..] && b[j..][1..] == b[j + 1..];
  }

  lemma {:induction false} RemoveAt(b: seq<nat>, j: nat)
    requires NoDuplicates(b) && j < |b|
    ensures NoDuplicates(b[..j] + b[j + 1..])
    ensures forall k :: k in b[..j] + b[j + 1..] <==> k in b && k != b[j]
  {
    var rest := b[..j] + b[j + 1..];
    forall k ensures k in rest <==> k in b && k != b[j] {
      if k in rest {
        var i :| 0 <= i < |rest| && rest[i] == k;
        assert k == b[if i < j then i else i + 1];
      }
      if k in b && k != b[j] {
        var i :| 0 <= i < |b| && b[i] == k;
        assert k == rest[if i < j then i else i - 1];
      }
    }
  }

  lemma {:induction false} SumSplit(h: seq<Folded>, a: seq<nat>, b: seq<nat>)
    ensures SumCounts(h, a + b) == SumCounts(h, a) + SumCounts(h, b)
  {
    if a == [] {
      assert a + b == b;
    } else {
      assert (a + b)[1..] == a[1..] + b;
      SumSplit(h, a[1..], b);
    }
  }

  function KeysOf(bs: seq<FSBucket>): (r: seq<nat>)
    ensures |r| == |bs| && forall i | 0 <= i < |bs| :: r[i] == bs[i].key
  {
    if bs == [] then [] else KeysOf(bs[..|bs| - 1]) + [bs[|bs| - 1].key]
  }

  lemma {:induction false} TotalIsSum(bs: seq<FSBucket>, h: seq<Folded>)
    requires forall b | b in bs :: b.count == Count(h, b.key)
    ensures TotalOf(bs) == SumCounts(h, KeysOf(bs))
  {
    if bs != [] {
      var p := bs[..|bs| - 1];
      TotalIsSum(p, h);
      SumSplit(h, KeysOf(p), [bs[|bs| - 1].key]);
      assert SumCounts(h, [bs[|bs| - 1].key]) == Count(h, bs[|bs| - 1].key);
    }
  }

  /** Conservation: what the buckets hold and what was discarded is every inode tallied. */
  lemma {:induction false} TotalConserves(bs: seq<FSBucket>, h: seq<Folded>, max: nat)
    requires Records(bs, h, max)
    ensures TotalOf(bs) + Discarded(h, max) == |h|
  {
    var keys := KeysOf(bs);
    forall k ensures k in keys <==> k in Admitted(h, max) {
      if k in keys {
        var i :| 0 <= i < |keys| && keys[i] == k;
        assert bs[i] in bs;
      }
      if k in Admitted(h, max) {
        var b := FSBucket(k, Count(h, k), DefaultRow(First(h, k)));
        assert b in bs;
        var i :| 0 <= i < |bs| && bs[i] == b;
        assert keys[i] == k;
      }
    }
    DistinctHasNoDuplicates(h);
    SumAnyOrder(h, keys, Admitted(h, max));
    TotalIsSum(bs, h);
    CountsConserve(h, max);
  }

  /** How many inodes fell into any bucket: of every history the buckets record, all but the discarded ones. */
  method Total(bs: seq<FSBucket>) returns (n: nat)
    ensures n == TotalOf(bs)
    ensures forall h, max | Records(bs, h, max) :: n + Discarded(h, max) == |h|
  {
    n := 0;
    for i := 0 to |bs|
      invariant n == TotalOf(bs[..i])
    {
      assert bs[..i + 1][..i] == bs[..i];
      n := n + bs[i].count;
    }
    assert bs[..|bs|] == bs;
    forall h, max | Records(bs, h, max) ensures n + Discarded(h, max) == |h| { TotalConserves(bs, h, max); }
  }

  // ---------------------------------------------------------------- what the counter of discards counts

  lemma {:induction false} NothingDiscarded(h: seq<Folded>, max: nat)
    requires |Distinct(h)| <= max
    ensures Discarded(h, max) == 0
  {
    if h != [] {
      NothingDiscarded(h[..|h| - 1], max);
      InDistinct(h, |h| - 1);
    }
  }

  lemma {:induction false} CountPresent(h: seq<Folded>, k: nat)
    requires k in Distinct(h)
    ensures Count(h, k) >= 1
  {
    if k in Distinct(h[..|h| - 1]) { CountPresent(h[..|h| - 1], k); }
  }

  /** A sum of positive counts is the number of keys exactly when every count is one. */
  lemma {:induction false} SumOfOnes(h: seq<Folded>, keys: seq<nat>)
    requires forall k | k in keys :: Count(h, k) >= 1
    ensures SumCounts(h, keys) >= |keys|
    ensures SumCounts(h, keys) == |keys| <==> forall k | k in keys :: Count(h, k) == 1
  {
    if keys != [] {
      assert forall k :: k in keys <==> k == keys[0] || k in keys[1..];
      SumOfOnes(h, keys[1..]);
    }
  }

  /** The counter of discards is the number of distinct keys left out exactly when each of those was met once. */
  lemma {:induction false} DroppedAreKeysExactlyWhen(h: seq<Folded>, max: nat)
    ensures Discarded(h, max) >= |Distinct(h)| - |Admitted(h, max)|
    ensures Discarded(h, max) == |Distinct(h)| - |Admitted(h, max)| <==>
              forall k | k in Distinct(h) && k !in Admitted(h, max) :: Count(h, k) == 1
  {
    var d, a := Distinct(h), Admitted(h, max);
    var out := d[|a|..];
    assert d == a + out;
    CountsConserve(h, max);
    CountsConserve(h, |d|);
    NothingDiscarded(h, |d|);
    SumSplit(h, a, out);
    DistinctHasNoDuplicates(h);
    forall k ensures k in out <==> k in d && k !in a {
      if k in out {
        var i :| 0 <= i < |out| && out[i] == k;
        assert d[|a| + i] == k;
      }
    }
    forall k | k in out ensures Count(h, k) >= 1 { CountPresent(h, k); }
    SumOfOnes(h, out);
  }

  /** The counter counts discarded folds; one unrecorded key met twice counts twice. */
  lemma {:induction false} DroppedCountsFoldsNotKeys(fi: FileInfo)
    ensures var h := [Folded(1, fi), Folded(2, fi), Folded(2, fi)];
            Discarded(h, 1) == 2 && |Distinct(h)| - |Admitted(h, 1)| == 1
  {
    var h := [Folded(1, fi), Folded(2, fi), Folded(2, fi)];
    assert h[..2] == [Folded(1, fi), Folded(2, fi)];
    assert h[..2][..1] == [Folded(1, fi)] && [Folded(1, fi)][..0] == [];
    assert Distinct([Folded(1, fi)]) == [1];
    assert Distinct(h[..2]) == [1, 2] && Distinct(h) == [1, 2];
    assert Admitted(h, 1) == [1] && Admitted(h[..2], 1) == [1];
    assert Discarded([Folded(1, fi)], 1) == 0;
    assert Discarded(h[..2], 1) == 1;
  }
}
