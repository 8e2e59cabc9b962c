/** The content-addressed store of raw sources (internal/bundle/evidence.go). */
module Evidence {
  import opened Basics
  import opened Ids

  /** Distinct sources by digest, and the names of those that were cut at the read cap. */
  datatype Store = Store(blobs: map<ID, Blob>, truncated: set<ID>)

  /** The manifest's summary of a store. */
  datatype Index = Index(count: nat, totalBytes: nat, truncatedSources: seq<ID>)

  /** Every blob is filed under its own digest. */
  ghost predicate Addressed(digest: Blob -> ID, s: Store) {
    forall sum | sum in s.blobs :: digest(s.blobs[sum]) == sum
  }

  /** The bytes of all blobs together. */
  ghost function TotalSize(blobs: map<ID, Blob>): nat
    decreases blobs.Keys
  {
    if blobs == map[] then 0
    else
      var k :| k in blobs;
      blobs[k].Size() + TotalSize(blobs - {k})
  }

  /** The total does not depend on which blob is counted first. */
  lemma {:induction false} TotalSizeWithout(blobs: map<ID, Blob>, x: ID)
    requires x in blobs
    ensures TotalSize(blobs) == blobs[x].Size() + TotalSize(blobs - {x})
    decreases blobs.Keys
  {
    var k :| k in blobs && TotalSize(blobs) == blobs[k].Size() + TotalSize(blobs - {k});
    if k != x {
      TotalSizeWithout(blobs - {k}, x);
      TotalSizeWithout(blobs - {x}, k);
      assert blobs - {k} - {x} == blobs - {x} - {k};
    }
  }

  class EvidenceStore {
    const digest: Blob -> ID
    const clean: ID -> ID
    var blobs: map<ID, Blob>
    var truncated: map<ID, bool>

    function Contents(): Store
      reads this
    {
      Store(blobs, truncated.Keys)
    }

    ghost predicate Valid()
      reads this
    {
      Addressed(digest, Contents())
    }

    constructor (digest: Blob -> ID, clean: ID -> ID)
      ensures Valid() && Contents() == Store(map[], {})
      ensures this.digest == digest && this.clean == clean
    {
      this.digest, this.clean := digest, clean;
      blobs, truncated := map[], map[];
    }

    /** Store data unless its digest is already there. */
    method Add(data: Blob) returns (sum: ID)
      requires Valid()
      modifies this`blobs
      ensures Valid() && sum == digest(data) && blobs == Added(digest, old(blobs), data)
    {
      sum := digest(data);
      if sum !in blobs { blobs := blobs[sum := data]; }
    }

    method MarkTruncated(source: ID)
      requires Valid()
      modifies this`truncated
      ensures Valid() && Contents() == old(Contents()).(truncated := old(Contents()).truncated + {clean(source)})
    {
      truncated := truncated[clean(source) := true];
    }

    method Digests() returns (out: seq<ID>)
      ensures Lists(out, blobs.Keys)
    {
      out := SortedKeys(blobs.Keys);
    }

    method TotalBytes() returns (total: nat)
      ensures total == TotalSize(blobs)
    {
      total := 0;
      var todo := blobs.Keys;
      while todo != {}
        invariant todo <= blobs.Keys
        invariant total + TotalSize(Only(blobs, todo)) == TotalSize(blobs)
        decreases todo
      {
        var k :| k in todo;
        TotalSizeWithout(Only(blobs, todo), k);
        assert Only(blobs, todo) - {k} == Only(blobs, todo - {k});
        total := total + blobs[k].Size();
        todo := todo - {k};
      }
    }

    /** The summary Write puts into the manifest. */
    method Summary() returns (i: Index)
      ensures IsIndex(Contents(), i)
    {
      var total := TotalBytes();
      var sources := SortedKeys(truncated.Keys);
      i := Index(|blobs|, total, sources);
    }
  }

  ghost function Only(blobs: map<ID, Blob>, keys: set<ID>): (r: map<ID, Blob>)
    ensures keys == blobs.Keys ==> r == blobs
  {
    map k | k in blobs && k in keys :: blobs[k]
  }

  ghost predicate IsIndex(s: Store, i: Index) {
    i.count == |s.blobs| && i.totalBytes == TotalSize(s.blobs) && Lists(i.truncatedSources, s.truncated)
  }

  /** What Add makes of a store. */
  function Added(digest: Blob -> ID, blobs: map<ID, Blob>, data: Blob): map<ID, Blob> {
    if digest(data) in blobs then blobs else blobs[digest(data) := data]
  }

  function AddedAll(digest: Blob -> ID, sources: seq<Blob>): map<ID, Blob> {
    if sources == [] then map[]
    else
      var n := |sources| - 1;
      Added(digest, AddedAll(digest, sources[..n]), sources[n])
  }

  /** Whatever order the collectors register their sources in, a citation finds exactly its bytes. */
  lemma {:induction false} CitationsResolve(digest: Blob -> ID, sources: seq<Blob>)
    requires forall x, y | x in sources && y in sources && digest(x) == digest(y) :: x == y
    ensures AddedAll(digest, sources).Keys == set x | x in sources :: digest(x)
    ensures forall x | x in sources :: AddedAll(digest, sources)[digest(x)] == x
  {
    if sources != [] {
      var n := |sources| - 1;
      assert sources == sources[..n] + [sources[n]];
      CitationsResolve(digest, sources[..n]);
      OneMoreSource(digest, sources[..n], sources[n], AddedAll(digest, sources[..n]));
    }
  }

  lemma {:induction false} OneMoreSource(digest: Blob -> ID, before: seq<Blob>, data: Blob, blobs: map<ID, Blob>)
    requires forall x, y | x in before + [data] && y in before + [data] && digest(x) == digest(y) :: x == y
    requires blobs.Keys == (set x | x in before :: digest(x)) && forall x | x in before :: blobs[digest(x)] == x
    ensures Added(digest, blobs, data).Keys == set x | x in before + [data] :: digest(x)
    ensures forall x | x in before + [data] :: Added(digest, blobs, data)[digest(x)] == x
  {
    assert forall x :: x in before + [data] <==> x in before || x == data;
    assert data in before + [data];
  }
}
