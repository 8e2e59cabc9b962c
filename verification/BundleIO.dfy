/** The writer and the verifying reader (internal/bundle/bundle.go). */
module BundleIO {
  import opened Basics
  import opened Ids
  import opened FactSet
  import opened Evidence
  import opened BundleFormat
  import Lex

  datatype WriteError = NoFactSet | BadBundleID | BadCatalogVersion | CannotEncode(member: ID)

  // ---------------------------------------------------------------- the writer

  /** One member and one index entry per fact, or the name of the first that cannot be encoded. */
  method FactMembers(c: Codecs, facts: Set) returns (members: seq<Member>, index: seq<FactRef>, failed: Option<ID>)
    requires facts.Contents().Valid()
    ensures failed.None? ==> AreFactMembers(c, facts.Contents(), SortedList(facts.facts.Keys), members, index)
    ensures failed.Some? ==> exists id :: id in facts.facts && forall data :: !IsFactData(c, facts.facts[id], data)
  {
    var ids := facts.IDs();
    ListsUnique(ids, SortedList(facts.facts.Keys), facts.facts.Keys);
    members, index, failed := [], [], None;
    for k := 0 to |ids|
      invariant AreFactMembers(c, facts.Contents(), ids[..k], members, index)
    {
      assert ids[k] in ids;
      var f := facts.facts[ids[k]];
      var data := c.encodeFact(f);
      if data.None? { return members, index, Some(FactName(ids[k])); }
      var doc := c.doc.encode(FactDoc(ids[k], f.version, data.value));
      if doc.None? { return members, index, Some(FactName(ids[k])); }
      assert IsFactData(c, f, doc.value);
      members := members + [Member(FactName(ids[k]), doc.value)];
      index := index + [FactRef(ids[k], f.version, FactName(ids[k]), c.digest(doc.value))];
    }
    assert ids[..|ids|] == ids;
  }

  lemma {:induction false} OneMoreBlob(blobs: map<ID, Blob>, sums: seq<ID>, k: nat, members: seq<Member>)
    requires k < |sums| && sums[k] in blobs && AreBlobMembers(blobs, sums[..k], members)
    ensures AreBlobMembers(blobs, sums[..k + 1], members + [Member(BlobName(sums[k]), blobs[sums[k]])])
  {
    assert forall i | 0 <= i < k :: sums[..k + 1][i] == sums[..k][i];
  }

  /** One member per stored blob, named for its digest. */
  method EvidenceMembers(store: EvidenceStore) returns (members: seq<Member>)
    ensures AreBlobMembers(store.blobs, SortedList(store.blobs.Keys), members)
  {
    var sums := store.Digests();
    ListsUnique(sums, SortedList(store.blobs.Keys), store.blobs.Keys);
    members := [];
    for k := 0 to |sums|
      invariant AreBlobMembers(store.blobs, sums[..k], members)
    {
      assert sums[k] in sums;
      OneMoreBlob(store.blobs, sums, k, members);
      members := members + [Member(BlobName(sums[k]), store.blobs[sums[k]])];
    }
    assert sums[..|sums|] == sums;
  }

  method Digests(c: Codecs, members: seq<Member>) returns (digests: map<ID, ID>)
    ensures digests == DigestsOf(c, members)
  {
    digests := map[];
    for k := 0 to |members|
      invariant digests == DigestsOf(c, members[..k])
    {
      assert members[..k + 1][..k] == members[..k];
      digests := digests[members[k].name := c.digest(members[k].data)];
    }
    assert members[..|members|] == members;
  }

  /** The bundle a writer is handed, as a value. */
  ghost function Handed(manifest: Manifest, meta: Meta, facts: Set, store: EvidenceStore?): Bundle
    reads facts, if store == null then {} else {store}
  {
    Bundle(manifest, meta, facts.Contents(), if store == null then None else Some(store.Contents()))
  }

  method Write(c: Codecs, manifest: Manifest, meta: Meta, facts: Set?, store: EvidenceStore?) returns (r: Result<Parts, WriteError>)
    requires facts != null ==> facts.Contents().Valid()
    ensures r.Ok? ==> facts != null && IsWriting(c, Handed(manifest, meta, facts, store), r.value)
    ensures r.Err? ==> facts == null || forall p :: !IsWriting(c, Handed(manifest, meta, facts, store), p)
    ensures r.Err? && !r.error.CannotEncode? ==> facts == null || !ValidBundleID(manifest.bundleID) || manifest.catalogVersion < 1
  {
    if facts == null { return Err(NoFactSet); }
    if !ValidBundleID(manifest.bundleID) { return Err(BadBundleID); }
    if manifest.catalogVersion < 1 { return Err(BadCatalogVersion); }
    ghost var b := Handed(manifest, meta, facts, store);
    var factMembers, index, failed := FactMembers(c, facts);
    if failed.Some? {
      UnencodableFact(c, b);
      return Err(CannotEncode(failed.value));
    }
    var summary: Option<Index>, evidence: seq<Member> := None, [];
    if store != null {
      var s := store.Summary();
      summary := Some(s);
      evidence := EvidenceMembers(store);
    }
    var m := manifest.(schema := SCHEMA, toolName := TOOL, metaMember := META, errorsMember := ERRORS,
      facts := index, evidence := summary, integrityMember := INTEGRITY, algorithm := SHA256);
    NoBlobs();
    var manifestData, metaData := c.manifest.encode(m), c.meta.encode(meta);
    var errs := facts.Errors();
    var errorsData := c.errors.encode(errs);
    ghost var g := Gathered(factMembers, index, evidence, summary, errs);
    assert Gathers(c, b, g);
    if manifestData.None? || metaData.None? || errorsData.None? { UnencodablePart(c, b, g); }
    if manifestData.None? { return Err(CannotEncode(MANIFEST)); }
    if metaData.None? { return Err(CannotEncode(META)); }
    if errorsData.None? { return Err(CannotEncode(ERRORS)); }
    var p := Parts(factMembers, index, evidence, summary, errs, manifestData.value, metaData.value, errorsData.value, Blob([]));
    var digests := Digests(c, p.Sealed());
    var integrityData := c.integrity.encode(IntegrityDoc(SHA256, digests));
    if integrityData.None? {
      UnencodableIntegrity(c, b, g, p);
      return Err(CannotEncode(INTEGRITY));
    }
    return Ok(p.(integrityData := integrityData.value));
  }

  /** What the writer has gathered before it encodes the fixed members. */
  datatype Gathered = Gathered(facts: seq<Member>, index: seq<FactRef>, evidence: seq<Member>, summary: Option<Index>, errors: seq<Error>)

  ghost predicate Gathers(c: Codecs, b: Bundle, g: Gathered) {
    && AreFactMembers(c, b.facts, SortedList(b.facts.facts.Keys), g.facts, g.index)
    && AreBlobMembers(BlobsOf(b), SortedList(BlobsOf(b).Keys), g.evidence)
    && (b.evidence.Some? <==> g.summary.Some?)
    && (b.evidence.Some? ==> IsIndex(b.evidence.value, g.summary.value))
    && AreErrors(b.facts, g.errors)
  }

  function GatheredOf(p: Parts): Gathered { Gathered(p.facts, p.index, p.evidence, p.summary, p.errors) }

  /** A bundle leaves no choice in what is gathered from it. */
  lemma {:induction false} GathersOnce(c: Codecs, b: Bundle, x: Gathered, y: Gathered)
    requires Gathers(c, b, x) && Gathers(c, b, y)
    ensures x == y
  {
    assert x.facts == y.facts && x.index == y.index;
    assert x.evidence == y.evidence;
    if b.evidence.Some? {
      ListsUnique(x.summary.value.truncatedSources, y.summary.value.truncatedSources, b.evidence.value.truncated);
    }
    SameErrors(b.facts, x.errors, y.errors);
  }

  lemma {:induction false} SameErrors(l: Ledger, x: seq<Error>, y: seq<Error>)
    requires AreErrors(l, x) && AreErrors(l, y)
    ensures x == y
  {
    var a := seq(|x|, i requires 0 <= i < |x| => x[i].fact);
    var b := seq(|y|, i requires 0 <= i < |y| => y[i].fact);
    ListsUnique(a, b, l.errors.Keys);
    assert |x| == |a| && |y| == |b|;
    forall i | 0 <= i < |x| ensures x[i] == y[i] {
      assert a[i] == b[i] && x[i] in x && y[i] in y;
    }
  }

  /** A fact that cannot be encoded leaves nothing to write. */
  lemma {:induction false} UnencodableFact(c: Codecs, b: Bundle)
    requires exists id :: id in b.facts.facts && forall data :: !IsFactData(c, b.facts.facts[id], data)
    ensures forall p :: !IsWriting(c, b, p)
  {
    var id :| id in b.facts.facts && forall data :: !IsFactData(c, b.facts.facts[id], data);
    var ids := SortedList(b.facts.facts.Keys);
    assert id in ids;
    var i :| 0 <= i < |ids| && ids[i] == id;
    forall p ensures !IsWriting(c, b, p) {
      assert |p.facts| == |ids| ==> !IsFactData(c, b.facts.facts[ids[i]], p.facts[i].data);
    }
  }

  /** Nor does a fixed member that cannot. */
  lemma {:induction false} UnencodablePart(c: Codecs, b: Bundle, g: Gathered)
    requires Gathers(c, b, g)
    requires c.manifest.encode(Filled(b, g.index, g.summary).manifest).None? || c.meta.encode(b.meta).None? || c.errors.encode(g.errors).None?
    ensures forall p :: !IsWriting(c, b, p)
  {
    forall p ensures !IsWriting(c, b, p) {
      if IsWriting(c, b, p) { GathersOnce(c, b, g, GatheredOf(p)); }
    }
  }

  lemma {:induction false} UnencodableIntegrity(c: Codecs, b: Bundle, g: Gathered, q: Parts)
    requires Gathers(c, b, g) && GatheredOf(q) == g
    requires c.manifest.encode(Filled(b, g.index, g.summary).manifest) == Some(q.manifestData)
    requires c.meta.encode(b.meta) == Some(q.metaData) && c.errors.encode(g.errors) == Some(q.errorsData)
    requires c.integrity.encode(IntegrityDoc(SHA256, DigestsOf(c, q.Sealed()))).None?
    ensures forall p :: !IsWriting(c, b, p)
  {
    forall p ensures !IsWriting(c, b, p) {
      if IsWriting(c, b, p) { GathersOnce(c, b, g, GatheredOf(p)); }
    }
  }

  lemma {:induction false} NoBlobs()
    ensures AreBlobMembers(NO_BLOBS, SortedList(NO_BLOBS.Keys), [])
  {
    var l := SortedList(NO_BLOBS.Keys);
    assert forall x :: x in l <==> x in NO_BLOBS.Keys;
    Lex.NonemptyHasMember(l);
  }

  // ---------------------------------------------------------------- the reader

  datatype ReadError = Malformed | TooLarge | IntegrityFailure(member: ID)

  function FirstEntries(a: Archive, k: nat): Archive
    requires k <= |a.entries|
  {
    Archive(a.entries[..k], false)
  }

  lemma {:induction false} MembersAreEntries(entries: seq<Entry>, name: ID)
    ensures name in MembersOf(entries) <==> exists i :: 0 <= i < |entries| && entries[i].name == name
  {
    if entries != [] {
      var n := |entries| - 1;
      MembersAreEntries(entries[..n], name);
      assert forall i | 0 <= i < n :: entries[..n][i] == entries[i];
    }
  }

  /** One more entry can be read exactly when it is sound, new and within the budget. */
  lemma {:induction false} OneMoreEntry(a: Archive, k: nat)
    requires k < |a.entries| && Readable(FirstEntries(a, k))
    ensures Readable(FirstEntries(a, k + 1)) <==>
              && a.entries[k].regular && ValidMemberName(a.entries[k].name)
              && a.entries[k].name !in MembersOf(a.entries[..k])
              && SizeOf(a.entries[..k]) + a.entries[k].data.Size() <= MAX_DECOMPRESSED_BYTES
    ensures MembersOf(a.entries[..k + 1]) == MembersOf(a.entries[..k])[a.entries[k].name := a.entries[k].data]
    ensures SizeOf(a.entries[..k + 1]) == SizeOf(a.entries[..k]) + a.entries[k].data.Size()
  {
    var before, after := a.entries[..k], a.entries[..k + 1];
    assert after[..k] == before && after[k] == a.entries[k];
    MembersAreEntries(before, a.entries[k].name);
    assert forall i | 0 <= i < k :: after[i] == before[i];
  }

  lemma {:induction false} FirstEntriesReadable(a: Archive, k: nat)
    requires k <= |a.entries| && Readable(a)
    ensures Readable(FirstEntries(a, k))
  {
    SizeGrows(a.entries, k);
  }

  lemma {:induction false} SizeGrows(entries: seq<Entry>, k: nat)
    requires k <= |entries|
    ensures SizeOf(entries[..k]) <= SizeOf(entries)
    decreases |entries|
  {
    if k < |entries| {
      SizeGrows(entries[..|entries| - 1], k);
      assert entries[..|entries| - 1][..k] == entries[..k];
    } else {
      assert entries[..k] == entries;
    }
  }

  /** Untar into memory, refusing anything but distinct, safely named regular files within the budget. */
  method ReadArchive(a: Archive) returns (r: Result<map<ID, Blob>, ReadError>)
    ensures r.Ok? <==> Readable(a)
    ensures r.Ok? ==> r.value == MembersOf(a.entries)
  {
    var members: map<ID, Blob> := map[];
    var remaining := MAX_DECOMPRESSED_BYTES;
    for k := 0 to |a.entries|
      invariant Readable(FirstEntries(a, k))
      invariant remaining == MAX_DECOMPRESSED_BYTES - SizeOf(a.entries[..k])
      invariant members == MembersOf(a.entries[..k])
    {
      var e := a.entries[k];
      OneMoreEntry(a, k);
      if Readable(a) { FirstEntriesReadable(a, k + 1); }
      if !e.regular || !ValidMemberName(e.name) || e.name in members { return Err(Malformed); }
      if e.data.Size() > remaining { return Err(TooLarge); }
      remaining := remaining - e.data.Size();
      members := members[e.name := e.data];
    }
    assert a.entries[..|a.entries|] == a.entries;
    if a.broken { return Err(Malformed); }
    return Ok(members);
  }

  /** Check every member against integrity.json, in both directions. */
  method VerifyIntegrity(c: Codecs, members: map<ID, Blob>) returns (r: Result<(), ReadError>)
    ensures r.Ok? <==> Verified(c, members)
    ensures r.Err? ==> r.error.Malformed? || r.error.IntegrityFailure?
  {
    if INTEGRITY !in members { return Err(Malformed); }
    var doc := c.integrity.decode(members[INTEGRITY]);
    if doc.None? || doc.value.algorithm != SHA256 { return Err(Malformed); }
    var recorded := doc.value.members;
    var wrong := FirstMismatch(c.digest, members, recorded);
    if wrong.Some? { return Err(IntegrityFailure(wrong.value)); }
    wrong := FirstMissing(members, recorded);
    if wrong.Some? { return Err(IntegrityFailure(wrong.value)); }
    return Ok(());
  }

  /** The first member, by name, that is not recorded under its digest. */
  method FirstMismatch(digest: Blob -> ID, members: map<ID, Blob>, recorded: map<ID, ID>) returns (wrong: Option<ID>)
    ensures wrong.None? <==> forall name | name in members && name != INTEGRITY :: name in recorded && recorded[name] == digest(members[name])
  {
    var names := SortedKeys(members.Keys);
    for k := 0 to |names|
      invariant forall i | 0 <= i < k && names[i] != INTEGRITY ::
                  names[i] in members && names[i] in recorded && recorded[names[i]] == digest(members[names[i]])
    {
      assert names[k] in names;
      if names[k] != INTEGRITY && (names[k] !in recorded || recorded[names[k]] != digest(members[names[k]])) { return Some(names[k]); }
    }
    assert forall name | name in members :: name in names;
    return None;
  }

  /** The first recorded name that is not a member. */
  method FirstMissing(members: map<ID, Blob>, recorded: map<ID, ID>) returns (missing: Option<ID>)
    ensures missing.None? <==> forall name | name in recorded :: name in members
  {
    var claimed := SortedKeys(recorded.Keys);
    for k := 0 to |claimed|
      invariant forall i | 0 <= i < k :: claimed[i] in members
    {
      assert claimed[k] in claimed;
      if claimed[k] !in members { return Some(claimed[k]); }
    }
    assert forall name | name in recorded :: name in claimed;
    return None;
  }

  /** Decode the indexed facts into a fresh set and look for facts nobody indexed. */
  method ReadFacts(c: Codecs, refs: seq<FactRef>, members: map<ID, Blob>) returns (r: Result<Set, ReadError>)
    ensures r.Ok? ==> fresh(r.value) && r.value.Contents().Valid()
    ensures r.Ok? ==> ReadRefs(c, refs, members, EMPTY) == Some(r.value.Contents()) && AllIndexed(refs, members)
    ensures r.Err? ==> ReadRefs(c, refs, members, EMPTY) == None || !AllIndexed(refs, members)
  {
    var facts := new Set();
    var indexed: set<ID> := {};
    for k := 0 to |refs|
      invariant fresh(facts) && facts.Contents().Valid()
      invariant ReadRefs(c, refs[k..], members, facts.Contents()) == ReadRefs(c, refs, members, EMPTY)
      invariant forall name :: name in indexed <==> exists i :: 0 <= i < k && refs[i].member == name
    {
      assert refs[k..][1..] == refs[k + 1..];
      var ref := refs[k];
      if ref.member !in members { return Err(Malformed); }
      indexed := indexed + {ref.member};
      if c.digest(members[ref.member]) != ref.sha256 { return Err(IntegrityFailure(ref.member)); }
      var doc := c.doc.decode(members[ref.member]);
      if doc.None? || doc.value.id != ref.id || doc.value.factVersion != ref.factVersion { return Err(Malformed); }
      var f := DecodeDoc(c, doc.value);
      if f.None? { return Err(Malformed); }
      facts.Put(f.value);
    }
    var names := SortedKeys(members.Keys);
    for k := 0 to |names|
      invariant forall i | 0 <= i < k && HasPrefix(names[i], FACTS_PREFIX) :: names[i] in indexed
    {
      assert names[k] in names;
      if HasPrefix(names[k], FACTS_PREFIX) && names[k] !in indexed { return Err(Malformed); }
    }
    assert forall name | name in members :: name in names;
    return Ok(facts);
  }

  lemma {:induction false} SumOfName(name: ID)
    ensures HasPrefix(name, EVIDENCE_PREFIX) && SumOf(name).Some? ==> BlobName(SumOf(name).value) == name
  {
    if HasPrefix(name, EVIDENCE_PREFIX) && SumOf(name).Some? {
      var rest := name.name[|EVIDENCE_PREFIX|..];
      var sum := SumOf(name).value.name;
      assert rest == sum + EVIDENCE_SUFFIX;
      assert name.name == EVIDENCE_PREFIX + rest;
      assert EVIDENCE_PREFIX + rest == EVIDENCE_PREFIX + sum + EVIDENCE_SUFFIX;
    }
  }

  lemma {:induction false} NameOfSum(sum: ID)
    ensures HasPrefix(BlobName(sum), EVIDENCE_PREFIX) && SumOf(BlobName(sum)) == Some(sum)
  {
    var name := BlobName(sum).name;
    assert name == EVIDENCE_PREFIX + (sum.name + EVIDENCE_SUFFIX);
    var rest := name[|EVIDENCE_PREFIX|..];
    assert rest == sum.name + EVIDENCE_SUFFIX;
    assert rest[|sum.name|..] == EVIDENCE_SUFFIX && rest[..|sum.name|] == sum.name;
  }

  /** The blobs among the names seen so far. */
  ghost predicate BlobsSoFar(c: Codecs, members: map<ID, Blob>, seen: set<ID>, blobs: map<ID, Blob>) {
    && (forall name | name in seen && name in members && HasPrefix(name, EVIDENCE_PREFIX) ::
          SumOf(name).Some? && IsSHA256(SumOf(name).value) && c.digest(members[name]) == SumOf(name).value)
    && (forall sum :: sum in blobs <==> BlobName(sum) in members && BlobName(sum) in seen)
    && (forall sum | sum in blobs :: blobs[sum] == members[BlobName(sum)])
  }

  lemma {:induction false} OneMoreName(c: Codecs, members: map<ID, Blob>, seen: set<ID>, blobs: map<ID, Blob>, name: ID)
    requires BlobsSoFar(c, members, seen, blobs) && name in members && name !in seen
    ensures !HasPrefix(name, EVIDENCE_PREFIX) ==> BlobsSoFar(c, members, seen + {name}, blobs)
    ensures HasPrefix(name, EVIDENCE_PREFIX) && SumOf(name).Some? && IsSHA256(SumOf(name).value) && c.digest(members[name]) == SumOf(name).value ==>
              BlobsSoFar(c, members, seen + {name}, Added(c.digest, blobs, members[name]))
  {
    SumOfName(name);
    forall sum ensures BlobName(sum) == name ==> HasPrefix(name, EVIDENCE_PREFIX) && SumOf(name) == Some(sum) {
      NameOfSum(sum);
    }
  }

  /** Rebuild the evidence store; every blob must be the bytes its name promises. */
  method ReadBlobs(c: Codecs, members: map<ID, Blob>) returns (r: Result<EvidenceStore, ReadError>)
    ensures r.Ok? ==> fresh(r.value) && r.value.Valid() && r.value.digest == c.digest && r.value.clean == c.clean
    ensures r.Ok? ==> BlobNamesOk(c, members) && AreBlobs(c, members, r.value.blobs) && r.value.Contents().truncated == {}
    ensures r.Err? ==> !BlobNamesOk(c, members)
  {
    var store := new EvidenceStore(c.digest, c.clean);
    var names := SortedKeys(members.Keys);
    for k := 0 to |names|
      invariant fresh(store) && store.Valid() && store.Contents().truncated == {}
      invariant BlobsSoFar(c, members, Members(names[..k]), store.blobs)
    {
      MembersStep(names, k);
      assert names[k] in names;
      OneMoreName(c, members, Members(names[..k]), store.blobs, names[k]);
      if HasPrefix(names[k], EVIDENCE_PREFIX) {
        var sum := SumOf(names[k]);
        if sum.None? || !IsSHA256(sum.value) { return Err(Malformed); }
        if c.digest(members[names[k]]) != sum.value { return Err(IntegrityFailure(names[k])); }
        var _ := store.Add(members[names[k]]);
      }
    }
    assert names[..|names|] == names && Members(names) == members.Keys;
    return Ok(store);
  }

  method MarkAll(store: EvidenceStore, sources: seq<ID>)
    requires store.Valid() && store.Contents().truncated == {}
    modifies store`truncated
    ensures store.Valid() && store.Contents().truncated == set src | src in sources :: store.clean(src)
  {
    for k := 0 to |sources|
      invariant store.Valid() && store.blobs == old(store.blobs)
      invariant store.Contents().truncated == set src | src in sources[..k] :: store.clean(src)
    {
      assert sources[..k + 1] == sources[..k] + [sources[k]];
      store.MarkTruncated(sources[k]);
    }
    assert sources[..|sources|] == sources;
  }

  lemma {:induction false} SummaryDisagrees(c: Codecs, m: Manifest, members: map<ID, Blob>, blobs: map<ID, Blob>)
    requires AreBlobs(c, members, blobs) && m.evidence.Some?
    requires m.evidence.value.count != |blobs| || m.evidence.value.totalBytes != TotalSize(blobs)
    ensures forall e :: !IsEvidence(c, m, members, e)
  {
    forall e ensures !IsEvidence(c, m, members, e) {
      if e.Some? { SameBlobs(c, members, e.value.blobs, blobs); }
    }
  }

  lemma {:induction false} SameBlobs(c: Codecs, members: map<ID, Blob>, x: map<ID, Blob>, y: map<ID, Blob>)
    requires AreBlobs(c, members, y)
    ensures AreBlobs(c, members, x) ==> x == y
  {
    if AreBlobs(c, members, x) { assert forall sum :: sum in x <==> sum in y; }
  }

  method ReadEvidence(c: Codecs, m: Manifest, members: map<ID, Blob>) returns (r: Result<Option<Store>, ReadError>)
    ensures r.Ok? ==> IsEvidence(c, m, members, r.value)
    ensures r.Err? ==> forall e :: !IsEvidence(c, m, members, e)
  {
    var blobs := ReadBlobs(c, members);
    if blobs.Err? { return Err(blobs.error); }
    var store := blobs.value;
    if m.evidence.None? {
      if store.blobs == map[] { return Ok(None); }
      return Ok(Some(store.Contents()));
    }
    MarkAll(store, m.evidence.value.truncatedSources);
    var total := store.TotalBytes();
    if m.evidence.value.count != |store.blobs| || m.evidence.value.totalBytes != total {
      SummaryDisagrees(c, m, members, store.blobs);
      return Err(Malformed);
    }
    return Ok(Some(store.Contents()));
  }

  /** The one bundle an archive reads as, or an error exactly when there is none. */
  method Read(c: Codecs, a: Archive) returns (r: Result<Bundle, ReadError>)
    ensures r.Ok? ==> ReadsAs(c, a, r.value)
    ensures r.Err? ==> forall b :: !ReadsAs(c, a, b)
  {
    var archive := ReadArchive(a);
    if archive.Err? { return Err(archive.error); }
    var members := archive.value;
    var verified := VerifyIntegrity(c, members);
    if verified.Err? { return Err(verified.error); }
    if MANIFEST !in members { return Err(Malformed); }
    var manifest := c.manifest.decode(members[MANIFEST]);
    if manifest.None? { return Err(Malformed); }
    var meta := Some(NO_META);
    if META in members { meta := c.meta.decode(members[META]); }
    if meta.None? { return Err(Malformed); }
    var facts := ReadFacts(c, manifest.value.facts, members);
    if facts.Err? { return Err(facts.error); }
    var evidence := ReadEvidence(c, manifest.value, members);
    if evidence.Err? { return Err(evidence.error); }
    if ERRORS in members {
      var errs := c.errors.decode(members[ERRORS]);
      if errs.None? { return Err(Malformed); }
      ghost var before := facts.value.Contents();
      for k := 0 to |errs.value|
        invariant facts.value.Contents().Valid()
        invariant PutErrors(errs.value[k..], facts.value.Contents()) == PutErrors(errs.value, before)
      {
        assert errs.value[k..][1..] == errs.value[k + 1..];
        facts.value.PutError(errs.value[k]);
      }
    }
    return Ok(Bundle(manifest.value, meta.value, facts.value.Contents(), evidence.value));
  }
}
