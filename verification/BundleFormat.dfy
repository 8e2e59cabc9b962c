/** What a bundle is, what its archive holds, and when an archive can be read (internal/bundle/bundle.go). */
module BundleFormat {
  import opened Basics
  import opened Ids
  import opened FactSet
  import opened Evidence

  // ---------------------------------------------------------------- data

  datatype FactRef = FactRef(id: ID, factVersion: int, member: ID, sha256: ID)

  /** manifest.json; scan stands for the scan conditions and creation time, which are copied through. */
  datatype Manifest = Manifest(
    schema: ID, bundleID: ID, toolName: ID, toolVersion: ID, catalogVersion: int, scan: nat, redacted: bool,
    metaMember: ID, facts: seq<FactRef>, evidence: Option<Index>, errorsMember: ID,
    integrityMember: ID, algorithm: ID)

  datatype Meta = Meta(hostname: ID, osRelease: ID, kernel: ID, arch: ID)

  datatype FactDoc = FactDoc(id: ID, factVersion: int, data: Blob)

  datatype IntegrityDoc = IntegrityDoc(algorithm: ID, members: map<ID, ID>)

  /** evidence is absent when the scan kept none, which differs from an empty store. */
  datatype Bundle = Bundle(manifest: Manifest, meta: Meta, facts: Ledger, evidence: Option<Store>)

  datatype Member = Member(name: ID, data: Blob)

  /** One tar entry; an archive may also break off in the middle. */
  datatype Entry = Entry(regular: bool, name: ID, data: Blob)
  datatype Archive = Archive(entries: seq<Entry>, broken: bool)

  const MANIFEST := ID("manifest.json")
  const META := ID("meta.json")
  const ERRORS := ID("errors.json")
  const INTEGRITY := ID("integrity.json")
  const SCHEMA := ID("bundle/v1")
  const TOOL := ID("plumbline")
  const SHA256 := ID("sha256")
  const FACTS_PREFIX := "facts/"
  const FACTS_SUFFIX := ".json"
  const EVIDENCE_PREFIX := "evidence/"
  const EVIDENCE_SUFFIX := ".blob"
  const MAX_DECOMPRESSED_BYTES: nat := 0x1000_0000

  function FactName(id: ID): ID { ID(FACTS_PREFIX + id.name + FACTS_SUFFIX) }

  function BlobName(sum: ID): ID { ID(EVIDENCE_PREFIX + sum.name + EVIDENCE_SUFFIX) }

  predicate HasPrefix(s: ID, p: string) { p <= s.name }

  // ---------------------------------------------------------------- codecs

  /** json.Marshal and json.Unmarshal at one type. */
  datatype Codec<!T> = Codec(encode: T -> Option<Blob>, decode: Blob -> Option<T>)

  ghost predicate Inverse<T(!new)>(c: Codec<T>) {
    forall v, b :: c.encode(v) == Some(b) ==> c.decode(b) == Some(v)
  }

  /** A registered decoder: the version it understands and the Go type it builds. */
  datatype Decoder = Decoder(version: int, shape: ID)

  /** Everything this model does not look into. */
  datatype Codecs = Codecs(
    manifest: Codec<Manifest>, meta: Codec<Meta>, errors: Codec<seq<Error>>,
    integrity: Codec<IntegrityDoc>, doc: Codec<FactDoc>,
    encodeFact: Fact -> Option<Blob>, decodeFact: (ID, Blob) -> Option<Fact>,
    registry: map<ID, Decoder>, tally: Decoder, matches: Decoder,
    digest: Blob -> ID, clean: ID -> ID)

  ghost predicate CodecsInvert(c: Codecs) {
    Inverse(c.manifest) && Inverse(c.meta) && Inverse(c.errors) && Inverse(c.integrity) && Inverse(c.doc)
  }

  const TALLY_PREFIX := "fs.tally."
  const MATCHES_PREFIX := "fs."

  function DecoderFor(c: Codecs, id: ID): Option<Decoder> {
    if id in c.registry then Some(c.registry[id])
    else if HasPrefix(id, TALLY_PREFIX) && |id.name| > |TALLY_PREFIX| then Some(c.tally)
    else if HasPrefix(id, MATCHES_PREFIX) && |id.name| > |MATCHES_PREFIX| then Some(c.matches)
    else None
  }

  /** A fact member's content, as this build understands it. */
  function DecodeDoc(c: Codecs, d: FactDoc): Option<Fact> {
    var decoder := DecoderFor(c, d.id);
    if decoder.None? || decoder.value.version != d.factVersion then Some(Preserved(d.id, d.factVersion, d.data))
    else c.decodeFact(decoder.value.shape, d.data)
  }

  // ---------------------------------------------------------------- writing

  predicate IsLowerHex(s: string) {
    forall i | 0 <= i < |s| :: '0' <= s[i] <= '9' || 'a' <= s[i] <= 'f'
  }

  predicate ValidBundleID(id: ID) { |id.name| == 32 && IsLowerHex(id.name) }

  predicate IsSHA256(id: ID) { |id.name| == 64 && IsLowerHex(id.name) }

  /** data is the content of f's member. */
  ghost predicate IsFactData(c: Codecs, f: Fact, data: Blob) {
    exists d :: c.encodeFact(f) == Some(d) && c.doc.encode(FactDoc(f.id, f.version, d)) == Some(data)
  }

  /** One member and one index entry per fact, in sorted ID order. */
  ghost predicate AreFactMembers(c: Codecs, l: Ledger, ids: seq<ID>, members: seq<Member>, index: seq<FactRef>) {
    && |members| == |index| == |ids|
    && forall i | 0 <= i < |ids| ::
         && ids[i] in l.facts && members[i].name == FactName(ids[i])
         && IsFactData(c, l.facts[ids[i]], members[i].data)
         && index[i] == FactRef(ids[i], l.facts[ids[i]].version, members[i].name, c.digest(members[i].data))
  }

  ghost predicate AreBlobMembers(blobs: map<ID, Blob>, sums: seq<ID>, members: seq<Member>) {
    && |members| == |sums|
    && forall i | 0 <= i < |sums| :: sums[i] in blobs && members[i] == Member(BlobName(sums[i]), blobs[sums[i]])
  }

  const NO_BLOBS: map<ID, Blob> := map[]

  function BlobsOf(b: Bundle): map<ID, Blob> {
    if b.evidence.Some? then b.evidence.value.blobs else NO_BLOBS
  }

  /** b with the fields Write derives from the contents rather than trusting the caller. */
  function Filled(b: Bundle, facts: seq<FactRef>, evidence: Option<Index>): Bundle {
    b.(manifest := b.manifest.(schema := SCHEMA, toolName := TOOL, metaMember := META, errorsMember := ERRORS,
         facts := facts, evidence := evidence, integrityMember := INTEGRITY, algorithm := SHA256))
  }

  /** errors.json holds every error, sorted by fact. */
  ghost predicate AreErrors(l: Ledger, errs: seq<Error>) {
    && Lists(seq(|errs|, i requires 0 <= i < |errs| => errs[i].fact), l.errors.Keys)
    && forall e | e in errs :: e.fact in l.errors && l.errors[e.fact] == e
  }

  /** The parts of one archive. */
  datatype Parts = Parts(
    facts: seq<Member>, index: seq<FactRef>, evidence: seq<Member>, summary: Option<Index>, errors: seq<Error>,
    manifestData: Blob, metaData: Blob, errorsData: Blob, integrityData: Blob)
  {
    function Sealed(): seq<Member> {
      [Member(MANIFEST, manifestData), Member(META, metaData)] + facts + evidence + [Member(ERRORS, errorsData)]
    }

    function All(): seq<Member> { Sealed() + [Member(INTEGRITY, integrityData)] }
  }

  function DigestsOf(c: Codecs, members: seq<Member>): map<ID, ID> {
    if members == [] then map[]
    else
      var n := |members| - 1;
      DigestsOf(c, members[..n])[members[n].name := c.digest(members[n].data)]
  }

  /** p is what writing b produces. */
  ghost predicate IsWriting(c: Codecs, b: Bundle, p: Parts) {
    && ValidBundleID(b.manifest.bundleID) && b.manifest.catalogVersion >= 1
    && AreFactMembers(c, b.facts, SortedList(b.facts.facts.Keys), p.facts, p.index)
    && AreBlobMembers(BlobsOf(b), SortedList(BlobsOf(b).Keys), p.evidence)
    && (b.evidence.Some? <==> p.summary.Some?)
    && (b.evidence.Some? ==> IsIndex(b.evidence.value, p.summary.value))
    && AreErrors(b.facts, p.errors)
    && c.manifest.encode(Filled(b, p.index, p.summary).manifest) == Some(p.manifestData)
    && c.meta.encode(b.meta) == Some(p.metaData)
    && c.errors.encode(p.errors) == Some(p.errorsData)
    && c.integrity.encode(IntegrityDoc(SHA256, DigestsOf(c, p.Sealed()))) == Some(p.integrityData)
  }

  // ---------------------------------------------------------------- reading

  predicate HasDotDot(s: string) {
    exists i | 0 <= i < |s| - 1 :: s[i] == '.' && s[i + 1] == '.'
  }

  predicate ValidMemberName(name: ID) {
    name.name != "" && !HasPrefix(name, "/") && !HasDotDot(name.name)
  }

  function SizeOf(entries: seq<Entry>): nat {
    if entries == [] then 0 else SizeOf(entries[..|entries| - 1]) + entries[|entries| - 1].data.Size()
  }

  ghost predicate Readable(a: Archive) {
    && !a.broken
    && (forall i | 0 <= i < |a.entries| :: a.entries[i].regular && ValidMemberName(a.entries[i].name))
    && (forall i, j | 0 <= i < j < |a.entries| :: a.entries[i].name != a.entries[j].name)
    && SizeOf(a.entries) <= MAX_DECOMPRESSED_BYTES
  }

  function MembersOf(entries: seq<Entry>): map<ID, Blob> {
    if entries == [] then map[]
    else
      var n := |entries| - 1;
      MembersOf(entries[..n])[entries[n].name := entries[n].data]
  }

  /** integrity.json vouches for exactly the other members, and for their bytes. */
  ghost predicate Verified(c: Codecs, members: map<ID, Blob>) {
    && INTEGRITY in members
    && var doc := c.integrity.decode(members[INTEGRITY]);
    && doc.Some? && doc.value.algorithm == SHA256
    && (forall name | name in members && name != INTEGRITY :: name in doc.value.members && doc.value.members[name] == c.digest(members[name]))
    && doc.value.members.Keys <= members.Keys
  }

  /** Put the facts of the index into l, in order. */
  function ReadRefs(c: Codecs, refs: seq<FactRef>, members: map<ID, Blob>, l: Ledger): Option<Ledger> {
    if refs == [] then Some(l)
    else
      var f := ReadRef(c, refs[0], members);
      if f.None? then None else ReadRefs(c, refs[1..], members, l.Put(f.value))
  }

  function ReadRef(c: Codecs, ref: FactRef, members: map<ID, Blob>): Option<Fact> {
    if ref.member !in members || c.digest(members[ref.member]) != ref.sha256 then None
    else
      var doc := c.doc.decode(members[ref.member]);
      if doc.None? || doc.value.id != ref.id || doc.value.factVersion != ref.factVersion then None
      else DecodeDoc(c, doc.value)
  }

  /** Every facts/ member is in the index. */
  ghost predicate AllIndexed(refs: seq<FactRef>, members: map<ID, Blob>) {
    forall name | name in members && HasPrefix(name, FACTS_PREFIX) :: exists k :: 0 <= k < |refs| && refs[k].member == name
  }

  /** The digest an evidence member is named for. */
  function SumOf(name: ID): Option<ID> {
    var rest := if HasPrefix(name, EVIDENCE_PREFIX) then name.name[|EVIDENCE_PREFIX|..] else name.name;
    var n := |rest| - |EVIDENCE_SUFFIX|;
    if n >= 0 && rest[n..] == EVIDENCE_SUFFIX then Some(ID(rest[..n])) else None
  }

  ghost predicate BlobNamesOk(c: Codecs, members: map<ID, Blob>) {
    forall name | name in members && HasPrefix(name, EVIDENCE_PREFIX) ::
      SumOf(name).Some? && IsSHA256(SumOf(name).value) && c.digest(members[name]) == SumOf(name).value
  }

  /** The blobs of the evidence/ members, by digest. */
  ghost predicate AreBlobs(c: Codecs, members: map<ID, Blob>, blobs: map<ID, Blob>) {
    && (forall sum :: sum in blobs <==> BlobName(sum) in members)
    && (forall sum | sum in blobs :: blobs[sum] == members[BlobName(sum)])
  }

  /** The evidence a reader rebuilds: none at all when neither the archive nor the manifest speaks of any. */
  ghost predicate IsEvidence(c: Codecs, m: Manifest, members: map<ID, Blob>, e: Option<Store>) {
    && BlobNamesOk(c, members)
    && match e
       case None => m.evidence.None? && forall sum :: BlobName(sum) !in members
       case Some(store) =>
         && AreBlobs(c, members, store.blobs)
         && (m.evidence.Some? || store.blobs != map[])
         && store.truncated == (if m.evidence.Some? then set src | src in m.evidence.value.truncatedSources :: c.clean(src) else {})
         && (m.evidence.Some? ==> m.evidence.value.count == |store.blobs| && m.evidence.value.totalBytes == TotalSize(store.blobs))
  }

  function PutErrors(errs: seq<Error>, l: Ledger): Ledger {
    if errs == [] then l else PutErrors(errs[1..], l.PutError(errs[0]))
  }

  /** b is what reading an archive with these verified members gives. */
  ghost predicate IsReading(c: Codecs, members: map<ID, Blob>, b: Bundle) {
    && MANIFEST in members && c.manifest.decode(members[MANIFEST]) == Some(b.manifest)
    && (if META in members then c.meta.decode(members[META]) == Some(b.meta) else b.meta == NO_META)
    && AllIndexed(b.manifest.facts, members)
    && IsEvidence(c, b.manifest, members, b.evidence)
    && var l := ReadRefs(c, b.manifest.facts, members, EMPTY);
    && l.Some?
    && (if ERRORS in members then
          c.errors.decode(members[ERRORS]).Some? && b.facts == PutErrors(c.errors.decode(members[ERRORS]).value, l.value)
        else b.facts == l.value)
  }

  const NO_META := Meta(ID(""), ID(""), ID(""), ID(""))

  /** Reading the archive succeeds and gives b. */
  ghost predicate ReadsAs(c: Codecs, a: Archive, b: Bundle) {
    Readable(a) && Verified(c, MembersOf(a.entries)) && IsReading(c, MembersOf(a.entries), b)
  }
}
