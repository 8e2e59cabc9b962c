/** Reading undoes writing, and nothing slips past integrity.json. */
module BundleTheorems {
  import opened Basics
  import opened Ids
  import opened FactSet
  import opened Evidence
  import opened BundleFormat
  import opened BundleIO

  // ---------------------------------------------------------------- member names

  predicate UnderFacts(name: ID) { HasPrefix(name, FACTS_PREFIX) }

  predicate UnderEvidence(name: ID) { HasPrefix(name, EVIDENCE_PREFIX) }

  lemma {:induction false} PrefixesApart(name: ID)
    ensures !(UnderFacts(name) && UnderEvidence(name))
    ensures name == MANIFEST || name == META || name == ERRORS || name == INTEGRITY ==> !UnderFacts(name) && !UnderEvidence(name)
  {
    if UnderFacts(name) { assert name.name[0] == 'f'; }
    if UnderEvidence(name) { assert name.name[0] == 'e' && name.name[1] == 'v'; }
    assert ERRORS.name[1] == 'r';
  }

  lemma {:induction false} FixedNamesDiffer()
    ensures MANIFEST != META && MANIFEST != ERRORS && MANIFEST != INTEGRITY
    ensures META != ERRORS && META != INTEGRITY && ERRORS != INTEGRITY
  {
    assert MANIFEST.name[1] == 'a' && META.name[1] == 'e' && ERRORS.name[1] == 'r' && INTEGRITY.name[1] == 'n';
  }

  lemma {:induction false} FactNameInjective(a: ID, b: ID)
    ensures UnderFacts(FactName(a))
    ensures FactName(a) == FactName(b) ==> a == b
  {
    assert FactName(a).name == FACTS_PREFIX + (a.name + FACTS_SUFFIX);
    Middle(FACTS_PREFIX, a.name, FACTS_SUFFIX);
    Middle(FACTS_PREFIX, b.name, FACTS_SUFFIX);
  }

  lemma {:induction false} BlobNameInjective(a: ID, b: ID)
    ensures UnderEvidence(BlobName(a))
    ensures BlobName(a) == BlobName(b) ==> a == b
  {
    NameOfSum(a);
    NameOfSum(b);
  }

  lemma {:induction false} Middle(prefix: string, s: string, suffix: string)
    ensures var whole := prefix + s + suffix; |whole| >= |prefix| + |suffix| && whole[|prefix|..|whole| - |suffix|] == s
  {
  }

  lemma {:induction false} DotsAcross(a: string, b: string)
    ensures HasDotDot(a + b) <==> HasDotDot(a) || HasDotDot(b) || (a != [] && b != [] && a[|a| - 1] == '.' && b[0] == '.')
  {
    var s := a + b;
    if HasDotDot(a) {
      var i :| 0 <= i < |a| - 1 && a[i] == '.' && a[i + 1] == '.';
      assert s[i] == '.' && s[i + 1] == '.';
    }
    if HasDotDot(b) {
      var i :| 0 <= i < |b| - 1 && b[i] == '.' && b[i + 1] == '.';
      assert s[|a| + i] == '.' && s[|a| + i + 1] == '.';
    }
    if a != [] && b != [] && a[|a| - 1] == '.' && b[0] == '.' {
      assert s[|a| - 1] == '.' && s[|a| - 1 + 1] == '.';
    }
    if HasDotDot(s) {
      var i :| 0 <= i < |s| - 1 && s[i] == '.' && s[i + 1] == '.';
      if i < |a| - 1 { assert a[i] == '.' && a[i + 1] == '.'; }
      if i >= |a| { assert b[i - |a|] == '.' && b[i - |a| + 1] == '.'; }
    }
  }

  /** A fact can be read back only if its ID has no ".." and does not end in a dot. */
  lemma {:induction false} WellNamed(id: ID)
    ensures ValidMemberName(FactName(id)) <==> !HasDotDot(id.name) && (id.name == "" || id.name[|id.name| - 1] != '.')
  {
    var front := FACTS_PREFIX + id.name;
    assert FACTS_SUFFIX == ['.', 'j', 's', 'o', 'n'] && !HasDotDot(FACTS_SUFFIX);
    assert FACTS_PREFIX == ['f', 'a', 'c', 't', 's', '/'] && !HasDotDot(FACTS_PREFIX);
    DotsAcross(FACTS_PREFIX, id.name);
    DotsAcross(front, FACTS_SUFFIX);
    assert FactName(id).name == front + FACTS_SUFFIX;
    NotAbsolute(FactName(id));
  }

  // ---------------------------------------------------------------- which decoder a fact gets

  /** The tally namespace lies inside the match namespace and wins. */
  lemma {:induction false} TalliesDecodeAsTallies(c: Codecs, name: string)
    requires name != "" && ID(TALLY_PREFIX + name) !in c.registry
    ensures HasPrefix(ID(TALLY_PREFIX + name), MATCHES_PREFIX)
    ensures DecoderFor(c, ID(TALLY_PREFIX + name)) == Some(c.tally)
  {
    var s := TALLY_PREFIX + name;
    assert s[0] == 'f' && s[1] == 's' && s[2] == '.';
    assert MATCHES_PREFIX == ['f', 's', '.'] && s[..3] == MATCHES_PREFIX;
    assert s[..|TALLY_PREFIX|] == TALLY_PREFIX;
  }

  /** A walker interest decodes as one when its name has no dot and is not a registered fact's. */
  lemma {:induction false} MatchesDecodeAsMatches(c: Codecs, name: string)
    requires name != "" && '.' !in name && ID(MATCHES_PREFIX + name) !in c.registry
    ensures DecoderFor(c, ID(MATCHES_PREFIX + name)) == Some(c.matches)
  {
    var s := MATCHES_PREFIX + name;
    assert s[..3] == MATCHES_PREFIX;
    assert TALLY_PREFIX[8] == '.';
    assert |s| > 8 ==> s[8] == name[5] && s[8] != '.';
  }

  /** f comes back as itself from its own member. */
  ghost predicate Survives(c: Codecs, f: Fact) {
    forall data | c.encodeFact(f) == Some(data) :: DecodeDoc(c, FactDoc(f.id, f.version, data)) == Some(f)
  }

  predicate Decodable(c: Codecs, f: Fact) {
    var d := DecoderFor(c, f.id);
    d.Some? && d.value.version == f.version
  }

  /** A typed fact survives when its own decoder is the one chosen for it and inverts its encoding. */
  lemma {:induction false} TypedSurvives(c: Codecs, f: Fact)
    requires f.Typed? && Decodable(c, f) && DecoderFor(c, f.id).value.shape == f.shape
    requires forall data | c.encodeFact(f) == Some(data) :: c.decodeFact(f.shape, data) == Some(f)
    ensures Survives(c, f)
  {
  }

  /** A fact this build cannot decode survives byte for byte; one it could decode would not stay opaque. */
  lemma {:induction false} PreservedSurvives(c: Codecs, f: Fact)
    requires f.Preserved? && c.encodeFact(f) == Some(f.raw)
    requires forall shape, data :: var g := c.decodeFact(shape, data); g.Some? ==> g.value.Typed?
    ensures Survives(c, f) <==> !Decodable(c, f)
  {
    assert DecodeDoc(c, FactDoc(f.id, f.version, f.raw)) ==
      if Decodable(c, f) then c.decodeFact(DecoderFor(c, f.id).value.shape, f.raw) else Some(f);
  }

  // ---------------------------------------------------------------- the archive of a writing

  function EntriesOf(members: seq<Member>): seq<Entry> {
    seq(|members|, i requires 0 <= i < |members| => Entry(true, members[i].name, members[i].data))
  }

  function ArchiveOf(p: Parts): Archive { Archive(EntriesOf(p.All()), false) }

  ghost predicate NamesDiffer(members: seq<Member>) {
    forall i, j | 0 <= i < j < |members| :: members[i].name != members[j].name
  }

  lemma {:induction false} ConcatDiffer(a: seq<Member>, b: seq<Member>)
    requires NamesDiffer(a) && NamesDiffer(b)
    requires forall x, y | x in a && y in b :: x.name != y.name
    ensures NamesDiffer(a + b)
  {
    forall i, j | 0 <= i < j < |a + b| ensures (a + b)[i].name != (a + b)[j].name {
      if i < |a| <= j { assert a[i] in a && b[j - |a|] in b; }
    }
  }

  lemma {:induction false} FactMemberNames(c: Codecs, l: Ledger, ids: seq<ID>, members: seq<Member>, index: seq<FactRef>)
    requires AreFactMembers(c, l, ids, members, index) && NoDuplicates(ids)
    ensures NamesDiffer(members) && forall x | x in members :: UnderFacts(x.name)
  {
    forall i, j | 0 <= i < j < |members| ensures members[i].name != members[j].name {
      FactNameInjective(ids[i], ids[j]);
    }
    forall x | x in members ensures UnderFacts(x.name) {
      var i :| 0 <= i < |members| && members[i] == x;
      FactNameInjective(ids[i], ids[i]);
    }
  }

  lemma {:induction false} BlobMemberNames(blobs: map<ID, Blob>, sums: seq<ID>, members: seq<Member>)
    requires AreBlobMembers(blobs, sums, members) && NoDuplicates(sums)
    ensures NamesDiffer(members) && forall x | x in members :: UnderEvidence(x.name)
  {
    forall i, j | 0 <= i < j < |members| ensures members[i].name != members[j].name {
      BlobNameInjective(sums[i], sums[j]);
    }
    forall x | x in members ensures UnderEvidence(x.name) {
      var i :| 0 <= i < |members| && members[i] == x;
      BlobNameInjective(sums[i], sums[i]);
    }
  }

  /** Facts and evidence keep to their own directories. */
  ghost predicate InPlace(p: Parts) {
    && NamesDiffer(p.facts) && (forall x | x in p.facts :: UnderFacts(x.name))
    && NamesDiffer(p.evidence) && (forall x | x in p.evidence :: UnderEvidence(x.name))
  }

  lemma {:induction false} PartNames(c: Codecs, b: Bundle, p: Parts)
    requires IsWriting(c, b, p)
    ensures InPlace(p)
  {
    FactMemberNames(c, b.facts, SortedList(b.facts.facts.Keys), p.facts, p.index);
    BlobMemberNames(BlobsOf(b), SortedList(BlobsOf(b).Keys), p.evidence);
  }

  /** No two members of a written archive have one name. */
  lemma {:induction false} AllNamesDiffer(p: Parts)
    requires InPlace(p)
    ensures NamesDiffer(p.Sealed()) && NamesDiffer(p.All())
  {
    FixedNamesDiffer();
    var head := [Member(MANIFEST, p.manifestData), Member(META, p.metaData)];
    var tail, last := [Member(ERRORS, p.errorsData)], [Member(INTEGRITY, p.integrityData)];
    forall x, y | x in head && y in p.facts ensures x.name != y.name { PrefixesApart(x.name); }
    ConcatDiffer(head, p.facts);
    forall x, y | x in head + p.facts && y in p.evidence ensures x.name != y.name { PrefixesApart(x.name); }
    ConcatDiffer(head + p.facts, p.evidence);
    forall x, y | x in head + p.facts + p.evidence && y in tail ensures x.name != y.name { PrefixesApart(y.name); }
    ConcatDiffer(head + p.facts + p.evidence, tail);
    assert p.Sealed() == head + p.facts + p.evidence + tail;
    forall x, y | x in p.Sealed() && y in last ensures x.name != y.name { PrefixesApart(y.name); }
    ConcatDiffer(p.Sealed(), last);
  }

  lemma {:induction false} DigestsLookup(c: Codecs, members: seq<Member>)
    requires NamesDiffer(members)
    ensures forall x | x in members :: x.name in DigestsOf(c, members) && DigestsOf(c, members)[x.name] == c.digest(x.data)
    ensures forall name | name in DigestsOf(c, members) :: exists x :: x in members && x.name == name
  {
    forall x | x in members ensures x.name in DigestsOf(c, members) && DigestsOf(c, members)[x.name] == c.digest(x.data) {
      DigestOfMember(c, members, x);
    }
    forall name | name in DigestsOf(c, members) ensures exists x :: x in members && x.name == name {
      var x := DigestedMember(c, members, name);
    }
  }

  lemma {:induction false} DigestOfMember(c: Codecs, members: seq<Member>, x: Member)
    requires NamesDiffer(members) && x in members
    ensures x.name in DigestsOf(c, members) && DigestsOf(c, members)[x.name] == c.digest(x.data)
  {
    var n := |members| - 1;
    if x != members[n] {
      var rest := members[..n];
      var i :| 0 <= i < |members| && members[i] == x;
      assert rest[i] == x && members[i].name != members[n].name;
      DigestOfMember(c, rest, x);
    }
  }

  lemma {:induction false} DigestedMember(c: Codecs, members: seq<Member>, name: ID) returns (x: Member)
    requires name in DigestsOf(c, members)
    ensures x in members && x.name == name
  {
    var n := |members| - 1;
    if members[n].name == name {
      x := members[n];
    } else {
      x := DigestedMember(c, members[..n], name);
    }
  }

  lemma {:induction false} MembersLookup(members: seq<Member>)
    requires NamesDiffer(members)
    ensures forall x | x in members :: x.name in MembersOf(EntriesOf(members)) && MembersOf(EntriesOf(members))[x.name] == x.data
    ensures forall name | name in MembersOf(EntriesOf(members)) :: exists x :: x in members && x.name == name
  {
    if members != [] {
      var n := |members| - 1;
      var rest := members[..n];
      assert members == rest + [members[n]];
      assert forall i | 0 <= i < n :: rest[i] == members[i];
      assert EntriesOf(members)[..n] == EntriesOf(rest);
      MembersLookup(rest);
      forall x | x in members ensures x.name in MembersOf(EntriesOf(members)) && MembersOf(EntriesOf(members))[x.name] == x.data {
        if x in rest { var i :| 0 <= i < n && members[i] == x; }
      }
      forall name | name in MembersOf(EntriesOf(members)) ensures exists x :: x in members && x.name == name {
        if name in MembersOf(EntriesOf(rest)) {
          var x :| x in rest && x.name == name;
          assert x in members;
        } else {
          assert members[n] in members;
        }
      }
    }
  }

  /** What a reader finds under each name of a written archive. */
  ghost predicate Holds(p: Parts, m: map<ID, Blob>) {
    && (forall x | x in p.All() :: x.name in m && m[x.name] == x.data)
    && (forall name | name in m :: exists x :: x in p.All() && x.name == name)
  }

  lemma {:induction false} WritingIsHeld(c: Codecs, b: Bundle, p: Parts)
    requires IsWriting(c, b, p)
    ensures Holds(p, MembersOf(EntriesOf(p.All())))
  {
    PartNames(c, b, p);
    AllNamesDiffer(p);
    MembersLookup(p.All());
  }

  /** Whatever Write produces passes verification. */
  lemma {:induction false} WritingVerifies(c: Codecs, b: Bundle, p: Parts)
    requires CodecsInvert(c) && IsWriting(c, b, p)
    ensures Verified(c, MembersOf(EntriesOf(p.All())))
  {
    var m := MembersOf(EntriesOf(p.All()));
    WritingIsHeld(c, b, p);
    PartNames(c, b, p);
    AllNamesDiffer(p);
    var sealed, last := p.Sealed(), Member(INTEGRITY, p.integrityData);
    DigestsLookup(c, sealed);
    assert p.All() == sealed + [last] && last in p.All();
    assert c.integrity.decode(m[INTEGRITY]) == Some(IntegrityDoc(SHA256, DigestsOf(c, sealed)));
    forall name | name in m && name != INTEGRITY ensures name in DigestsOf(c, sealed) && DigestsOf(c, sealed)[name] == c.digest(m[name]) {
      var x :| x in p.All() && x.name == name;
      assert x in sealed;
    }
    forall name | name in DigestsOf(c, sealed) ensures name in m {
      var x :| x in sealed && x.name == name;
      assert x in p.All();
    }
  }

  // ---------------------------------------------------------------- facts and errors come back

  /** Each index entry reads back as the fact it was written for. */
  ghost predicate RefsMatch(c: Codecs, facts: map<ID, Fact>, ids: seq<ID>, index: seq<FactRef>, m: map<ID, Blob>) {
    |ids| == |index| && forall k | 0 <= k < |ids| :: ids[k] in facts && facts[ids[k]].id == ids[k] && ReadRef(c, index[k], m) == Some(facts[ids[k]])
  }

  lemma {:induction false} RefsDoMatch(c: Codecs, l: Ledger, ids: seq<ID>, p: Parts, m: map<ID, Blob>)
    requires Inverse(c.doc) && AreFactMembers(c, l, ids, p.facts, p.index) && Holds(p, m) && l.Valid()
    requires forall id | id in l.facts :: Survives(c, l.facts[id])
    ensures RefsMatch(c, l.facts, ids, p.index, m)
  {
    forall k | 0 <= k < |ids| ensures ids[k] in l.facts && l.facts[ids[k]].id == ids[k] && ReadRef(c, p.index[k], m) == Some(l.facts[ids[k]]) {
      var x, f := p.facts[k], l.facts[ids[k]];
      assert x in p.facts && x in p.All();
      var d :| c.encodeFact(f) == Some(d) && c.doc.encode(FactDoc(f.id, f.version, d)) == Some(x.data);
      assert c.doc.decode(x.data) == Some(FactDoc(f.id, f.version, d));
    }
  }

  /** Put in index order, the facts add up to all of them. */
  lemma {:induction false} RefsRead(c: Codecs, facts: map<ID, Fact>, ids: seq<ID>, index: seq<FactRef>, m: map<ID, Blob>, k: nat)
    requires RefsMatch(c, facts, ids, index, m) && NoDuplicates(ids) && k <= |ids|
    ensures ReadRefs(c, index[k..], m, Ledger(Restrict(facts, Members(ids[..k])), map[])) == Some(Ledger(Restrict(facts, Members(ids)), map[]))
    decreases |ids| - k
  {
    if k == |ids| {
      assert ids[..k] == ids;
    } else {
      RefsRead(c, facts, ids, index, m, k + 1);
      assert index[k..][0] == index[k] && index[k..][1..] == index[k + 1..];
      MembersStep(ids, k);
      OneMoreFact(facts, Members(ids[..k]), ids[k]);
    }
  }

  lemma {:induction false} OneMoreFact(facts: map<ID, Fact>, done: set<ID>, id: ID)
    requires id in facts && facts[id].id == id && id !in done
    ensures Ledger(Restrict(facts, done), map[]).Put(facts[id]) == Ledger(Restrict(facts, done + {id}), map[])
  {
    assert Restrict(facts, done + {id}) == Restrict(facts, done)[id := facts[id]];
  }

  lemma {:induction false} OneMoreError(facts: map<ID, Fact>, errors: map<ID, Error>, done: set<ID>, id: ID)
    requires id in errors && errors[id].fact == id && id !in done && id !in facts
    ensures Ledger(facts, Restrict(errors, done)).PutError(errors[id]) == Ledger(facts, Restrict(errors, done + {id}))
  {
    assert facts - {id} == facts;
    assert Restrict(errors, done + {id}) == Restrict(errors, done)[id := errors[id]];
  }

  lemma {:induction false} ErrorsRead(l: Ledger, errs: seq<Error>, names: seq<ID>, k: nat)
    requires l.Valid() && |names| == |errs| && NoDuplicates(names) && k <= |errs|
    requires forall i | 0 <= i < |errs| :: names[i] == errs[i].fact && names[i] in l.errors && l.errors[names[i]] == errs[i]
    ensures PutErrors(errs[k..], Ledger(l.facts, Restrict(l.errors, Members(names[..k])))) == Ledger(l.facts, Restrict(l.errors, Members(names)))
    decreases |errs| - k
  {
    if k == |errs| {
      assert names[..k] == names;
    } else {
      ErrorsRead(l, errs, names, k + 1);
      assert errs[k..][0] == errs[k] && errs[k..][1..] == errs[k + 1..];
      MembersStep(names, k);
      OneMoreError(l.facts, l.errors, Members(names[..k]), names[k]);
    }
  }

  // ---------------------------------------------------------------- evidence comes back

  lemma {:induction false} BlobHeld(blobs: map<ID, Blob>, sums: seq<ID>, p: Parts, m: map<ID, Blob>, sum: ID)
    requires AreBlobMembers(blobs, sums, p.evidence) && Lists(sums, blobs.Keys) && Holds(p, m) && sum in blobs
    ensures BlobName(sum) in m && m[BlobName(sum)] == blobs[sum]
  {
    assert sum in sums;
    var i :| 0 <= i < |sums| && sums[i] == sum;
    assert p.evidence[i] in p.evidence && p.evidence[i] in p.All();
  }

  lemma {:induction false} HeldBlob(blobs: map<ID, Blob>, sums: seq<ID>, p: Parts, m: map<ID, Blob>, name: ID)
    requires AreBlobMembers(blobs, sums, p.evidence) && Holds(p, m) && InPlace(p) && name in m && UnderEvidence(name)
    ensures SumOf(name).Some? && SumOf(name).value in blobs && m[name] == blobs[SumOf(name).value]
  {
    var x :| x in p.All() && x.name == name;
    PrefixesApart(name);
    assert x in p.evidence;
    var i :| 0 <= i < |p.evidence| && p.evidence[i] == x;
    NameOfSum(sums[i]);
  }

  lemma {:induction false} BlobsRead(c: Codecs, blobs: map<ID, Blob>, sums: seq<ID>, p: Parts, m: map<ID, Blob>)
    requires AreBlobMembers(blobs, sums, p.evidence) && Lists(sums, blobs.Keys) && Holds(p, m) && InPlace(p)
    requires forall sum | sum in blobs :: c.digest(blobs[sum]) == sum
    requires forall blob :: IsSHA256(c.digest(blob))
    ensures BlobNamesOk(c, m) && AreBlobs(c, m, blobs)
  {
    forall name | name in m && HasPrefix(name, EVIDENCE_PREFIX)
      ensures SumOf(name).Some? && IsSHA256(SumOf(name).value) && c.digest(m[name]) == SumOf(name).value
    {
      HeldBlob(blobs, sums, p, m, name);
    }
    forall sum ensures sum in blobs <==> BlobName(sum) in m {
      NameOfSum(sum);
      if sum in blobs { BlobHeld(blobs, sums, p, m, sum); }
      if BlobName(sum) in m { HeldBlob(blobs, sums, p, m, BlobName(sum)); }
    }
    forall sum | sum in blobs ensures blobs[sum] == m[BlobName(sum)] {
      BlobHeld(blobs, sums, p, m, sum);
    }
  }

  lemma {:induction false} MarksRead(c: Codecs, truncated: set<ID>, sources: seq<ID>)
    requires Lists(sources, truncated) && forall src | src in truncated :: c.clean(src) == src
    ensures (set src | src in sources :: c.clean(src)) == truncated
  {
    forall src ensures src in (set s | s in sources :: c.clean(s)) <==> src in truncated {
      if src in truncated { assert src in sources && c.clean(src) == src; }
    }
  }

  lemma {:induction false} EvidenceReads(c: Codecs, b: Bundle, p: Parts, m: map<ID, Blob>)
    requires AreBlobMembers(BlobsOf(b), SortedList(BlobsOf(b).Keys), p.evidence) && Holds(p, m) && InPlace(p)
    requires (b.evidence.Some? <==> p.summary.Some?) && (b.evidence.Some? ==> IsIndex(b.evidence.value, p.summary.value))
    requires b.evidence.Some? ==> Addressed(c.digest, b.evidence.value) && forall src | src in b.evidence.value.truncated :: c.clean(src) == src
    requires forall blob :: IsSHA256(c.digest(blob))
    ensures IsEvidence(c, Filled(b, p.index, p.summary).manifest, m, b.evidence)
  {
    BlobsRead(c, BlobsOf(b), SortedList(BlobsOf(b).Keys), p, m);
    if b.evidence.Some? {
      MarksRead(c, b.evidence.value.truncated, p.summary.value.truncatedSources);
    } else {
      forall sum ensures BlobName(sum) !in m { assert sum !in NO_BLOBS; }
    }
  }

  // ---------------------------------------------------------------- the round trip

  /** What a bundle must be for its archive to be readable. */
  ghost predicate CanTravel(c: Codecs, b: Bundle) {
    && b.facts.Valid()
    && (forall id | id in b.facts.facts :: Survives(c, b.facts.facts[id]) && ValidMemberName(FactName(id)))
    && (b.evidence.Some? ==> Addressed(c.digest, b.evidence.value) && forall src | src in b.evidence.value.truncated :: c.clean(src) == src)
  }

  /** Reading a written archive gives back the bundle, with the manifest's derived fields filled in. */
  lemma {:induction false} RoundTrip(c: Codecs, b: Bundle, p: Parts)
    requires CodecsInvert(c) && forall blob :: IsSHA256(c.digest(blob))
    requires IsWriting(c, b, p) && CanTravel(c, b)
    requires SizeOf(ArchiveOf(p).entries) <= MAX_DECOMPRESSED_BYTES
    ensures ReadsAs(c, ArchiveOf(p), Filled(b, p.index, p.summary))
  {
    var m, filled := MembersOf(EntriesOf(p.All())), Filled(b, p.index, p.summary);
    WritingIsHeld(c, b, p);
    ArchiveIsReadable(c, b, p);
    WritingVerifies(c, b, p);
    FixedMembers(p);
    assert MANIFEST in m && c.manifest.decode(m[MANIFEST]) == Some(filled.manifest);
    assert META in m && c.meta.decode(m[META]) == Some(b.meta);
    assert ERRORS in m && c.errors.decode(m[ERRORS]) == Some(p.errors);
    PartNames(c, b, p);
    FactsIndexed(c, b.facts, SortedList(b.facts.facts.Keys), p, m);
    EvidenceReads(c, b, p, m);
    FactsRead(c, b.facts, SortedList(b.facts.facts.Keys), p, m);
    AllErrorsRead(b.facts, p.errors);
  }

  lemma {:induction false} FixedMembers(p: Parts)
    ensures Member(MANIFEST, p.manifestData) in p.All() && Member(META, p.metaData) in p.All() && Member(ERRORS, p.errorsData) in p.All()
  {
    var head := [Member(MANIFEST, p.manifestData), Member(META, p.metaData)];
    assert head[0] in head && head[1] in head;
  }

  lemma {:induction false} FactsRead(c: Codecs, l: Ledger, ids: seq<ID>, p: Parts, m: map<ID, Blob>)
    requires Inverse(c.doc) && AreFactMembers(c, l, ids, p.facts, p.index) && Holds(p, m) && l.Valid()
    requires Lists(ids, l.facts.Keys) && forall id | id in l.facts :: Survives(c, l.facts[id])
    ensures ReadRefs(c, p.index, m, EMPTY) == Some(Ledger(l.facts, map[]))
  {
    RefsDoMatch(c, l, ids, p, m);
    AllRefsRead(c, l.facts, ids, p.index, m);
  }

  lemma {:induction false} AllRefsRead(c: Codecs, facts: map<ID, Fact>, ids: seq<ID>, index: seq<FactRef>, m: map<ID, Blob>)
    requires RefsMatch(c, facts, ids, index, m) && Lists(ids, facts.Keys)
    ensures ReadRefs(c, index, m, EMPTY) == Some(Ledger(facts, map[]))
  {
    RefsRead(c, facts, ids, index, m, 0);
    assert index[0..] == index && ids[..0] == [];
    assert Restrict(facts, Members(ids[..0])) == map[];
    assert Restrict(facts, Members(ids)) == facts;
  }

  lemma {:induction false} AllErrorsRead(l: Ledger, errs: seq<Error>)
    requires l.Valid() && AreErrors(l, errs)
    ensures PutErrors(errs, Ledger(l.facts, map[])) == l
  {
    var names := seq(|errs|, i requires 0 <= i < |errs| => errs[i].fact);
    forall i | 0 <= i < |errs| ensures names[i] in l.errors && l.errors[names[i]] == errs[i] { assert errs[i] in errs; }
    ErrorsRead(l, errs, names, 0);
    assert errs[0..] == errs && names[..0] == [];
    assert Restrict(l.errors, Members(names[..0])) == map[];
    assert Restrict(l.errors, Members(names)) == l.errors;
  }

  lemma {:induction false} FactsIndexed(c: Codecs, l: Ledger, ids: seq<ID>, p: Parts, m: map<ID, Blob>)
    requires AreFactMembers(c, l, ids, p.facts, p.index) && Holds(p, m) && InPlace(p)
    ensures AllIndexed(p.index, m)
  {
    forall name | name in m && HasPrefix(name, FACTS_PREFIX) ensures exists k :: 0 <= k < |p.index| && p.index[k].member == name {
      PrefixesApart(name);
      var x :| x in p.All() && x.name == name;
      assert x in p.facts;
      var k :| 0 <= k < |p.facts| && p.facts[k] == x;
      assert p.index[k].member == name;
    }
  }

  lemma {:induction false} MemberNamesValid(c: Codecs, l: Ledger, ids: seq<ID>, blobs: map<ID, Blob>, sums: seq<ID>, p: Parts, x: Member)
    requires AreFactMembers(c, l, ids, p.facts, p.index) && forall id | id in l.facts :: ValidMemberName(FactName(id))
    requires AreBlobMembers(blobs, sums, p.evidence) && forall sum | sum in blobs :: IsSHA256(sum)
    requires x in p.All()
    ensures ValidMemberName(x.name)
  {
    if x in p.facts {
      var i :| 0 <= i < |p.facts| && p.facts[i] == x;
      assert ids[i] in l.facts;
    } else if x in p.evidence {
      var i :| 0 <= i < |p.evidence| && p.evidence[i] == x;
      BlobNameValid(sums[i]);
    } else {
      FixedNamesValid();
    }
  }

  lemma {:induction false} ArchiveIsReadable(c: Codecs, b: Bundle, p: Parts)
    requires IsWriting(c, b, p) && SizeOf(ArchiveOf(p).entries) <= MAX_DECOMPRESSED_BYTES
    requires forall id | id in b.facts.facts :: ValidMemberName(FactName(id))
    requires forall sum | sum in BlobsOf(b) :: IsSHA256(sum)
    ensures Readable(ArchiveOf(p))
  {
    PartNames(c, b, p);
    AllNamesDiffer(p);
    var ids, sums := SortedList(b.facts.facts.Keys), SortedList(BlobsOf(b).Keys);
    var all, entries := p.All(), ArchiveOf(p).entries;
    forall i | 0 <= i < |entries| ensures entries[i].regular && ValidMemberName(entries[i].name) {
      assert all[i] in all;
      MemberNamesValid(c, b.facts, ids, BlobsOf(b), sums, p, all[i]);
    }
    forall i, j | 0 <= i < j < |entries| ensures entries[i].name != entries[j].name {
      assert all[i].name != all[j].name;
    }
  }

  lemma {:induction false} NotAbsolute(name: ID)
    requires name.name != "" && name.name[0] != '/'
    ensures !HasPrefix(name, "/")
  {
    assert "/" == ['/'];
  }

  lemma {:induction false} FixedNamesValid()
    ensures ValidMemberName(MANIFEST) && ValidMemberName(META) && ValidMemberName(ERRORS) && ValidMemberName(INTEGRITY)
  {
    assert MANIFEST.name == ['m', 'a', 'n', 'i', 'f', 'e', 's', 't', '.', 'j', 's', 'o', 'n'];
    assert META.name == ['m', 'e', 't', 'a', '.', 'j', 's', 'o', 'n'];
    assert ERRORS.name == ['e', 'r', 'r', 'o', 'r', 's', '.', 'j', 's', 'o', 'n'];
    assert INTEGRITY.name == ['i', 'n', 't', 'e', 'g', 'r', 'i', 't', 'y', '.', 'j', 's', 'o', 'n'];
    NotAbsolute(MANIFEST);
    NotAbsolute(META);
    NotAbsolute(ERRORS);
    NotAbsolute(INTEGRITY);
  }

  lemma {:induction false} BlobNameValid(sum: ID)
    requires IsSHA256(sum)
    ensures ValidMemberName(BlobName(sum))
  {
    var front := EVIDENCE_PREFIX + sum.name;
    assert EVIDENCE_PREFIX == ['e', 'v', 'i', 'd', 'e', 'n', 'c', 'e', '/'] && !HasDotDot(EVIDENCE_PREFIX);
    assert EVIDENCE_SUFFIX == ['.', 'b', 'l', 'o', 'b'] && !HasDotDot(EVIDENCE_SUFFIX);
    DotsAcross(EVIDENCE_PREFIX, sum.name);
    DotsAcross(front, EVIDENCE_SUFFIX);
    assert BlobName(sum).name == front + EVIDENCE_SUFFIX;
    NotAbsolute(BlobName(sum));
  }

  lemma {:induction false} EvidenceBlobs(c: Codecs, man: Manifest, m: map<ID, Blob>, e: Option<Store>)
    requires IsEvidence(c, man, m, e)
    ensures AreBlobs(c, m, if e.Some? then e.value.blobs else NO_BLOBS)
  {
  }

  /** An archive reads as one bundle only, so what Read returns is that bundle. */
  lemma {:induction false} ReadingIsUnique(c: Codecs, a: Archive, b: Bundle, b': Bundle)
    requires ReadsAs(c, a, b) && ReadsAs(c, a, b')
    ensures b == b'
  {
    var m := MembersOf(a.entries);
    EvidenceBlobs(c, b.manifest, m, b.evidence);
    EvidenceBlobs(c, b.manifest, m, b'.evidence);
    assert BlobsOf(b) == BlobsOf(b');
  }

  /** A fact whose member name is refused makes the whole written archive unreadable. */
  lemma {:induction false} BadNameCannotBeRead(c: Codecs, b: Bundle, p: Parts, id: ID)
    requires IsWriting(c, b, p) && id in b.facts.facts && !ValidMemberName(FactName(id))
    ensures !Readable(ArchiveOf(p))
  {
    var ids := SortedList(b.facts.facts.Keys);
    assert id in ids;
    var i :| 0 <= i < |ids| && ids[i] == id;
    assert p.facts[i] in p.facts && p.facts[i] in p.All();
    var j :| 0 <= j < |p.All()| && p.All()[j] == p.facts[i];
    assert ArchiveOf(p).entries[j].name == FactName(id);
  }

  // ---------------------------------------------------------------- tampering

  /** Different bytes under a name both archives have are told apart by the digest. */
  ghost predicate NoCollision(c: Codecs, m: map<ID, Blob>, m': map<ID, Blob>) {
    forall name | name in m && name in m' && c.digest(m[name]) == c.digest(m'[name]) :: m[name] == m'[name]
  }

  /**
   * Verification is exact: two archives with one integrity.json both verify only if every other member
   * is the same in both. So any edit, addition or removal makes reading fail before a fact is decoded.
   */
  lemma {:induction false} TamperingIsSeen(c: Codecs, m: map<ID, Blob>, m': map<ID, Blob>)
    requires Verified(c, m) && INTEGRITY in m' && m'[INTEGRITY] == m[INTEGRITY] && NoCollision(c, m, m')
    ensures Verified(c, m') <==> m' == m
  {
    var recorded := c.integrity.decode(m[INTEGRITY]).value.members;
    if Verified(c, m') {
      forall name ensures name in m <==> name in m' {
        if name != INTEGRITY { assert name in m <==> name in recorded; }
      }
      forall name | name in m ensures m[name] == m'[name] {
        if name != INTEGRITY { assert c.digest(m[name]) == recorded[name] == c.digest(m'[name]); }
      }
      assert m == m';
    }
  }

  /** The recorded names are the members' names, except that integrity.json may list itself unchecked. */
  lemma {:induction false} RecordedNames(c: Codecs, m: map<ID, Blob>)
    requires INTEGRITY in m && c.integrity.decode(m[INTEGRITY]).Some?
    requires c.integrity.decode(m[INTEGRITY]).value.algorithm == SHA256
    ensures var recorded := c.integrity.decode(m[INTEGRITY]).value.members;
            Verified(c, m) <==>
              && recorded.Keys - {INTEGRITY} == m.Keys - {INTEGRITY}
              && forall name | name in m && name != INTEGRITY && name in recorded :: recorded[name] == c.digest(m[name])
  {
    var recorded := c.integrity.decode(m[INTEGRITY]).value.members;
    if Verified(c, m) {
      forall name ensures name in recorded.Keys - {INTEGRITY} <==> name in m.Keys - {INTEGRITY} {
      }
    }
    if recorded.Keys - {INTEGRITY} == m.Keys - {INTEGRITY} {
      forall name | name in m && name != INTEGRITY ensures name in recorded { assert name in m.Keys - {INTEGRITY}; }
      forall name | name in recorded ensures name in m { if name != INTEGRITY { assert name in recorded.Keys - {INTEGRITY}; } }
    }
  }

  const NOT_A_DIGEST := ID("none")

  /** Into any archive that verifies, integrity.json can write a wrong digest for itself, and it still verifies. */
  lemma {:induction false} SelfListingIsUnchecked(c: Codecs, m: map<ID, Blob>, doc: IntegrityDoc, data: Blob)
    requires CodecsInvert(c) && IsSHA256(c.digest(data)) && Verified(c, m)
    requires c.integrity.decode(m[INTEGRITY]) == Some(doc)
    requires c.integrity.encode(doc.(members := doc.members[INTEGRITY := NOT_A_DIGEST])) == Some(data)
    ensures Verified(c, m[INTEGRITY := data])
    ensures c.integrity.decode(data).value.members[INTEGRITY] != c.digest(data)
  {
    var m', doc' := m[INTEGRITY := data], doc.(members := doc.members[INTEGRITY := NOT_A_DIGEST]);
    assert c.integrity.decode(data) == Some(doc');
    RecordedNames(c, m);
    RecordedNames(c, m');
    assert doc'.members.Keys - {INTEGRITY} == doc.members.Keys - {INTEGRITY};
    assert m'.Keys - {INTEGRITY} == m.Keys - {INTEGRITY};
  }

  /** A written archive with any other member edited, added or removed is refused. */
  lemma {:induction false} TamperedArchiveIsRefused(c: Codecs, b: Bundle, p: Parts, a: Archive, b': Bundle)
    requires CodecsInvert(c) && IsWriting(c, b, p)
    requires var m, m' := MembersOf(EntriesOf(p.All())), MembersOf(a.entries);
             m' != m && INTEGRITY in m' && m'[INTEGRITY] == p.integrityData && NoCollision(c, m, m')
    ensures !ReadsAs(c, a, b')
  {
    var m, m' := MembersOf(EntriesOf(p.All())), MembersOf(a.entries);
    WritingIsHeld(c, b, p);
    WritingVerifies(c, b, p);
    var last := Member(INTEGRITY, p.integrityData);
    assert last in p.All();
    TamperingIsSeen(c, m, m');
  }
}
