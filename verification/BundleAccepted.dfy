/** Which archives a reader accepts, and what a written manifest says, in plain names and numbers (internal/bundle/bundle.go). */
module BundleAccepted {
  import opened Basics
  import opened Ids
  import opened FactSet
  import opened Evidence
  import opened BundleFormat

  // ---------------------------------------------------------------- the entries

  /** Relative, not empty, and without two dots in a row. */
  ghost predicate SafeName(name: string) {
    name != "" && (forall rest :: !Rooted(name, rest)) && forall a, b :: !Climbs(name, a, b)
  }

  predicate Rooted(name: string, rest: string) { name == "/" + rest }

  predicate Climbs(name: string, a: string, b: string) { name == a + ".." + b }

  lemma {:induction false} DotsExactlyWhen(name: string)
    ensures HasDotDot(name) <==> exists a, b :: Climbs(name, a, b)
  {
    if HasDotDot(name) {
      var i :| 0 <= i < |name| - 1 && name[i] == '.' && name[i + 1] == '.';
      assert Climbs(name, name[..i], name[i + 2..]);
    }
    forall a, b | Climbs(name, a, b) ensures HasDotDot(name) {
      assert name[|a|] == '.' && name[|a| + 1] == '.';
    }
  }

  lemma {:induction false} SafeNameExactlyWhen(id: ID)
    ensures ValidMemberName(id) <==> SafeName(id.name)
  {
    DotsExactlyWhen(id.name);
    if HasPrefix(id, "/") { assert Rooted(id.name, id.name[1..]); }
  }

  /** An archive can be unpacked exactly when it is whole, all regular files under distinct safe names, and at most 256 MiB. */
  lemma {:induction false} UnpackedExactlyWhen(a: Archive)
    ensures Readable(a) <==>
              && !a.broken && SizeOf(a.entries) <= 256 * 1024 * 1024
              && (forall i | 0 <= i < |a.entries| :: a.entries[i].regular && SafeName(a.entries[i].name.name))
              && (forall i, j | 0 <= i < j < |a.entries| :: a.entries[i].name != a.entries[j].name)
  {
    forall i | 0 <= i < |a.entries| ensures ValidMemberName(a.entries[i].name) <==> SafeName(a.entries[i].name.name) {
      SafeNameExactlyWhen(a.entries[i].name);
    }
  }

  // ---------------------------------------------------------------- the evidence

  /** Sixty-four lower-case hexadecimal digits. */
  predicate IsDigest(sum: string) {
    |sum| == 64 && forall i | 0 <= i < 64 :: ('0' <= sum[i] && sum[i] <= '9') || ('a' <= sum[i] && sum[i] <= 'f')
  }

  predicate NamesBlob(name: string, sum: string) { name == "evidence/" + sum + ".blob" }

  ghost predicate NamedForContent(c: Codecs, name: ID, data: Blob) {
    exists sum :: NamesBlob(name.name, sum) && IsDigest(sum) && c.digest(data) == ID(sum)
  }

  lemma {:induction false} SumOfBlob(name: ID)
    requires "evidence/" <= name.name
    ensures forall sum :: NamesBlob(name.name, sum) <==> SumOf(name) == Some(ID(sum))
  {
    var rest := name.name[|EVIDENCE_PREFIX|..];
    assert name.name == "evidence/" + rest;
    forall sum ensures NamesBlob(name.name, sum) <==> SumOf(name) == Some(ID(sum)) {
      var n := |rest| - |EVIDENCE_SUFFIX|;
      if NamesBlob(name.name, sum) {
        assert rest == sum + ".blob";
        assert rest[n..] == ".blob" && rest[..n] == sum;
      }
      if SumOf(name) == Some(ID(sum)) { assert rest == rest[..n] + ".blob"; }
    }
  }

  /** The evidence is accepted exactly when every member under evidence/ is named for the digest of its content. */
  lemma {:induction false} EvidenceExactlyWhen(c: Codecs, members: map<ID, Blob>)
    ensures BlobNamesOk(c, members) <==> forall name | name in members && "evidence/" <= name.name :: NamedForContent(c, name, members[name])
  {
    forall name | name in members && "evidence/" <= name.name
      ensures NamedForContent(c, name, members[name]) <==>
                SumOf(name).Some? && IsSHA256(SumOf(name).value) && c.digest(members[name]) == SumOf(name).value
    {
      SumOfBlob(name);
      if SumOf(name).Some? {
        var sum := SumOf(name).value.name;
        assert NamesBlob(name.name, sum);
        assert IsDigest(sum) <==> IsSHA256(ID(sum));
      }
    }
  }

  // ---------------------------------------------------------------- the manifest

  /** An index entry of a written fact: its ID and version, its member and that member's digest. */
  predicate IsEntryOf(c: Codecs, l: Ledger, ref: FactRef, m: Member) {
    && ref.id in l.facts && ref.factVersion == l.facts[ref.id].version
    && ref.member == m.name == ID("facts/" + ref.id.name + ".json") && ref.sha256 == c.digest(m.data)
  }

  /** The index lists every fact once, in order, each as the entry of its member. */
  ghost predicate IsFactIndex(c: Codecs, l: Ledger, refs: seq<FactRef>, members: seq<Member>) {
    && |refs| == |members| == |l.facts| && (forall i | 0 <= i < |refs| :: IsEntryOf(c, l, refs[i], members[i]))
    && (forall i, j | 0 <= i < j < |refs| :: refs[i].id != refs[j].id && Leq(refs[i].id, refs[j].id))
  }

  /** What stands in a written manifest, besides what is copied from the caller. */
  ghost predicate IsManifestOf(c: Codecs, b: Bundle, p: Parts, m: Manifest) {
    && m.schema == ID("bundle/v1") && m.toolName == ID("plumbline") && m.algorithm == ID("sha256")
    && m.metaMember == ID("meta.json") && m.errorsMember == ID("errors.json") && m.integrityMember == ID("integrity.json")
    && m.bundleID == b.manifest.bundleID && m.toolVersion == b.manifest.toolVersion && m.catalogVersion == b.manifest.catalogVersion
    && m.scan == b.manifest.scan && m.redacted == b.manifest.redacted
    && IsFactIndex(c, b.facts, m.facts, p.facts)
    && (b.evidence.None? <==> m.evidence.None?)
    && (b.evidence.Some? ==> IsIndex(b.evidence.value, m.evidence.value))
  }

  predicate IsBundleID(id: string) {
    |id| == 32 && forall i | 0 <= i < 32 :: ('0' <= id[i] && id[i] <= '9') || ('a' <= id[i] && id[i] <= 'f')
  }

  lemma {:induction false} IndexOfFacts(c: Codecs, l: Ledger, members: seq<Member>, index: seq<FactRef>)
    requires AreFactMembers(c, l, SortedList(l.facts.Keys), members, index)
    ensures IsFactIndex(c, l, index, members)
  {
    var ids := SortedList(l.facts.Keys);
    CountMembers(ids);
    assert Members(ids) == l.facts.Keys && |l.facts.Keys| == |l.facts|;
    forall i | 0 <= i < |index| ensures IsEntryOf(c, l, index[i], members[i]) { assert index[i].id == ids[i]; }
    forall i, j | 0 <= i < j < |index| ensures index[i].id != index[j].id && Leq(index[i].id, index[j].id) {
      assert index[i].id == ids[i] && index[j].id == ids[j];
    }
  }

  /** What a writer puts in the manifest, and whose bundles it refuses. */
  lemma {:induction false} ManifestSays(c: Codecs, b: Bundle, p: Parts) returns (m: Manifest)
    requires IsWriting(c, b, p)
    ensures c.manifest.encode(m) == Some(p.manifestData) && IsManifestOf(c, b, p, m)
    ensures IsBundleID(b.manifest.bundleID.name) && b.manifest.catalogVersion >= 1
  {
    m := Filled(b, p.index, p.summary).manifest;
    IndexOfFacts(c, b.facts, p.facts, p.index);
  }

  lemma {:induction false} FixedPlaces(p: Parts)
    ensures var all := p.All();
            && |all| == |p.facts| + |p.evidence| + 4
            && all[0] == Member(ID("manifest.json"), p.manifestData) && all[1] == Member(ID("meta.json"), p.metaData)
            && all[|all| - 2] == Member(ID("errors.json"), p.errorsData) && all[|all| - 1] == Member(ID("integrity.json"), p.integrityData)
  {
  }

  /** A written archive holds four fixed members and one for each fact and blob. */
  lemma {:induction false} MembersWritten(c: Codecs, b: Bundle, p: Parts)
    requires IsWriting(c, b, p)
    ensures var all := p.All();
            && |all| == |b.facts.facts| + |BlobsOf(b)| + 4
            && all[0] == Member(ID("manifest.json"), p.manifestData) && all[1] == Member(ID("meta.json"), p.metaData)
            && all[|all| - 2] == Member(ID("errors.json"), p.errorsData) && all[|all| - 1] == Member(ID("integrity.json"), p.integrityData)
  {
    FixedPlaces(p);
    IndexOfFacts(c, b.facts, p.facts, p.index);
    var sums := SortedList(BlobsOf(b).Keys);
    CountMembers(sums);
    assert Members(sums) == BlobsOf(b).Keys && |BlobsOf(b).Keys| == |BlobsOf(b)|;
  }
}
