/** What a bundle that was read holds, said of the archive's own members (internal/bundle/bundle.go:830-923). */
module BundleReading {
  import opened Basics
  import opened Ids
  import opened FactSet
  import opened Evidence
  import opened BundleFormat
  import opened BundleTheorems

  // ---------------------------------------------------------------- which decoder has the word

  /** IDs of the walker's tallies, and of its interests and tallies together. */
  ghost predicate InTallies(id: ID) { exists name :: name != "" && id.name == "fs.tally." + name }
  ghost predicate InMatches(id: ID) { exists name :: name != "" && id.name == "fs." + name }

  /** What a decoder makes of a document: the type it builds, or, at another version, the bytes as they are. */
  ghost predicate Via(c: Codecs, decoder: Decoder, d: FactDoc, f: Fact) {
    if decoder.version == d.factVersion then c.decodeFact(decoder.shape, d.data) == Some(f) else Opaque(d, f)
  }

  ghost predicate Opaque(d: FactDoc, f: Fact) { f == Preserved(d.id, d.factVersion, d.data) }

  /** Registered IDs by their own decoder, tallies and other matches by theirs, anything else not at all. */
  ghost predicate Understood(c: Codecs, d: FactDoc, f: Fact) {
    && (d.id in c.registry ==> Via(c, c.registry[d.id], d, f))
    && (d.id !in c.registry && InTallies(d.id) ==> Via(c, c.tally, d, f))
    && (d.id !in c.registry && InMatches(d.id) && !InTallies(d.id) ==> Via(c, c.matches, d, f))
    && (d.id !in c.registry && !InMatches(d.id) ==> Opaque(d, f))
  }

  lemma {:induction false} PrefixAndMore(s: string, p: string)
    ensures p <= s && |s| > |p| <==> exists name :: name != "" && s == p + name
  {
    if p <= s && |s| > |p| { assert s == p + s[|p|..]; }
    if exists name :: name != "" && s == p + name {
      var name :| name != "" && s == p + name;
      assert s[..|p|] == p;
    }
  }

  lemma {:induction false} TalliesAreMatches(id: ID)
    requires InTallies(id)
    ensures InMatches(id)
  {
    var name :| name != "" && id.name == "fs.tally." + name;
    assert "fs.tally." == "fs." + "tally.";
    assert id.name == "fs." + ("tally." + name);
  }

  /** The chain of tests in decoderFor comes to that. */
  lemma {:induction false} DecodedIsUnderstood(c: Codecs, d: FactDoc, f: Fact)
    ensures DecodeDoc(c, d) == Some(f) <==> Understood(c, d, f)
  {
    PrefixAndMore(d.id.name, TALLY_PREFIX);
    PrefixAndMore(d.id.name, MATCHES_PREFIX);
    assert InTallies(d.id) <==> HasPrefix(d.id, TALLY_PREFIX) && |d.id.name| > |TALLY_PREFIX|;
    assert InMatches(d.id) <==> HasPrefix(d.id, MATCHES_PREFIX) && |d.id.name| > |MATCHES_PREFIX|;
    if InTallies(d.id) { TalliesAreMatches(d.id); }
  }

  // ---------------------------------------------------------------- the facts of the index

  /** f is what the indexed member says, and the index's digest, ID and version agree with the member. */
  ghost predicate FactAt(c: Codecs, members: map<ID, Blob>, ref: FactRef, f: Fact) {
    && ref.member in members && c.digest(members[ref.member]) == ref.sha256
    && exists data :: c.doc.decode(members[ref.member]) == Some(FactDoc(ref.id, ref.factVersion, data))
                      && Understood(c, FactDoc(ref.id, ref.factVersion, data), f)
  }

  ghost predicate FactsAt(c: Codecs, members: map<ID, Blob>, refs: seq<FactRef>, fs: seq<Fact>) {
    |fs| == |refs| && forall k | 0 <= k < |refs| :: FactAt(c, members, refs[k], fs[k])
  }

  /** The last fact of its ID. */
  ghost predicate LastFact(fs: seq<Fact>, k: int) {
    0 <= k < |fs| && forall j | k < j < |fs| :: fs[j].id != fs[k].id
  }

  ghost predicate Speaks(fs: seq<Fact>, id: ID) { exists k :: 0 <= k < |fs| && fs[k].id == id }

  /** facts holds, over what was there before, the last fact of each ID. */
  ghost predicate Filed(before: map<ID, Fact>, fs: seq<Fact>, facts: map<ID, Fact>) {
    && (forall id :: id in facts <==> id in before || Speaks(fs, id))
    && (forall k | LastFact(fs, k) :: fs[k].id in facts && facts[fs[k].id] == fs[k])
    && (forall id | id in before && !Speaks(fs, id) :: id in facts && facts[id] == before[id])
  }

  lemma {:induction false} OneRef(c: Codecs, ref: FactRef, members: map<ID, Blob>, f: Fact)
    requires ReadRef(c, ref, members) == Some(f)
    ensures FactAt(c, members, ref, f)
  {
    var doc := c.doc.decode(members[ref.member]).value;
    assert doc == FactDoc(ref.id, ref.factVersion, doc.data);
    DecodedIsUnderstood(c, doc, f);
  }

  lemma {:induction false} RefsAreFiled(c: Codecs, refs: seq<FactRef>, members: map<ID, Blob>, l0: Ledger) returns (fs: seq<Fact>)
    requires ReadRefs(c, refs, members, l0).Some? && l0.errors == map[]
    ensures FactsAt(c, members, refs, fs)
    ensures var l := ReadRefs(c, refs, members, l0).value; Filed(l0.facts, fs, l.facts) && l.errors == map[]
    decreases |refs|
  {
    if refs == [] {
      fs := [];
    } else {
      var f := ReadRef(c, refs[0], members).value;
      OneRef(c, refs[0], members, f);
      var rest := RefsAreFiled(c, refs[1..], members, l0.Put(f));
      fs := [f] + rest;
      FiledFirst(l0.facts, f, rest, ReadRefs(c, refs, members, l0).value.facts);
      forall k | 0 <= k < |refs| ensures FactAt(c, members, refs[k], fs[k]) {
        if k > 0 { assert refs[k] == refs[1..][k - 1] && fs[k] == rest[k - 1]; }
      }
    }
  }

  lemma {:induction false} SpeaksFirst(f: Fact, rest: seq<Fact>, id: ID)
    ensures Speaks([f] + rest, id) <==> id == f.id || Speaks(rest, id)
  {
    var fs := [f] + rest;
    if f.id == id { assert fs[0].id == id; }
    if Speaks(rest, id) {
      var k :| 0 <= k < |rest| && rest[k].id == id;
      assert fs[k + 1].id == id;
    }
    if Speaks(fs, id) {
      var k :| 0 <= k < |fs| && fs[k].id == id;
      assert k > 0 ==> rest[k - 1].id == id;
    }
  }

  lemma {:induction false} FiledFirst(before: map<ID, Fact>, f: Fact, rest: seq<Fact>, facts: map<ID, Fact>)
    requires Filed(before[f.id := f], rest, facts)
    ensures Filed(before, [f] + rest, facts)
  {
    var fs := [f] + rest;
    forall id ensures Speaks(fs, id) <==> id == f.id || Speaks(rest, id) { SpeaksFirst(f, rest, id); }
    forall k | LastFact(fs, k) ensures fs[k].id in facts && facts[fs[k].id] == fs[k] { LastOfMore(f, rest, k); }
  }

  lemma {:induction false} LastOfMore(f: Fact, rest: seq<Fact>, k: int)
    requires LastFact([f] + rest, k)
    ensures if k == 0 then !Speaks(rest, f.id) else LastFact(rest, k - 1) && rest[k - 1] == ([f] + rest)[k]
  {
    var fs := [f] + rest;
    assert forall j | 0 <= j < |rest| :: rest[j] == fs[j + 1];
  }

  // ---------------------------------------------------------------- the errors

  ghost predicate LastError(errs: seq<Error>, k: int) {
    0 <= k < |errs| && forall j | k < j < |errs| :: errs[j].fact != errs[k].fact
  }

  ghost predicate Blames(errs: seq<Error>, id: ID) { exists k :: 0 <= k < |errs| && errs[k].fact == id }

  /** What filing errors leaves: the facts they do not blame, and the last error of each fact they do. */
  ghost predicate ErrorsFiled(before: Ledger, errs: seq<Error>, l: Ledger) {
    && (forall id :: id in l.facts <==> id in before.facts && !Blames(errs, id))
    && (forall id | id in l.facts :: id in before.facts && l.facts[id] == before.facts[id])
    && (forall id :: id in l.errors <==> id in before.errors || Blames(errs, id))
    && (forall k | LastError(errs, k) :: errs[k].fact in l.errors && l.errors[errs[k].fact] == errs[k])
    && (forall id | id in before.errors && !Blames(errs, id) :: id in l.errors && l.errors[id] == before.errors[id])
  }

  lemma {:induction false} ErrorsAreFiled(errs: seq<Error>, before: Ledger)
    ensures ErrorsFiled(before, errs, PutErrors(errs, before))
    decreases |errs|
  {
    if errs != [] {
      var e, rest := errs[0], errs[1..];
      ErrorsAreFiled(rest, before.PutError(e));
      forall id ensures Blames(errs, id) <==> id == e.fact || Blames(rest, id) { BlamesFirst(errs, id); }
      forall k | LastError(errs, k)
        ensures if k == 0 then !Blames(rest, e.fact) else LastError(rest, k - 1) && rest[k - 1] == errs[k]
      {
        assert forall j | 0 <= j < |rest| :: rest[j] == errs[j + 1];
      }
    }
  }

  lemma {:induction false} BlamesFirst(errs: seq<Error>, id: ID)
    requires errs != []
    ensures Blames(errs, id) <==> id == errs[0].fact || Blames(errs[1..], id)
  {
    var rest := errs[1..];
    if Blames(rest, id) {
      var k :| 0 <= k < |rest| && rest[k].fact == id;
      assert errs[k + 1].fact == id;
    }
    if Blames(errs, id) {
      var k :| 0 <= k < |errs| && errs[k].fact == id;
      assert k > 0 ==> rest[k - 1].fact == id;
    }
  }

  // ---------------------------------------------------------------- what was read

  /** The errors an archive lists: none without errors.json. */
  ghost function ErrorsOf(c: Codecs, members: map<ID, Blob>): seq<Error> {
    if ID("errors.json") in members && c.errors.decode(members[ID("errors.json")]).Some?
    then c.errors.decode(members[ID("errors.json")]).value else []
  }

  /**
   * The facts read are, under each ID, the last one the index leads to, unless an error blames that ID; the errors
   * are the last one listed for each fact.
   */
  lemma {:induction false} WhatWasRead(c: Codecs, a: Archive, b: Bundle) returns (fs: seq<Fact>)
    requires ReadsAs(c, a, b)
    ensures var m, errs := MembersOf(a.entries), ErrorsOf(c, MembersOf(a.entries));
            && FactsAt(c, m, b.manifest.facts, fs)
            && (forall id :: id in b.facts.facts <==> Speaks(fs, id) && !Blames(errs, id))
            && (forall k | LastFact(fs, k) && !Blames(errs, fs[k].id) :: b.facts.At(fs[k].id) == Present(fs[k]))
            && (forall id :: id in b.facts.errors <==> Blames(errs, id))
            && (forall k | LastError(errs, k) :: b.facts.At(errs[k].fact) == Failed(errs[k]))
  {
    var m, errs := MembersOf(a.entries), ErrorsOf(c, MembersOf(a.entries));
    fs := RefsAreFiled(c, b.manifest.facts, m, EMPTY);
    var l := ReadRefs(c, b.manifest.facts, m, EMPTY).value;
    ErrorsAreFiled(errs, l);
    assert b.facts == PutErrors(errs, l);
  }

  /** Every decoder gives the fact the ID it was written under. */
  ghost predicate KeepsIDs(c: Codecs) {
    forall d, f | Understood(c, d, f) :: f.id == d.id
  }

  /** An exact registration wins: a fact of a registered ID and version is what its own decoder makes of its member. */
  lemma {:induction false} RegisteredWins(c: Codecs, a: Archive, b: Bundle, k: nat) returns (data: Blob)
    requires ReadsAs(c, a, b) && KeepsIDs(c) && k < |b.manifest.facts|
    requires var ref := b.manifest.facts[k];
             && ref.id in c.registry && c.registry[ref.id].version == ref.factVersion
             && !Blames(ErrorsOf(c, MembersOf(a.entries)), ref.id)
             && forall j | k < j < |b.manifest.facts| :: b.manifest.facts[j].id != ref.id
    ensures var ref, m := b.manifest.facts[k], MembersOf(a.entries);
            && ref.member in m && c.doc.decode(m[ref.member]) == Some(FactDoc(ref.id, ref.factVersion, data))
            && c.decodeFact(c.registry[ref.id].shape, data).Some?
            && b.facts.At(ref.id) == Present(c.decodeFact(c.registry[ref.id].shape, data).value)
  {
    var m, refs := MembersOf(a.entries), b.manifest.facts;
    var ref := refs[k];
    var fs := WhatWasRead(c, a, b);
    data :| c.doc.decode(m[ref.member]) == Some(FactDoc(ref.id, ref.factVersion, data)) && Understood(c, FactDoc(ref.id, ref.factVersion, data), fs[k]);
    forall j | k <= j < |fs| ensures fs[j].id == refs[j].id { IDOfFact(c, m, refs[j], fs[j]); }
  }

  lemma {:induction false} IDOfFact(c: Codecs, m: map<ID, Blob>, ref: FactRef, f: Fact)
    requires KeepsIDs(c) && FactAt(c, m, ref, f)
    ensures f.id == ref.id
  {
    var data :| c.doc.decode(m[ref.member]) == Some(FactDoc(ref.id, ref.factVersion, data)) && Understood(c, FactDoc(ref.id, ref.factVersion, data), f);
  }

  // ---------------------------------------------------------------- the round trip of registered facts

  /** A fact of a registered type, which its own decoder reads back. */
  ghost predicate Registered(c: Codecs, f: Fact) {
    && f.Typed? && f.id in c.registry && c.registry[f.id] == Decoder(f.version, f.shape)
    && forall data | c.encodeFact(f) == Some(data) :: c.decodeFact(f.shape, data) == Some(f)
  }

  /** A fact of a tally or of a walker interest, which the shared decoder of its namespace reads back. */
  ghost predicate OfTheWalk(c: Codecs, f: Fact) {
    && f.Typed? && f.id !in c.registry && InMatches(f.id)
    && (if InTallies(f.id) then c.tally else c.matches) == Decoder(f.version, f.shape)
    && forall data | c.encodeFact(f) == Some(data) :: c.decodeFact(f.shape, data) == Some(f)
  }

  lemma {:induction false} TypedFactSurvives(c: Codecs, f: Fact)
    requires Registered(c, f) || OfTheWalk(c, f)
    ensures Survives(c, f)
  {
    forall data | c.encodeFact(f) == Some(data) ensures DecodeDoc(c, FactDoc(f.id, f.version, data)) == Some(f) {
      if OfTheWalk(c, f) && InTallies(f.id) { TalliesAreMatches(f.id); }
      DecodedIsUnderstood(c, FactDoc(f.id, f.version, data), f);
    }
  }

  /** Whatever mixture of registered facts and facts of the walk a run collected, the archive gives them all back. */
  lemma {:induction false} CollectedFactsComeBack(c: Codecs, b: Bundle, p: Parts)
    requires CodecsInvert(c) && (forall blob :: IsSHA256(c.digest(blob))) && IsWriting(c, b, p) && b.facts.Valid()
    requires forall id | id in b.facts.facts ::
               (Registered(c, b.facts.facts[id]) || OfTheWalk(c, b.facts.facts[id])) && ValidMemberName(FactName(id))
    requires b.evidence.Some? ==> Addressed(c.digest, b.evidence.value) && forall src | src in b.evidence.value.truncated :: c.clean(src) == src
    requires SizeOf(ArchiveOf(p).entries) <= MAX_DECOMPRESSED_BYTES
    ensures exists r :: ReadsAs(c, ArchiveOf(p), r) && r.facts == b.facts && r.evidence == b.evidence && r.meta == b.meta
  {
    forall id | id in b.facts.facts ensures Survives(c, b.facts.facts[id]) { TypedFactSurvives(c, b.facts.facts[id]); }
    RoundTrip(c, b, p);
    assert Filled(b, p.index, p.summary).facts == b.facts;
  }
}
