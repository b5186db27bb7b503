/**
 The other half of name errors: with the whole ring of a zone as evidence, the
 verdict follows from the names the zone has, `Secure` exactly when those in
 question are missing.
 */
module DenialComplete {
  import opened Bytes
  import opened Order
  import opened DnsName
  import opened DnsWire
  import opened Denial
  import opened Zones
  import opened DenialProofs

  /** The hashes of all names of the zone, under given parameters, in rising order. */
  ghost predicate HashRing(sha1: Sha1, s: Space, params: Nsec3Data, ring: seq<Bytes>) {
    && ring != [] && StrictlySorted(BytesBefore(), ring)
    && (forall x :: x in ring ==> IsHashOfName(sha1, s, params, x))
    && (forall n :: InZone(s, n) ==> NameHash(sha1, n, params.iterations, params.salt) in ring)
  }

  ghost predicate IsHashOfName(sha1: Sha1, s: Space, params: Nsec3Data, x: Bytes) {
    exists n :: InZone(s, n) && NameHash(sha1, n, params.iterations, params.salt) == x
  }

  ghost predicate Spans(ring: seq<Bytes>, i: nat, p: Nsec3Proof)
    requires i < |ring|
  {
    p.ownerHash == ring[i] && p.nsec3.next == After(ring, i)
  }

  ghost predicate HasRecord(proofs: seq<Nsec3Proof>, ring: seq<Bytes>, i: nat)
    requires i < |ring|
  {
    exists p :: p in proofs && Spans(ring, i, p)
  }

  /** The record tells exactly at which names with its hash the zone stops. */
  ghost predicate TellsExactly(sha1: Sha1, s: Space, p: Nsec3Proof) {
    && ValidBitMaps(p.nsec3.types, -1)
    && forall n :: InZone(s, n) && NameHash(sha1, n, p.nsec3.iterations, p.nsec3.salt) == p.ownerHash ==>
         TellsCuts(s, n, p.nsec3.types) && (ShowsCut(p.nsec3.types) ==> n in Cuts(s))
  }

  /** A signed set that gives one record, all opt-out or none, for every hash of the ring, in any order. */
  ghost predicate FullRing(c: Checker, s: Space, rrset: RRset, rrsigs: RRset, params: Nsec3Data, ring: seq<Bytes>,
                           optOut: bool) {
    var r := ParseProofs(rrset, c.signer);
    && SignatureStatus(c, rrset, rrsigs) == Ok(Secure) && r.Ok? && params.iterations <= NSEC3_MAX_ITERATIONS
    && (forall p :: p in r.value ==> IsUsable(p.nsec3) && SameParams(params, p.nsec3) && IsOptOut(p.nsec3) == optOut)
    && (forall p :: p in r.value ==> TellsExactly(c.sha1, s, p))
    && (forall p :: p in r.value ==> exists i :: 0 <= i < |ring| && Spans(ring, i, p))
    && (forall i :: 0 <= i < |ring| ==> HasRecord(r.value, ring, i))
  }

  ghost predicate TwentyOctets(sha1: Sha1) { forall s :: |sha1(s)| == 20 }

  /** A test that never fails and that some eligible proof passes finds one. */
  lemma {:induction false} ProofIsFound(proofs: seq<Nsec3Proof>, expected: Option<Nsec3Data>,
                                        test: Nsec3Proof -> Result<bool, DnssecError>, witness_: Nsec3Proof)
    requires forall p :: p in proofs ==> test(p).Ok? && (expected.Some? ==> SameParams(expected.value, p.nsec3))
    requires witness_ in proofs && test(witness_) == Ok(true)
    ensures FindProof(proofs, expected, test).Ok? && FindProof(proofs, expected, test).value.Some?
  {
    hide SameParams;
    assert proofs[0] in proofs;
    if test(proofs[0]) != Ok(true) { ProofIsFound(proofs[1..], expected, test, witness_); }
  }

  lemma {:induction false} RehashLength(sha1: Sha1, hash: Bytes, salt: Bytes, times: nat)
    requires TwentyOctets(sha1) && |hash| == 20
    ensures |Rehash(sha1, hash, salt, times)| == 20
    decreases times
  {
    if times > 0 { RehashLength(sha1, sha1(hash + salt), salt, times - 1); }
  }

  lemma UsableHash(sha1: Sha1, name: Name, n: Nsec3Data)
    requires ValidName(name) && IsUsable(n) && n.iterations <= NSEC3_MAX_ITERATIONS
    ensures Nsec3Hash(sha1, name, n) == Ok(NameHash(sha1, name, n.iterations, n.salt))
  {
  }

  lemma RingLength(c: Checker, s: Space, params: Nsec3Data, ring: seq<Bytes>, name: Name)
    requires HashRing(c.sha1, s, params, ring) && TwentyOctets(c.sha1)
    ensures |NameHash(c.sha1, name, params.iterations, params.salt)| == 20
    ensures forall i :: 0 <= i < |ring| ==> |ring[i]| == 20
  {
    hide StrictlySorted, Rehash, InZone;
    forall n: Name ensures |NameHash(c.sha1, n, params.iterations, params.salt)| == 20 {
      RehashLength(c.sha1, c.sha1(WriteName(n) + params.salt), params.salt, params.iterations);
    }
    hide NameHash;
    forall i | 0 <= i < |ring| ensures |ring[i]| == 20 {
      assert IsHashOfName(c.sha1, s, params, ring[i]);
    }
  }

  /** The record of a name of the zone is found. */
  lemma ExistingIsMatched(c: Checker, s: Space, rrset: RRset, rrsigs: RRset, params: Nsec3Data, ring: seq<Bytes>,
                          optOut: bool, name: Name)
    requires HashRing(c.sha1, s, params, ring) && FullRing(c, s, rrset, rrsigs, params, ring, optOut)
    requires ValidName(name) && InZone(s, name)
    ensures var r := FindMatching(c.sha1, ParseProofs(rrset, c.signer).value, name, None);
      r.Ok? && r.value.Some?
  {
    hide ValidName, ParseProofs, StrictlySorted, NameHash, SignatureStatus, IsOptOut, InZone, TellsExactly;
    var proofs, hash := ParseProofs(rrset, c.signer).value, NameHash(c.sha1, name, params.iterations, params.salt);
    assert hash in ring;
    var i :| 0 <= i < |ring| && ring[i] == hash;
    assert HasRecord(proofs, ring, i);
    var p :| p in proofs && Spans(ring, i, p);
    forall q | q in proofs ensures Matches(c.sha1, q, name).Ok? { UsableHash(c.sha1, name, q.nsec3); }
    UsableHash(c.sha1, name, p.nsec3);
    ProofIsFound(proofs, None, q => Matches(c.sha1, q, name), p);
  }

  /** A name that is not of the zone, and whose hash is no other name's, is covered. */
  lemma MissingIsCovered(c: Checker, s: Space, rrset: RRset, rrsigs: RRset, params: Nsec3Data, ring: seq<Bytes>,
                         optOut: bool, name: Name, expected: Option<Nsec3Data>)
    requires HashRing(c.sha1, s, params, ring) && FullRing(c, s, rrset, rrsigs, params, ring, optOut)
    requires TwentyOctets(c.sha1)
    requires ValidName(name) && !InZone(s, name) && NoCollision(c.sha1, s, name, params)
    requires expected.Some? ==> SameParams(params, expected.value)
    ensures var r := FindCovering(c.sha1, ParseProofs(rrset, c.signer).value, name, expected);
      r.Ok? && r.value.Some?
  {
    hide ValidName, ParseProofs, NameHash, SignatureStatus, IsOptOut, Nsec3CoversHash, StrictlySorted, TwentyOctets,
      InZone, TellsExactly;
    var proofs := ParseProofs(rrset, c.signer).value;
    var at := MissingIsOnArc(c, s, params, ring, name);
    assert HasRecord(proofs, ring, at);
    var p :| p in proofs && Spans(ring, at, p);
    forall q | q in proofs ensures Covers(c.sha1, q, name).Ok? { UsableHash(c.sha1, name, q.nsec3); }
    UsableHash(c.sha1, name, p.nsec3);
    ProofIsFound(proofs, expected, q => Covers(c.sha1, q, name), p);
  }

  lemma MissingIsOnArc(c: Checker, s: Space, params: Nsec3Data, ring: seq<Bytes>, name: Name) returns (at: nat)
    requires HashRing(c.sha1, s, params, ring) && TwentyOctets(c.sha1)
    requires !InZone(s, name) && NoCollision(c.sha1, s, name, params)
    ensures at < |ring|
    ensures Nsec3CoversHash(ring[at], After(ring, at), NameHash(c.sha1, name, params.iterations, params.salt))
  {
    hide NameHash, Nsec3CoversHash, StrictlySorted, TwentyOctets, InZone;
    var hash := NameHash(c.sha1, name, params.iterations, params.salt);
    RingLength(c, s, params, ring, name);
    assert hash in ring ==> IsHashOfName(c.sha1, s, params, hash);
    at := Nsec3RingPartition(ring, hash);
  }

  lemma NothingOnArc(c: Checker, s: Space, params: Nsec3Data, ring: seq<Bytes>, i: nat, name: Name)
    requires HashRing(c.sha1, s, params, ring) && TwentyOctets(c.sha1) && i < |ring| && InZone(s, name)
    ensures !Nsec3CoversHash(ring[i], After(ring, i), NameHash(c.sha1, name, params.iterations, params.salt))
  {
    hide NameHash, StrictlySorted, InZone, TwentyOctets, Nsec3CoversHash;
    RingLength(c, s, params, ring, name);
    var at := Nsec3RingPartition(ring, NameHash(c.sha1, name, params.iterations, params.salt));
  }

  /** What a record of a full ring covers, opt-out or not, is no name of the ring's zone. */
  lemma CoveredIsMissing(c: Checker, s: Space, rrset: RRset, rrsigs: RRset, params: Nsec3Data, ring: seq<Bytes>,
                         optOut: bool, p: Nsec3Proof, name: Name)
    requires HashRing(c.sha1, s, params, ring) && FullRing(c, s, rrset, rrsigs, params, ring, optOut)
    requires TwentyOctets(c.sha1)
    requires p in ParseProofs(rrset, c.signer).value && Covers(c.sha1, p, name) == Ok(true)
    ensures !InZone(s, name)
  {
    hide ParseProofs, NameHash, SignatureStatus, IsOptOut, StrictlySorted, InZone, TwentyOctets, Nsec3CoversHash,
      TellsExactly, HashRing, EncodeName;
    var i :| 0 <= i < |ring| && Spans(ring, i, p);
    if InZone(s, name) { NothingOnArc(c, s, params, ring, i, name); }
  }

  /** In a full ring whatever is looked for is found or not; no record is at fault. */
  lemma {:induction false} SearchSettles(proofs: seq<Nsec3Proof>, expected: Option<Nsec3Data>,
                                         test: Nsec3Proof -> Result<bool, DnssecError>)
    requires forall p :: p in proofs ==> test(p).Ok?
    ensures FindProof(proofs, expected, test).Ok?
  {
    if proofs != [] {
      assert proofs[0] in proofs;
      SearchSettles(proofs[1..], expected, test);
    }
  }

  /** The search for the encloser's record ends with one exactly if it is a name of the zone, and shows whether the zone
      stops there. */
  lemma MatchingIs(c: Checker, s: Space, rrset: RRset, rrsigs: RRset, params: Nsec3Data, ring: seq<Bytes>,
                   optOut: bool, name: Name)
    requires HashRing(c.sha1, s, params, ring) && FullRing(c, s, rrset, rrsigs, params, ring, optOut)
    requires ValidName(name) && NoCollision(c.sha1, s, name, params)
    ensures var r := FindMatching(c.sha1, ParseProofs(rrset, c.signer).value, name, None);
      && r.Ok? && (r.value.Some? <==> InZone(s, name))
      && (r.value.Some? ==> SameParams(params, r.value.value.nsec3))
      && (r.value.Some? ==> IsAuthoritative(r.value.value.nsec3) == Ok(name !in Cuts(s)))
  {
    hide ValidName, ParseProofs, StrictlySorted, SignatureStatus, IsOptOut, InZone, IsAuthoritative, ShowsCut,
      TellsCuts, NameHash;
    var proofs := ParseProofs(rrset, c.signer).value;
    forall q | q in proofs ensures Matches(c.sha1, q, name).Ok? { UsableHash(c.sha1, name, q.nsec3); }
    SearchSettles(proofs, None, q => Matches(c.sha1, q, name));
    if InZone(s, name) { ExistingIsMatched(c, s, rrset, rrsigs, params, ring, optOut, name); }
    var r := FindMatching(c.sha1, proofs, name, None);
    if r.value.Some? {
      FoundProof(proofs, None, q => Matches(c.sha1, q, name));
      var p := r.value.value;
      UsableHash(c.sha1, name, p.nsec3);
      var i :| 0 <= i < |ring| && Spans(ring, i, p);
      assert IsHashOfName(c.sha1, s, params, ring[i]);
      AuthorityIsTold(s, p, name);
    }
  }

  lemma AuthorityIsTold(s: Space, p: Nsec3Proof, name: Name)
    requires ValidBitMaps(p.nsec3.types, -1)
    requires TellsCuts(s, name, p.nsec3.types) && (ShowsCut(p.nsec3.types) ==> name in Cuts(s))
    ensures IsAuthoritative(p.nsec3) == Ok(name !in Cuts(s))
  {
    hide Lists;
  }

  /** The search for a covering record ends with one exactly if the name is not of the zone. */
  lemma CoveringIs(c: Checker, s: Space, rrset: RRset, rrsigs: RRset, params: Nsec3Data, ring: seq<Bytes>,
                   optOut: bool, name: Name, expected: Option<Nsec3Data>)
    requires HashRing(c.sha1, s, params, ring) && FullRing(c, s, rrset, rrsigs, params, ring, optOut)
    requires TwentyOctets(c.sha1) && ValidName(name) && NoCollision(c.sha1, s, name, params)
    requires expected.Some? ==> SameParams(params, expected.value)
    ensures var r := FindCovering(c.sha1, ParseProofs(rrset, c.signer).value, name, expected);
      r.Ok? && (r.value.Some? <==> !InZone(s, name)) && (r.value.Some? ==> IsOptOut(r.value.value.nsec3) == optOut)
  {
    hide ValidName, ParseProofs, SignatureStatus, IsOptOut, InZone, TellsExactly, HashRing, TwentyOctets,
      NoCollision, NameHash, Nsec3CoversHash;
    var proofs := ParseProofs(rrset, c.signer).value;
    forall q | q in proofs ensures Covers(c.sha1, q, name).Ok? { UsableHash(c.sha1, name, q.nsec3); }
    SearchSettles(proofs, expected, q => Covers(c.sha1, q, name));
    if !InZone(s, name) { MissingIsCovered(c, s, rrset, rrsigs, params, ring, optOut, name, expected); }
    var r := FindCovering(c.sha1, proofs, name, expected);
    if r.value.Some? {
      FoundProof(proofs, expected, q => Covers(c.sha1, q, name));
      CoveredIsMissing(c, s, rrset, rrsigs, params, ring, optOut, r.value.value, name);
    }
  }

  /** Which of the three record sets of an NSEC3 proof are opt-out. */
  datatype OptOuts = OptOuts(closest: bool, nextCloser: bool, wildcard: bool)

  /** A full ring, in the zone's own words, in each of the three places of an NSEC3 proof. */
  ghost predicate FullEvidence(c: Checker, s: Space, e: Evidence, params: Nsec3Data, ring: seq<Bytes>, outs: OptOuts) {
    && TwentyOctets(c.sha1) && HashRing(c.sha1, s, params, ring)
    && FullRing(c, s, e.closest, e.closestSigs, params, ring, outs.closest)
    && FullRing(c, s, e.nextCloser, e.nextCloserSigs, params, ring, outs.nextCloser)
    && FullRing(c, s, e.wildcard, e.wildcardSigs, params, ring, outs.wildcard)
  }

  /** No name of the zone hashes like another name that matters here. */
  ghost predicate NoNameCollides(sha1: Sha1, s: Space, query: Name, encloser: Name, params: Nsec3Data) {
    && NoCollision(sha1, s, encloser, params) && NoCollision(sha1, s, [WILDCARD] + encloser, params)
    && (IsStrictSubdomain(query, encloser) ==> NoCollision(sha1, s, query[|query| - |encloser| - 1..], params))
  }

  /** The zone has the encloser, above the query, and does not stop there; one label further down it has nothing. */
  ghost predicate IsClosest(s: Space, query: Name, encloser: Name) {
    && IsStrictSubdomain(query, encloser) && InZone(s, encloser) && encloser !in Cuts(s)
    && !InZone(s, query[|query| - |encloser| - 1..])
  }

  lemma EncloserProofIs(c: Checker, query: Name, encloser: Name, e: Evidence, s: Space, params: Nsec3Data,
                        ring: seq<Bytes>, outs: OptOuts)
    requires ValidName(query) && FullEvidence(c, s, e, params, ring, outs)
    requires NoNameCollides(c.sha1, s, query, encloser, params)
    ensures var r := ClosestEncloserProof(c, query, encloser, e);
      && r.Ok? && (r.value.Valid? <==> IsClosest(s, query, encloser)) && (r.value.Status? ==> r.value.status == Bogus)
      && (r.value.Valid? ==> SameParams(params, r.value.closest.nsec3))
      && (r.value.Valid? ==> IsOptOut(r.value.nextCloser.nsec3) == outs.nextCloser)
  {
    hide ValidName, ParseProofs, FindMatching, FindCovering, HashRing, TwentyOctets, NoCollision, SameParams, InZone,
      IsAuthoritative, IsOptOut, SignatureStatus, NextCloserName;
    if IsStrictSubdomain(query, encloser) {
      NextCloserIs(query, encloser);
      MatchingIs(c, s, e.closest, e.closestSigs, params, ring, outs.closest, encloser);
      if InZone(s, encloser) && encloser !in Cuts(s) {
        var closest := FindMatching(c.sha1, ParseProofs(e.closest, c.signer).value, encloser, None).value.value;
        CoveringIs(c, s, e.nextCloser, e.nextCloserSigs, params, ring, outs.nextCloser,
                   query[|query| - |encloser| - 1..], Some(closest.nsec3));
      }
    }
  }

  /**
   The verdict on a name error with full evidence, case by case. `Bogus` unless
   the encloser is the closest; then insecure if the next closer name was
   passed over by opt-out; then an error if the wildcard's name is too long;
   then `Bogus` if the zone has the wildcard, insecure if that was passed over
   by opt-out, and `Secure` in the one case left.
   */
  lemma Nsec3NameErrorIs(c: Checker, query: Name, encloser: Name, e: Evidence, s: Space, params: Nsec3Data,
                         ring: seq<Bytes>, outs: OptOuts)
    requires ValidName(query) && FullEvidence(c, s, e, params, ring, outs)
    requires NoNameCollides(c.sha1, s, query, encloser, params)
    ensures Nsec3NameError(c, query, encloser, e) ==
            if !IsClosest(s, query, encloser) then Ok(Bogus)
            else if outs.nextCloser then Ok(InsecureDelegation)
            else if LabelsLen(encloser) + 2 > MAX_DNS_NAME_LEN then Err(NameEncoding)
            else if InZone(s, [WILDCARD] + encloser) then Ok(Bogus)
            else if outs.wildcard then Ok(InsecureDelegation)
            else Ok(Secure)
  {
    hide ValidName, ParseProofs, FindCovering, HashRing, TwentyOctets, NoCollision, SameParams, InZone, IsOptOut,
      SignatureStatus, WildcardChild, ClosestEncloserProof;
    EncloserProofIs(c, query, encloser, e, s, params, ring, outs);
    if IsClosest(s, query, encloser) && !outs.nextCloser {
      NextCloserIs(query, encloser);
      WildcardChildIs(encloser);
      if LabelsLen(encloser) + 2 <= MAX_DNS_NAME_LEN {
        WildcardIsValid(encloser);
        CoveringIs(c, s, e.wildcard, e.wildcardSigs, params, ring, outs.wildcard, [WILDCARD] + encloser,
                   Some(ClosestEncloserProof(c, query, encloser, e).value.closest.nsec3));
      }
    }
  }

  /**
   Without opt-out the verdict is `Secure` exactly when the encloser is a name
   of the zone above the query, and no cut, and neither the next closer name
   nor the wildcard below the encloser exists, in this zone or in another.
   */
  lemma Nsec3NameErrorIff(c: Checker, query: Name, encloser: Name, e: Evidence, s: Space, params: Nsec3Data,
                          ring: seq<Bytes>, outs: OptOuts)
    requires ValidName(query) && LabelsLen(encloser) + 2 <= MAX_DNS_NAME_LEN && !outs.nextCloser && !outs.wildcard
    requires ValidSpace(s) && FullEvidence(c, s, e, params, ring, outs)
    requires NoNameCollides(c.sha1, s, query, encloser, params)
    ensures Nsec3NameError(c, query, encloser, e) == Ok(Secure) <==>
      && IsStrictSubdomain(query, encloser) && InZone(s, encloser) && encloser !in Cuts(s)
      && query[|query| - |encloser| - 1..] !in s.all && [WILDCARD] + encloser !in s.all
  {
    hide ValidName, FullEvidence, NoNameCollides, Nsec3NameError, ValidSpace;
    Nsec3NameErrorIs(c, query, encloser, e, s, params, ring, outs);
    if IsClosest(s, query, encloser) {
      var next, wildcard := query[|query| - |encloser| - 1..], [WILDCARD] + encloser;
      assert next[1..] == query[|query| - |encloser|..] == encloser && wildcard[1..] == encloser;
      if !InZone(s, next) { NoCutNoHiddenChild(s, encloser, next); }
      if !InZone(s, wildcard) { NoCutNoHiddenChild(s, encloser, wildcard); }
    }
  }

  lemma WildcardIsValid(encloser: Name)
    requires ValidName(encloser) && LabelsLen(encloser) + 2 <= MAX_DNS_NAME_LEN
    ensures ValidName([WILDCARD] + encloser)
  {
    WildcardIsStored();
    var labels := [WILDCARD] + encloser;
    assert labels[1..] == encloser && forall i :: 0 < i < |labels| ==> labels[i] == encloser[i - 1];
  }

  /** The verdict on a wildcard answer: what counts is whether the next closer name is a name of the zone. */
  lemma Nsec3WildcardAnswerIs(c: Checker, query: Name, encloser: Name, e: Evidence, s: Space, params: Nsec3Data,
                              ring: seq<Bytes>, optOut: bool)
    requires ValidName(query) && TwentyOctets(c.sha1) && HashRing(c.sha1, s, params, ring)
    requires FullRing(c, s, e.nextCloser, e.nextCloserSigs, params, ring, optOut)
    requires IsStrictSubdomain(query, encloser) ==>
               NoCollision(c.sha1, s, query[|query| - |encloser| - 1..], params)
    ensures Nsec3WildcardAnswer(c, query, encloser, e) ==
            if !IsStrictSubdomain(query, encloser) || InZone(s, query[|query| - |encloser| - 1..]) then Ok(Bogus)
            else if optOut then Ok(InsecureDelegation)
            else Ok(Secure)
  {
    hide ValidName, ParseProofs, FindCovering, HashRing, TwentyOctets, NoCollision, IsOptOut, SignatureStatus,
      NextCloserName, InZone, TellsExactly;
    if IsStrictSubdomain(query, encloser) {
      NextCloserIs(query, encloser);
      CoveringIs(c, s, e.nextCloser, e.nextCloserSigs, params, ring, optOut, query[|query| - |encloser| - 1..], None);
    }
  }

  // --------------------------------------------------------------- NSEC rings

  ghost predicate Links(ring: seq<Name>, i: nat, r: ResourceRecord)
    requires i < |ring|
  {
    r.recordType == Nsec && ParseNsec(r).Ok? && r.name == ring[i] && ParseNsec(r).value.next == After(ring, i)
  }

  ghost predicate HasLink(rrset: RRset, ring: seq<Name>, i: nat)
    requires i < |ring|
  {
    exists r :: r in rrset && Links(ring, i, r)
  }

  /** A signed set that gives one well-formed record for every name of the ring, in any order. */
  ghost predicate FullNsecRing(c: Checker, rrset: RRset, rrsigs: RRset, ring: seq<Name>) {
    && rrset != [] && c.signature(rrset, rrsigs) == Ok(Secure)
    && (forall r :: r in rrset && r.recordType == Nsec ==> exists i :: 0 <= i < |ring| && Links(ring, i, r))
    && (forall i :: 0 <= i < |ring| ==> HasLink(rrset, ring, i))
  }

  lemma {:induction false} CoveredIsFound(rrset: RRset, query: Name, r: ResourceRecord)
    requires forall x :: x in rrset && x.recordType == Nsec ==> ParseNsec(x).Ok?
    requires r in rrset && r.recordType == Nsec && NsecCoversName(r.name, ParseNsec(r).value.next, query)
    ensures CoveredByOne(rrset, query) == Ok(true)
    decreases |rrset|
  {
    hide ParseNsec, NsecCoversName;
    assert rrset[0] in rrset;
    if r != rrset[0] { CoveredIsFound(rrset[1..], query, r); }
  }

  /** Every NSEC record of the set links two neighbours in the zone's canonical order. */
  ghost predicate ChainedInZone(names: set<Name>, rrset: RRset) {
    forall r :: r in rrset && ParseNsec(r).Ok? ==> IsSuccessor(NamesBefore(), names, r.name, ParseNsec(r).value.next)
  }

  lemma {:induction false} CoveredIsAbsent(names: set<Name>, rrset: RRset, query: Name)
    requires ChainedInZone(names, rrset) && CoveredByOne(rrset, query) == Ok(true)
    ensures query !in names
    decreases |rrset|
  {
    hide ParseNsec, NsecCoversName, IsSuccessor;
    var first := rrset[0];
    if first.recordType == Nsec && NsecCoversName(first.name, ParseNsec(first).value.next, query) {
      CoveredNameIsAbsent(names, first.name, ParseNsec(first).value.next, query);
    } else {
      CoveredIsAbsent(names, rrset[1..], query);
    }
  }

  lemma {:induction false} ScanSettles(rrset: RRset, query: Name)
    requires forall x :: x in rrset && x.recordType == Nsec ==> ParseNsec(x).Ok?
    ensures CoveredByOne(rrset, query).Ok?
    decreases |rrset|
  {
    hide ParseNsec, NsecCoversName;
    if rrset != [] {
      assert rrset[0] in rrset;
      ScanSettles(rrset[1..], query);
    }
  }

  lemma RangeIs(c: Checker, rrset: RRset, rrsigs: RRset, ring: seq<Name>, query: Name)
    requires ring != [] && StrictlySorted(NamesBefore(), ring) && FullNsecRing(c, rrset, rrsigs, ring)
    ensures NsecNameRange(c, query, rrset, rrsigs) == Ok(if query in ring then Bogus else Secure)
  {
    hide ParseNsec, NsecCoversName, StrictlySorted, IsSuccessor;
    ScanSettles(rrset, query);
    if query !in ring {
      var at := NsecRingPartition(ring, query);
      assert HasLink(rrset, ring, at);
      var r :| r in rrset && Links(ring, at, r);
      CoveredIsFound(rrset, query, r);
    } else if CoveredByOne(rrset, query) == Ok(true) {
      NsecRingIsChained(c, rrset, rrsigs, ring);
      CoveredIsAbsent((set x | x in ring), rrset, query);
    }
  }

  lemma NsecRingIsChained(c: Checker, rrset: RRset, rrsigs: RRset, ring: seq<Name>)
    requires ring != [] && StrictlySorted(NamesBefore(), ring) && FullNsecRing(c, rrset, rrsigs, ring)
    ensures ChainedInZone((set x | x in ring), rrset)
  {
    hide StrictlySorted, IsSuccessor;
    NamesAreOrdered();
    forall r | r in rrset && ParseNsec(r).Ok?
      ensures IsSuccessor(NamesBefore(), (set x | x in ring), r.name, ParseNsec(r).value.next)
    {
      var i :| 0 <= i < |ring| && Links(ring, i, r);
      NeighboursAreSuccessors(NamesBefore(), ring, i);
    }
  }

  /**
   The verdict with full rings: `Bogus` unless the query is below the encloser
   and missing, an error if the wildcard's name is too long, and otherwise
   `Secure` or `Bogus` as the wildcard is missing or not.
   */
  lemma NsecNameErrorIs(c: Checker, query: Name, encloser: Name, covering: RRset, coveringSigs: RRset,
                        wildcard: RRset, wildcardSigs: RRset, ring: seq<Name>)
    requires ValidName(query) && ring != [] && StrictlySorted(NamesBefore(), ring)
    requires FullNsecRing(c, covering, coveringSigs, ring) && FullNsecRing(c, wildcard, wildcardSigs, ring)
    ensures NsecNameError(c, query, encloser, covering, coveringSigs, wildcard, wildcardSigs) ==
            if !IsStrictSubdomain(query, encloser) || query in ring then Ok(Bogus)
            else if LabelsLen(encloser) + 2 > MAX_DNS_NAME_LEN then Err(NameEncoding)
            else if [WILDCARD] + encloser in ring then Ok(Bogus)
            else Ok(Secure)
  {
    hide StrictlySorted, NsecNameRange, WildcardChild, ValidName;
    if IsStrictSubdomain(query, encloser) {
      NextCloserIs(query, encloser);
      WildcardChildIs(encloser);
      RangeIs(c, covering, coveringSigs, ring, query);
      RangeIs(c, wildcard, wildcardSigs, ring, [WILDCARD] + encloser);
    }
  }
}
