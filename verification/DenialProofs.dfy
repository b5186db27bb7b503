/**
 Name errors proved by NSEC and NSEC3 records: what the validators check, and
 what a `Secure` verdict says about the zone the records were taken from.
 Signatures are an unknown verdict on a record set and its signatures.
 */
module DenialProofs {
  import opened Bytes
  import opened Order
  import opened DnsName
  import opened DnsWire
  import opened Denial
  import opened Zones
  import Base32

  /** Signer, signature check at the current time under the signer's keys, and hash. */
  datatype Checker = Checker(signer: Name, signature: (RRset, RRset) -> Result<DnssecStatus, DnssecError>, sha1: Sha1)

  const WILDCARD: Bytes := [STAR]

  // -------------------------------------------------------------------- names

  /** The ancestor of `query` one label below `encloser`, written out as text and read back. */
  function NextCloserName(query: Name, encloser: Name): Result<Name, DnssecError> {
    if !IsStrictSubdomain(query, encloser) then Err(NameEncoding)
    else
      match FromAscii(Join(query[|query| - |encloser| - 1..]))
      case Err(_) => Err(NameEncoding)
      case Ok(name) => Ok(name)
  }

  function WildcardChild(encloser: Name): Result<Name, DnssecError> {
    match FromAscii(if encloser == [] then WILDCARD else WILDCARD + [DOT] + Join(encloser))
    case Err(_) => Err(NameEncoding)
    case Ok(name) => Ok(name)
  }

  lemma NextCloserIs(query: Name, encloser: Name)
    requires ValidName(query) && IsStrictSubdomain(query, encloser)
    ensures NextCloserName(query, encloser) == Ok(query[|query| - |encloser| - 1..])
    ensures ValidName(query[|query| - |encloser| - 1..]) && ValidName(encloser)
  {
    hide ValidName, FromAscii, Join;
    SuffixIsName(query, |query| - |encloser| - 1);
    SuffixIsName(query, |query| - |encloser|);
  }

  lemma WildcardChildIs(encloser: Name)
    requires ValidName(encloser)
    ensures WildcardChild(encloser) ==
            if LabelsLen(encloser) + 2 > MAX_DNS_NAME_LEN then Err(NameEncoding) else Ok([WILDCARD] + encloser)
  {
    hide FromAscii, StoredLabel;
    var labels := [WILDCARD] + encloser;
    WildcardIsStored();
    assert labels[1..] == encloser;
    forall i | 0 <= i < |labels| ensures StoredLabel(labels[i]) {
      if i > 0 { assert labels[i] == encloser[i - 1]; }
    }
    FromAsciiJoined(labels);
    assert Join(labels) == if encloser == [] then WILDCARD else WILDCARD + [DOT] + Join(encloser);
  }

  lemma WildcardIsStored()
    ensures StoredLabel(WILDCARD)
  {
    assert Lowercase(WILDCARD) == WILDCARD;
  }

  // -------------------------------------------------------------- NSEC3 proofs

  datatype Nsec3Proof = Nsec3Proof(nsec3: Nsec3Data, ownerHash: Bytes)

  /** The hash an NSEC3 owner name spells, directly below the zone. */
  function OwnerHash(owner: Name, zone: Name): Result<Bytes, DnssecError> {
    if |owner| != |zone| + 1 || owner[1..] != zone then Err(InvalidNsec3)
    else
      match Base32.Decode(owner[0])
      case None => Err(InvalidNsec3)
      case Some(hash) => Ok(hash)
  }

  /** The usable NSEC3 records of a set, with their owner hashes. */
  function ParseProofs(rrset: RRset, zone: Name): Result<seq<Nsec3Proof>, DnssecError>
    decreases |rrset|
  {
    if rrset == [] then Ok([])
    else if rrset[0].recordType != Nsec3 then ParseProofs(rrset[1..], zone)
    else
      match ParseNsec3(rrset[0])
      case Err(e) => Err(e)
      case Ok(nsec3) =>
        if !IsUsable(nsec3) then ParseProofs(rrset[1..], zone)
        else
          match OwnerHash(rrset[0].name, zone)
          case Err(e) => Err(e)
          case Ok(hash) =>
            match ParseProofs(rrset[1..], zone)
            case Err(e) => Err(e)
            case Ok(rest) => Ok(if |hash| != |nsec3.next| then rest else [Nsec3Proof(nsec3, hash)] + rest)
  }

  method CollectProofs(rrset: RRset, zone: Name) returns (r: Result<seq<Nsec3Proof>, DnssecError>)
    ensures r == ParseProofs(rrset, zone)
  {
    hide ParseNsec3, OwnerHash;
    var proofs: seq<Nsec3Proof> := [];
    assert rrset[0..] == rrset;
    assert forall rest: seq<Nsec3Proof> :: [] + rest == rest;
    for k := 0 to |rrset|
      invariant ParseProofs(rrset, zone) == MoreProofs(proofs, ParseProofs(rrset[k..], zone))
    {
      var record := rrset[k];
      assert rrset[k..][0] == record && rrset[k..][1..] == rrset[k + 1..];
      if record.recordType != Nsec3 {
        continue;
      }
      var nsec3 := ParseNsec3(record);
      if nsec3.Err? {
        return Err(nsec3.error);
      }
      if !IsUsable(nsec3.value) {
        continue;
      }
      var hash := OwnerHash(record.name, zone);
      if hash.Err? {
        return Err(hash.error);
      }
      if |hash.value| != |nsec3.value.next| {
        continue;
      }
      var proof := Nsec3Proof(nsec3.value, hash.value);
      assert forall rest: seq<Nsec3Proof> :: proofs + ([proof] + rest) == proofs + [proof] + rest;
      proofs := proofs + [proof];
    }
    assert proofs + [] == proofs;
    r := Ok(proofs);
  }

  function MoreProofs(done: seq<Nsec3Proof>, rest: Result<seq<Nsec3Proof>, DnssecError>)
    : Result<seq<Nsec3Proof>, DnssecError>
  {
    match rest case Err(e) => Err(e) case Ok(proofs) => Ok(done + proofs)
  }

  /** A record that can serve as a proof: SHA-1, no flag but opt-out, named by its hash right below the zone, and of
      one hash length. */
  ghost predicate Serves(r: ResourceRecord, zone: Name, p: Nsec3Proof) {
    && r.recordType == Nsec3 && ParseNsec3(r) == Ok(p.nsec3) && p.nsec3.algorithm == 1 && p.nsec3.flags in {0, 1}
    && |r.name| == |zone| + 1 && r.name[1..] == zone && Base32.Decode(r.name[0]) == Some(p.ownerHash)
    && |p.ownerHash| == |p.nsec3.next|
  }

  /** The proofs of a set are all its records that can serve. */
  lemma {:induction false} ProofsAre(rrset: RRset, zone: Name)
    requires ParseProofs(rrset, zone).Ok?
    ensures forall p :: p in ParseProofs(rrset, zone).value <==> exists r :: r in rrset && Serves(r, zone, p)
    decreases |rrset|
  {
    hide ParseNsec3;
    if rrset != [] {
      var first, rest := rrset[0], rrset[1..];
      assert rrset == [first] + rest;
      FirstProof(rrset, zone);
      ProofsAre(rest, zone);
      var all, later := ParseProofs(rrset, zone).value, ParseProofs(rest, zone).value;
      hide Serves, ParseProofs;
      forall p ensures p in all <==> exists r :: r in rrset && Serves(r, zone, p) {
        assert p in all <==> Serves(first, zone, p) || p in later;
        if Serves(first, zone, p) { assert first in rrset; }
        if r :| r in rest && Serves(r, zone, p) { assert r in rrset; }
      }
    }
  }

  lemma FirstProof(rrset: RRset, zone: Name)
    requires rrset != [] && ParseProofs(rrset, zone).Ok?
    ensures ParseProofs(rrset[1..], zone).Ok?
    ensures forall p :: p in ParseProofs(rrset, zone).value <==>
      Serves(rrset[0], zone, p) || p in ParseProofs(rrset[1..], zone).value
  {
    hide ParseNsec3;
  }

  function Matches(sha1: Sha1, p: Nsec3Proof, name: Name): Result<bool, DnssecError> {
    if !IsUsable(p.nsec3) then Ok(false)
    else
      match Nsec3Hash(sha1, name, p.nsec3)
      case Err(e) => Err(e)
      case Ok(hash) => Ok(p.ownerHash == hash)
  }

  function Covers(sha1: Sha1, p: Nsec3Proof, name: Name): Result<bool, DnssecError> {
    if !IsUsable(p.nsec3) then Ok(false)
    else
      match Nsec3Hash(sha1, name, p.nsec3)
      case Err(e) => Err(e)
      case Ok(hash) => Ok(Nsec3CoversHash(p.ownerHash, p.nsec3.next, hash))
  }

  /** The first proof, of the expected parameters if any are expected, that passes the test. */
  function FindProof(proofs: seq<Nsec3Proof>, expected: Option<Nsec3Data>,
                     test: Nsec3Proof -> Result<bool, DnssecError>): Result<Option<Nsec3Proof>, DnssecError> {
    if proofs == [] then Ok(None)
    else if expected.Some? && !SameParams(expected.value, proofs[0].nsec3) then FindProof(proofs[1..], expected, test)
    else
      match test(proofs[0])
      case Err(e) => Err(e)
      case Ok(passed) => if passed then Ok(Some(proofs[0])) else FindProof(proofs[1..], expected, test)
  }

  function FindMatching(sha1: Sha1, proofs: seq<Nsec3Proof>, name: Name, expected: Option<Nsec3Data>)
    : Result<Option<Nsec3Proof>, DnssecError>
  {
    FindProof(proofs, expected, p => Matches(sha1, p, name))
  }

  function FindCovering(sha1: Sha1, proofs: seq<Nsec3Proof>, name: Name, expected: Option<Nsec3Data>)
    : Result<Option<Nsec3Proof>, DnssecError>
  {
    FindProof(proofs, expected, p => Covers(sha1, p, name))
  }

  lemma {:induction false} FoundProof(proofs: seq<Nsec3Proof>, expected: Option<Nsec3Data>,
                                      test: Nsec3Proof -> Result<bool, DnssecError>)
    requires FindProof(proofs, expected, test).Ok? && FindProof(proofs, expected, test).value.Some?
    ensures var p := FindProof(proofs, expected, test).value.value;
      p in proofs && test(p) == Ok(true) && (expected.Some? ==> SameParams(expected.value, p.nsec3))
  {
    if !((expected.None? || SameParams(expected.value, proofs[0].nsec3)) && test(proofs[0]) == Ok(true)) {
      FoundProof(proofs[1..], expected, test);
    }
  }

  function SignatureStatus(c: Checker, rrset: RRset, rrsigs: RRset): Result<DnssecStatus, DnssecError> {
    if rrset == [] then Ok(Bogus) else c.signature(rrset, rrsigs)
  }

  const DNAME: u16 := 39

  ghost predicate ShowsRedirect(types: Bytes) { Lists(types, DNAME) }

  ghost predicate ShowsDelegation(types: Bytes) { Lists(types, Code(Ns)) && !Lists(types, Code(Soa)) }

  ghost predicate ShowsCut(types: Bytes) { ShowsRedirect(types) || ShowsDelegation(types) }

  /** The closest encloser must own its record itself: no DNAME there, and no delegation. */
  ghost function IsAuthoritative(n: Nsec3Data): Result<bool, DnssecError> {
    if !ValidBitMaps(n.types, -1) then Err(InvalidNsec3)
    else if ShowsRedirect(n.types) then Ok(false)
    else if ShowsDelegation(n.types) then Ok(false)
    else Ok(true)
  }

  /** In the bitmap's own bits: type 39 redirects, type 2 without type 6 delegates, and the encloser must do neither. */
  lemma AuthorityIs(n: Nsec3Data, windows: seq<Window>)
    requires Rising(windows, -1) && n.types == Spread(windows)
    ensures ShowsRedirect(n.types) <==> Shows(windows, 39)
    ensures ShowsDelegation(n.types) <==> Shows(windows, 2) && !Shows(windows, 6)
    ensures IsAuthoritative(n) == Ok(!Shows(windows, 39) && (Shows(windows, 2) ==> Shows(windows, 6)))
  {
    hide ValidBitMaps, Lists, Shows, Rising, Spread;
    BitMapsAre(n.types, 39);
    BitMapsAre(n.types, 2);
    BitMapsAre(n.types, 6);
  }

  datatype ClosestEncloser = Valid(closest: Nsec3Proof, nextCloser: Nsec3Proof) | Status(status: DnssecStatus)

  /** The record sets of an NSEC3 proof, each with its signatures. */
  datatype Evidence = Evidence(closest: RRset, closestSigs: RRset, nextCloser: RRset, nextCloserSigs: RRset,
                               wildcard: RRset, wildcardSigs: RRset)

  ghost function ClosestEncloserProof(c: Checker, query: Name, encloser: Name, e: Evidence)
    : Result<ClosestEncloser, DnssecError>
  {
    if !IsStrictSubdomain(query, encloser) then Ok(Status(Bogus))
    else
      match SignatureStatus(c, e.closest, e.closestSigs)
      case Err(x) => Err(x)
      case Ok(status) =>
        if status != Secure then Ok(Status(status))
        else
          match ParseProofs(e.closest, c.signer)
          case Err(x) => Err(x)
          case Ok(proofs) =>
            match FindMatching(c.sha1, proofs, encloser, None)
            case Err(x) => Err(x)
            case Ok(None) => Ok(Status(Bogus))
            case Ok(Some(closest)) =>
              match IsAuthoritative(closest.nsec3)
              case Err(x) => Err(x)
              case Ok(authoritative) =>
                if !authoritative then Ok(Status(Bogus)) else NextCloserProof(c, query, encloser, e, closest)
  }

  ghost function NextCloserProof(c: Checker, query: Name, encloser: Name, e: Evidence, closest: Nsec3Proof)
    : Result<ClosestEncloser, DnssecError>
  {
    match NextCloserName(query, encloser)
    case Err(x) => Err(x)
    case Ok(candidate) =>
      match SignatureStatus(c, e.nextCloser, e.nextCloserSigs)
      case Err(x) => Err(x)
      case Ok(status) =>
        if status != Secure then Ok(Status(status))
        else
          match ParseProofs(e.nextCloser, c.signer)
          case Err(x) => Err(x)
          case Ok(proofs) =>
            match FindCovering(c.sha1, proofs, candidate, Some(closest.nsec3))
            case Err(x) => Err(x)
            case Ok(None) => Ok(Status(Bogus))
            case Ok(Some(nextCloser)) => Ok(Valid(closest, nextCloser))
  }

  ghost function Nsec3NameError(c: Checker, query: Name, encloser: Name, e: Evidence)
    : Result<DnssecStatus, DnssecError>
  {
    match ClosestEncloserProof(c, query, encloser, e)
    case Err(x) => Err(x)
    case Ok(Status(status)) => Ok(status)
    case Ok(Valid(closest, nextCloser)) =>
      if IsOptOut(nextCloser.nsec3) then Ok(InsecureDelegation)
      else
        match WildcardChild(encloser)
        case Err(x) => Err(x)
        case Ok(wildcard) =>
          match SignatureStatus(c, e.wildcard, e.wildcardSigs)
          case Err(x) => Err(x)
          case Ok(status) =>
            if status != Secure then Ok(status)
            else
              match ParseProofs(e.wildcard, c.signer)
              case Err(x) => Err(x)
              case Ok(proofs) =>
                match FindCovering(c.sha1, proofs, wildcard, Some(closest.nsec3))
                case Err(x) => Err(x)
                case Ok(None) => Ok(Bogus)
                case Ok(Some(p)) => if IsOptOut(p.nsec3) then Ok(InsecureDelegation) else Ok(Secure)
  }

  // ------------------------------------------------------------ honest records

  /** A record with these types does not hide that its owner is a cut. */
  ghost predicate TellsCuts(s: Space, owner: Name, types: Bytes) {
    && (owner in s.delegations ==> ShowsDelegation(types))
    && (owner in s.redirects ==> ShowsRedirect(types))
  }

  /** The record is that of a name of the zone. */
  ghost predicate SpeaksFor(sha1: Sha1, s: Space, p: Nsec3Proof, owner: Name) {
    && InZone(s, owner) && NameHash(sha1, owner, p.nsec3.iterations, p.nsec3.salt) == p.ownerHash
    && TellsCuts(s, owner, p.nsec3.types)
  }

  /** What a zone's own records are: each for a name of the zone, and without opt-out none passing over such a name. */
  ghost predicate HonestNsec3(sha1: Sha1, s: Space, p: Nsec3Proof) {
    && (exists owner :: SpeaksFor(sha1, s, p, owner))
    && (!IsOptOut(p.nsec3) ==>
          forall n :: InZone(s, n) ==>
            !Nsec3CoversHash(p.ownerHash, p.nsec3.next, NameHash(sha1, n, p.nsec3.iterations, p.nsec3.salt)))
  }

  ghost predicate AllHonest(c: Checker, s: Space, rrset: RRset) {
    var r := ParseProofs(rrset, c.signer);
    r.Ok? ==> forall p :: p in r.value ==> HonestNsec3(c.sha1, s, p)
  }

  /** No other name of the zone hashes like `name` under these parameters. */
  ghost predicate NoCollision(sha1: Sha1, s: Space, name: Name, p: Nsec3Data) {
    forall n ::
      InZone(s, n) && NameHash(sha1, n, p.iterations, p.salt) == NameHash(sha1, name, p.iterations, p.salt) ==>
        n == name
  }

  /** No such collision under the parameters of any record of the set. */
  ghost predicate CollisionFree(c: Checker, s: Space, name: Name, rrset: RRset) {
    var r := ParseProofs(rrset, c.signer);
    r.Ok? ==> forall p :: p in r.value ==> NoCollision(c.sha1, s, name, p.nsec3)
  }

  /** A matching record that shows no cut belongs to a name of the zone at which the zone does not stop. */
  lemma MatchedNameIsInside(c: Checker, s: Space, p: Nsec3Proof, name: Name)
    requires HonestNsec3(c.sha1, s, p) && Matches(c.sha1, p, name) == Ok(true)
    requires NoCollision(c.sha1, s, name, p.nsec3) && IsAuthoritative(p.nsec3) == Ok(true)
    ensures InZone(s, name) && name !in Cuts(s)
  {
    hide NameHash, EncodeName, Lists, InZone;
    var owner :| SpeaksFor(c.sha1, s, p, owner);
  }

  /** What a record without opt-out covers is no name of the zone. */
  lemma CoveredNameIsOutside(c: Checker, s: Space, p: Nsec3Proof, name: Name)
    requires HonestNsec3(c.sha1, s, p) && Covers(c.sha1, p, name) == Ok(true) && !IsOptOut(p.nsec3)
    ensures !InZone(s, name)
  {
    hide NameHash, EncodeName, Nsec3CoversHash, InZone;
  }

  /**
   What an accepted closest-encloser proof says: the encloser is a name of the
   zone and no cut; and unless the covering record is opt-out, no longer
   ancestor of the query exists, in this zone or in another.
   */
  lemma ClosestEncloserSound(c: Checker, query: Name, encloser: Name, e: Evidence, s: Space)
    requires ValidName(query) && ValidSpace(s)
    requires AllHonest(c, s, e.closest) && AllHonest(c, s, e.nextCloser)
    requires CollisionFree(c, s, encloser, e.closest)
    requires ClosestEncloserProof(c, query, encloser, e).Ok? && ClosestEncloserProof(c, query, encloser, e).value.Valid?
    ensures IsStrictSubdomain(query, encloser) && InZone(s, encloser) && encloser !in Cuts(s)
    ensures !IsOptOut(ClosestEncloserProof(c, query, encloser, e).value.nextCloser.nsec3) ==>
      forall k :: 0 <= k < |query| - |encloser| ==> query[k..] !in s.all
  {
    hide Matches, Covers, ParseProofs, IsAuthoritative, HonestNsec3, NoCollision, FindProof, ValidName, NextCloserName,
      ValidSpace, InZone, IsOptOut;
    var Valid(closest, nextCloser) := ClosestEncloserProof(c, query, encloser, e).value;
    var proofs := ParseProofs(e.closest, c.signer).value;
    FoundProof(proofs, None, p => Matches(c.sha1, p, encloser));
    MatchedNameIsInside(c, s, closest, encloser);
    var candidate := NextCloserName(query, encloser).value;
    FoundProof(ParseProofs(e.nextCloser, c.signer).value, Some(closest.nsec3), p => Covers(c.sha1, p, candidate));
    NextCloserIs(query, encloser);
    if !IsOptOut(nextCloser.nsec3) {
      CoveredNameIsOutside(c, s, nextCloser, candidate);
      NothingBelowEncloser(s, query, encloser);
    }
  }

  lemma NothingBelowEncloser(s: Space, query: Name, encloser: Name)
    requires ValidSpace(s) && IsStrictSubdomain(query, encloser)
    requires InZone(s, encloser) && encloser !in Cuts(s) && !InZone(s, query[|query| - |encloser| - 1..])
    ensures forall k :: 0 <= k < |query| - |encloser| ==> query[k..] !in s.all
  {
    var child := query[|query| - |encloser| - 1..];
    assert child[1..] == query[|query| - |encloser|..] == encloser;
    NoCutNoHiddenChild(s, encloser, child);
    MissingBelow(s, query, encloser);
  }

  /** A proof that breaks off early never breaks off with `Secure`. */
  lemma StatusIsNotSecure(c: Checker, query: Name, encloser: Name, e: Evidence)
    ensures ClosestEncloserProof(c, query, encloser, e) != Ok(Status(Secure))
  {
    hide FindMatching, FindCovering, IsAuthoritative, ParseProofs, NextCloserName;
  }

  /**
   NSEC3 name error (sections 8.3 and 8.4 of RFC 5155). If the records are the
   zone's own and no name collides with the encloser, then `Secure` means: the
   encloser is a name of the zone and no cut, no longer ancestor of the query
   exists, in this zone or below a cut of it, and neither do the query and the
   wildcard below the encloser.
   */
  lemma Nsec3NameErrorSound(c: Checker, query: Name, encloser: Name, e: Evidence, s: Space)
    requires ValidName(query) && ValidSpace(s)
    requires AllHonest(c, s, e.closest) && AllHonest(c, s, e.nextCloser) && AllHonest(c, s, e.wildcard)
    requires CollisionFree(c, s, encloser, e.closest)
    requires Nsec3NameError(c, query, encloser, e) == Ok(Secure)
    ensures IsStrictSubdomain(query, encloser) && InZone(s, encloser) && encloser !in Cuts(s)
    ensures forall k :: 0 <= k < |query| - |encloser| ==> query[k..] !in s.all
    ensures query !in s.all && [WILDCARD] + encloser !in s.all
  {
    hide Matches, Covers, ParseProofs, HonestNsec3, NoCollision, FindProof, ValidName, WildcardChild, ValidSpace,
      ClosestEncloserProof, AllHonest, InZone, IsOptOut;
    StatusIsNotSecure(c, query, encloser, e);
    ClosestEncloserSound(c, query, encloser, e, s);
    assert query[0..] == query;
    NextCloserIs(query, encloser);
    WildcardChildIs(encloser);
    var closest := ClosestEncloserProof(c, query, encloser, e).value.closest;
    var wildcard := WildcardChild(encloser).value;
    var proofs := ParseProofs(e.wildcard, c.signer).value;
    FoundProof(proofs, Some(closest.nsec3), p => Covers(c.sha1, p, wildcard));
    var p := FindCovering(c.sha1, proofs, wildcard, Some(closest.nsec3)).value.value;
    ProofIsHonest(c, s, e.wildcard, p);
    CoveredNameIsOutside(c, s, p, wildcard);
    assert wildcard[1..] == encloser;
    NoCutNoHiddenChild(s, encloser, wildcard);
  }

  lemma ProofIsHonest(c: Checker, s: Space, rrset: RRset, p: Nsec3Proof)
    requires AllHonest(c, s, rrset) && ParseProofs(rrset, c.signer).Ok? && p in ParseProofs(rrset, c.signer).value
    ensures HonestNsec3(c.sha1, s, p)
  {
  }

  /** A wildcard answer: the next closer name below the wildcard's encloser must be denied. */
  function Nsec3WildcardAnswer(c: Checker, query: Name, encloser: Name, e: Evidence)
    : Result<DnssecStatus, DnssecError>
  {
    if !IsStrictSubdomain(query, encloser) then Ok(Bogus)
    else
      match NextCloserName(query, encloser)
      case Err(x) => Err(x)
      case Ok(candidate) =>
        match SignatureStatus(c, e.nextCloser, e.nextCloserSigs)
        case Err(x) => Err(x)
        case Ok(status) =>
          if status != Secure then Ok(status)
          else
            match ParseProofs(e.nextCloser, c.signer)
            case Err(x) => Err(x)
            case Ok(proofs) =>
              match FindCovering(c.sha1, proofs, candidate, None)
              case Err(x) => Err(x)
              case Ok(None) => Ok(Bogus)
              case Ok(Some(p)) => if IsOptOut(p.nsec3) then Ok(InsecureDelegation) else Ok(Secure)
  }

  /** A secure answer from a wildcard the zone has: the query and all names between it and the encloser are missing. */
  lemma Nsec3WildcardAnswerSound(c: Checker, query: Name, encloser: Name, e: Evidence, s: Space)
    requires ValidName(query) && ValidSpace(s) && InZone(s, [WILDCARD] + encloser) && encloser in s.all
    requires AllHonest(c, s, e.nextCloser)
    requires Nsec3WildcardAnswer(c, query, encloser, e) == Ok(Secure)
    ensures IsStrictSubdomain(query, encloser)
    ensures forall k :: 0 <= k < |query| - |encloser| ==> query[k..] !in s.all
  {
    hide Covers, ParseProofs, HonestNsec3, FindProof, ValidName, NextCloserName, ValidSpace, AllHonest, IsOptOut;
    var candidate := NextCloserName(query, encloser).value;
    var proofs := ParseProofs(e.nextCloser, c.signer).value;
    FoundProof(proofs, None, p => Covers(c.sha1, p, candidate));
    var p := FindCovering(c.sha1, proofs, candidate, None).value.value;
    ProofIsHonest(c, s, e.nextCloser, p);
    CoveredNameIsOutside(c, s, p, candidate);
    NextCloserIs(query, encloser);
    ParentOfInside(s, encloser);
    NothingBelowEncloser(s, query, encloser);
  }

  /** A wildcard of the zone hangs below a name of the zone that is no cut. */
  lemma ParentOfInside(s: Space, encloser: Name)
    requires InZone(s, [WILDCARD] + encloser) && encloser in s.all
    ensures InZone(s, encloser) && encloser !in Cuts(s)
  {
    var wildcard := [WILDCARD] + encloser;
    assert wildcard[1..] == encloser;
    forall c | c in Cuts(s) ensures !IsStrictSubdomain(encloser, c) && encloser != c {
      if |c| < |encloser| { assert wildcard[|wildcard| - |c|..] == encloser[|encloser| - |c|..]; }
    }
  }

  // -------------------------------------------------------------- NSEC proofs

  /** Whether the first NSEC record that covers the name comes before any malformed one. */
  function CoveredByOne(rrset: RRset, query: Name): Result<bool, DnssecError>
    decreases |rrset|
  {
    if rrset == [] then Ok(false)
    else if rrset[0].recordType != Nsec then CoveredByOne(rrset[1..], query)
    else
      match ParseNsec(rrset[0])
      case Err(e) => Err(e)
      case Ok(nsec) =>
        if NsecCoversName(rrset[0].name, nsec.next, query) then Ok(true) else CoveredByOne(rrset[1..], query)
  }

  function NsecNameRange(c: Checker, query: Name, rrset: RRset, rrsigs: RRset): Result<DnssecStatus, DnssecError> {
    match c.signature(rrset, rrsigs)
    case Err(e) => Err(e)
    case Ok(status) =>
      if status != Secure then Ok(status)
      else
        match CoveredByOne(rrset, query)
        case Err(e) => Err(e)
        case Ok(covered) => Ok(if covered then Secure else Bogus)
  }

  /** The scan over the records. */
  method ValidateNsecNameRange(c: Checker, query: Name, rrset: RRset, rrsigs: RRset)
    returns (r: Result<DnssecStatus, DnssecError>)
    ensures r == NsecNameRange(c, query, rrset, rrsigs)
  {
    hide ParseNsec, NsecCoversName;
    r := c.signature(rrset, rrsigs);
    if r.Err? || r.value != Secure {
      return;
    }
    assert rrset[0..] == rrset;
    for k := 0 to |rrset|
      invariant CoveredByOne(rrset, query) == CoveredByOne(rrset[k..], query)
    {
      assert rrset[k..][0] == rrset[k] && rrset[k..][1..] == rrset[k + 1..];
      if rrset[k].recordType == Nsec {
        var nsec := ParseNsec(rrset[k]);
        if nsec.Err? {
          return Err(nsec.error);
        }
        if NsecCoversName(rrset[k].name, nsec.value.next, query) {
          return Ok(Secure);
        }
      }
    }
    return Ok(Bogus);
  }

  function NsecNameError(c: Checker, query: Name, encloser: Name, covering: RRset, coveringSigs: RRset,
                         wildcard: RRset, wildcardSigs: RRset): Result<DnssecStatus, DnssecError> {
    if !IsStrictSubdomain(query, encloser) || covering == [] || wildcard == [] then Ok(Bogus)
    else
      match NsecNameRange(c, query, covering, coveringSigs)
      case Err(e) => Err(e)
      case Ok(status) =>
        if status != Secure then Ok(status)
        else
          match WildcardChild(encloser)
          case Err(e) => Err(e)
          case Ok(name) => NsecNameRange(c, name, wildcard, wildcardSigs)
  }

  // ------------------------------------------------- what NSEC records leave open

  /** A zone's own record: for a name of the zone, passing over no such name, telling exactly whether it is a cut. */
  ghost predicate HonestNsec(s: Space, r: ResourceRecord) {
    ParseNsec(r).Ok? ==>
      && InZone(s, r.name) && (r.name in Cuts(s) <==> ShowsCut(ParseNsec(r).value.types))
      && forall n :: InZone(s, n) ==> !NsecCoversName(r.name, ParseNsec(r).value.next, n)
  }

  /** A space in which these are the zone's own records. */
  ghost predicate Possible(s: Space, covering: RRset, wildcard: RRset) {
    ValidSpace(s) && forall r :: r in covering || r in wildcard ==> HonestNsec(s, r)
  }

  /** The record covers a name below its own owner, although it shows that the zone stops there. */
  ghost predicate CoversBelowCut(r: ResourceRecord, name: Name) {
    && ParseNsec(r).Ok? && NsecCoversName(r.name, ParseNsec(r).value.next, name)
    && IsStrictSubdomain(name, r.name) && ShowsCut(ParseNsec(r).value.types)
  }

  /** A covered name that exists all the same lies below a cut, and it is the cut's own record that covers it. */
  lemma HiddenBelowOwner(s: Space, r: ResourceRecord, name: Name)
    requires ValidSpace(s) && HonestNsec(s, r) && ParseNsec(r).Ok?
    requires NsecCoversName(r.name, ParseNsec(r).value.next, name) && name in s.all
    ensures CoversBelowCut(r, name)
  {
    hide ParseNsec, ShowsCut, ValidSpace;
    var below :| below in Cuts(s) && IsStrictSubdomain(name, below);
    var cut := HighestCut(s, name, below);
    AncestorsFirst(name, cut);
    CutIsOwner(s, r.name, ParseNsec(r).value.next, cut, name);
  }

  lemma CutIsOwner(s: Space, owner: Name, next: Name, cut: Name, name: Name)
    requires InZone(s, owner) && InZone(s, cut) && cut in Cuts(s) && IsStrictSubdomain(name, cut)
    requires NsecCoversName(owner, next, name) && !NsecCoversName(owner, next, cut)
    requires CompareFromEnd(cut, name) == Less
    ensures owner == cut
  {
    CompareFromEndFlip(owner, cut);
    CompareFromEndFlip(owner, next);
    CompareFromEndFlip(owner, name);
    if CompareFromEnd(cut, owner) == Less && CompareFromEnd(owner, name) == Less {
      BelowIsContiguous(cut, owner, name);
    }
    if CompareFromEnd(name, next) == Less { CompareFromEndTransitive(cut, name, next); }
  }

  lemma {:induction false} CoveringRecord(rrset: RRset, name: Name) returns (r: ResourceRecord)
    requires CoveredByOne(rrset, name) == Ok(true)
    ensures r in rrset && ParseNsec(r).Ok? && NsecCoversName(r.name, ParseNsec(r).value.next, name)
  {
    hide ParseNsec, NsecCoversName;
    var first := rrset[0];
    if first.recordType == Nsec && NsecCoversName(first.name, ParseNsec(first).value.next, name) {
      r := first;
    } else {
      r := CoveringRecord(rrset[1..], name);
    }
  }

  lemma RangeSound(rrset: RRset, name: Name, s: Space)
    requires ValidSpace(s) && (forall r :: r in rrset ==> HonestNsec(s, r)) && CoveredByOne(rrset, name) == Ok(true)
    ensures !InZone(s, name)
    ensures name in s.all ==> exists r :: r in rrset && CoversBelowCut(r, name)
  {
    hide ParseNsec, NsecCoversName, CoversBelowCut, InZone, ValidSpace;
    var r := CoveringRecord(rrset, name);
    if name in s.all { HiddenBelowOwner(s, r, name); }
  }

  /**
   NSEC name error: `Secure` means that neither the query nor the wildcard
   below the encloser is a name of the zone. One that exists all the same lies
   below a cut whose own record covers it.
   */
  lemma NsecNameErrorSound(c: Checker, query: Name, encloser: Name, covering: RRset, coveringSigs: RRset,
                           wildcard: RRset, wildcardSigs: RRset, s: Space)
    requires ValidName(query) && Possible(s, covering, wildcard)
    requires NsecNameError(c, query, encloser, covering, coveringSigs, wildcard, wildcardSigs) == Ok(Secure)
    ensures IsStrictSubdomain(query, encloser) && !InZone(s, query) && !InZone(s, [WILDCARD] + encloser)
    ensures query in s.all ==> exists r :: r in covering && CoversBelowCut(r, query)
    ensures [WILDCARD] + encloser in s.all ==> exists r :: r in wildcard && CoversBelowCut(r, [WILDCARD] + encloser)
  {
    hide CoveredByOne, HonestNsec, ValidName, WildcardChild, CoversBelowCut, InZone, ValidSpace;
    NextCloserIs(query, encloser);
    WildcardChildIs(encloser);
    RangeSound(covering, query, s);
    RangeSound(wildcard, [WILDCARD] + encloser, s);
  }

  /** Below a cut whose record covers a name, that name may exist: the records stay the zone's own. */
  lemma MayExistBelowCut(s: Space, covering: RRset, wildcard: RRset, r: ResourceRecord, name: Name) returns (t: Space)
    requires Possible(s, covering, wildcard) && (r in covering || r in wildcard) && CoversBelowCut(r, name)
    ensures Possible(t, covering, wildcard) && name in t.all
  {
    hide ParseNsec, NsecCoversName, InZone, ValidSpace, ShowsCut;
    assert HonestNsec(s, r);
    t := Grown(s, r.name, name);
    GrownIsSameZone(s, r.name, name);
    forall x | x in covering || x in wildcard ensures HonestNsec(t, x) {
      assert HonestNsec(s, x);
    }
  }

  /**
   Exactly when a secure NSEC name error means what it says. The query is
   missing from every space the records allow if and only if no record of the
   set covers it from a cut above it, and the same goes for the wildcard.
   */
  lemma NsecNameErrorExact(c: Checker, query: Name, encloser: Name, covering: RRset, coveringSigs: RRset,
                           wildcard: RRset, wildcardSigs: RRset, s: Space)
    requires ValidName(query) && Possible(s, covering, wildcard)
    requires NsecNameError(c, query, encloser, covering, coveringSigs, wildcard, wildcardSigs) == Ok(Secure)
    ensures (forall t :: Possible(t, covering, wildcard) ==> query !in t.all) <==>
      !exists r :: r in covering && CoversBelowCut(r, query)
    ensures (forall t :: Possible(t, covering, wildcard) ==> [WILDCARD] + encloser !in t.all) <==>
      !exists r :: r in wildcard && CoversBelowCut(r, [WILDCARD] + encloser)
  {
    hide CoversBelowCut, NsecNameError, Possible, InZone;
    forall t | Possible(t, covering, wildcard)
      ensures query in t.all ==> exists r :: r in covering && CoversBelowCut(r, query)
      ensures [WILDCARD] + encloser in t.all ==> exists r :: r in wildcard && CoversBelowCut(r, [WILDCARD] + encloser)
    {
      NsecNameErrorSound(c, query, encloser, covering, coveringSigs, wildcard, wildcardSigs, t);
    }
    if r :| r in covering && CoversBelowCut(r, query) {
      var t := MayExistBelowCut(s, covering, wildcard, r, query);
    }
    if r :| r in wildcard && CoversBelowCut(r, [WILDCARD] + encloser) {
      var t := MayExistBelowCut(s, covering, wildcard, r, [WILDCARD] + encloser);
    }
  }

  const APEX: Name := [[120]]
  const A_X: Name := [[97], [120]]
  const Z_X: Name := [[122], [120]]
  const B_A_X: Name := [[98], [97], [120]]
  const NS_ONLY: Bytes := [0, 1, 0x20]

  /** The record `a.x NSEC z.x NS`: a delegation, as the parent zone shows it. */
  const DELEGATION: ResourceRecord := ResourceRecord(A_X, Nsec, 1, 3600, [1, 122, 1, 120, 0] + NS_ONLY)

  /** Where the delegation and a name below it both exist. */
  ghost function DelegatedSpace(): Space {
    Space(APEX, {APEX, A_X, Z_X, B_A_X}, {A_X}, {})
  }

  lemma DelegationParses()
    ensures ParseNsec(DELEGATION) == Ok(NsecData(Z_X, NS_ONLY)) && ValidBitMaps(NS_ONLY, -1)
  {
    hide ParseName, ValidName, WriteName;
    var rdata := DELEGATION.rdata;
    NamesOfX();
    WrittenZX();
    assert rdata[0..5] == [1, 122, 1, 120, 0];
    ParseWrittenName(rdata, 0, Z_X);
    assert rdata[5..] == NS_ONLY && NS_ONLY[2 + NS_ONLY[1] as int..] == [];
  }

  lemma WrittenZX()
    ensures WriteName(Z_X) == [1, 122, 1, 120, 0]
  {
    assert Z_X[1..] == APEX && APEX[1..] == [];
    assert WriteName(APEX) == [1, 120, 0];
  }

  lemma NamesOfX()
    ensures ValidName(Z_X) && ValidName(B_A_X)
  {
    forall b: byte | b in {97, 98, 120, 122} ensures StoredLabel([b]) {
      assert Lowercase([b]) == [b];
    }
    assert Z_X[1..] == [[120]] && B_A_X[1..] == A_X && A_X[1..] == [[120]];
  }

  lemma NsOnlyShowsCut()
    ensures ShowsDelegation(NS_ONLY) && ShowsCut(NS_ONLY)
  {
    var block: Bytes := [0x20];
    assert NS_ONLY[2..2 + NS_ONLY[1] as int] == block && NS_ONLY[2 + NS_ONLY[1] as int..] == [];
    assert HasBit(block, 2) by {
      assert ShiftRight(32, 5) == ShiftRight(16, 4) == ShiftRight(8, 3) == ShiftRight(4, 2) == ShiftRight(2, 1) == 1;
    }
    assert !HasBit(block, 6) by {
      assert ShiftRight(32, 1) == 16;
    }
  }

  lemma OrderOfOne(a: Bytes, b: Bytes)
    ensures CompareFromEnd([a], [b]) == CompareBytes(a, b)
  {
    var nothing: Name := [];
    assert [a][..0] == nothing && [b][..0] == nothing;
    assert CompareFromEnd(nothing, nothing) == Equal;
  }

  lemma OrderBelowX(a: Bytes, b: Bytes)
    ensures CompareFromEnd([a, [120]], [b, [120]]) == CompareBytes(a, b)
  {
    CompareBytesFlip([120], [120]);
    assert [a, [120]][..1] == [a] && [b, [120]][..1] == [b];
    OrderOfOne(a, b);
  }

  lemma CoveredBelowDelegation(first: Bytes)
    ensures NsecCoversName(A_X, Z_X, [first] + A_X)
  {
    var name := [first] + A_X;
    OrderBelowX([97], [122]);
    assert CompareBytes([97], [122]) == Less;
    assert name[|name| - |A_X|..] == A_X;
    AncestorsFirst(name, A_X);
    assert name[..2] == [first, [97]] && name[..2][..1] == [first];
    assert Z_X[..1] == [[122]];
    assert CompareFromEnd(name[..2], Z_X[..1]) == Less;
    assert CompareFromEnd(name, Z_X) == Less;
  }

  lemma DelegatedSpaceIsPossible()
    ensures Possible(DelegatedSpace(), [DELEGATION], [DELEGATION])
  {
    hide ParseNsec, ShowsCut, NsecCoversName, InZone, ValidSpace;
    DelegationParses();
    NsOnlyShowsCut();
    NotCovered();
    ZoneOfX();
  }

  lemma ZoneOfX()
    ensures var s := DelegatedSpace();
      ValidSpace(s) && Cuts(s) == {A_X} && forall n :: InZone(s, n) <==> n in {APEX, A_X, Z_X}
  {
    var s := DelegatedSpace();
    assert Cuts(s) == {A_X};
    assert A_X[1..] == APEX && Z_X[1..] == APEX && B_A_X[1..] == A_X && B_A_X[2..] == APEX;
    assert forall n: Name :: n[0..] == n;
    forall n | n in s.all ensures InZone(s, n) <==> n in {APEX, A_X, Z_X} {
      assert |n| > 2 ==> n == B_A_X;
    }
  }

  lemma NotCovered()
    ensures !NsecCoversName(A_X, Z_X, APEX) && !NsecCoversName(A_X, Z_X, A_X) && !NsecCoversName(A_X, Z_X, Z_X)
  {
    OrderBelowX([97], [122]);
    assert CompareBytes([97], [122]) == Less;
    assert A_X[1..] == APEX;
    AncestorsFirst(A_X, APEX);
    CompareFromEndFlip(A_X, APEX);
    CompareFromEndFlip(Z_X, Z_X);
  }

  /** The delegation's record alone makes a secure name error for a name of the child zone that exists. */
  lemma DelegationDeniesChild(c: Checker)
    requires c.signature([DELEGATION], []) == Ok(Secure)
    ensures ValidName(B_A_X) && Possible(DelegatedSpace(), [DELEGATION], [DELEGATION]) && B_A_X in DelegatedSpace().all
    ensures NsecNameError(c, B_A_X, A_X, [DELEGATION], [], [DELEGATION], []) == Ok(Secure)
  {
    hide ParseNsec, NsecCoversName, CompareFromEnd, ValidName, Possible;
    NamesOfX();
    DelegationParses();
    CoveredBelowDelegation([98]);
    CoveredBelowDelegation(WILDCARD);
    DelegatedSpaceIsPossible();
    assert B_A_X[1..] == A_X && [[98]] + A_X == B_A_X;
    NextCloserIs(B_A_X, A_X);
    WildcardChildIs(A_X);
    assert LabelsLen(A_X) == 4 by { assert A_X[1..] == APEX && APEX[1..] == []; }
  }
}
