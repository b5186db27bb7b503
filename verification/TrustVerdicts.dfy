/**
 The verdicts of the chain of trust other than `Secure`: which pair of records
 settles a delegation or a signature, and which error is reported.
 */
module TrustVerdicts {
  import opened Bytes
  import opened DnsName
  import opened DnsWire
  import opened Denial
  import opened ChainOfTrust
  import SignedData

  // -------------------------------------------------------------- delegations

  /** A zone key and a delegation signer of its algorithm and tag. */
  ghost predicate Belongs(key: DnskeyRecord, ds: DsRecord) {
    IsZoneFlagged(key) && key.algorithm == ds.algorithm && IsTag(key.rdata, ds.keyTag)
  }

  /** They belong together, but the owner's name cannot be written, or the digest is of no known kind. */
  ghost predicate DigestFails(owner: Name, key: DnskeyRecord, ds: DsRecord, e: DnssecError) {
    && Belongs(key, ds)
    && if exists part :: part in owner && |part| > 63 then e == NameEncoding
       else ds.digestType !in {1, 2, 4} && e == UnsupportedDigest
  }

  ghost predicate Settles(c: Primitives, owner: Name, key: DnskeyRecord, ds: DsRecord) {
    Names(c, owner, ds, key) || exists e :: DigestFails(owner, key, ds, e)
  }

  /** The pairs in the order they are tried: every signer for the first key, then for the next. */
  ghost function Pairs(keys: seq<DnskeyRecord>, signers: seq<DsRecord>): seq<(DnskeyRecord, DsRecord)> {
    if keys == [] then [] else Row(keys[0], signers) + Pairs(keys[1..], signers)
  }

  ghost function Row(key: DnskeyRecord, signers: seq<DsRecord>): (row: seq<(DnskeyRecord, DsRecord)>)
    ensures |row| == |signers| && forall i :: 0 <= i < |row| ==> row[i] == (key, signers[i])
  {
    seq(|signers|, i requires 0 <= i < |signers| => (key, signers[i]))
  }

  /** The pair at `n` is the first that settles the matter. */
  ghost predicate IsFirst(c: Primitives, owner: Name, pairs: seq<(DnskeyRecord, DsRecord)>, n: nat)
    decreases n
  {
    && n < |pairs|
    && if n == 0 then Settles(c, owner, pairs[0].0, pairs[0].1)
       else !Settles(c, owner, pairs[0].0, pairs[0].1) && IsFirst(c, owner, pairs[1..], n - 1)
  }

  ghost predicate NamesFirst(c: Primitives, owner: Name, pairs: seq<(DnskeyRecord, DsRecord)>, n: nat) {
    n < |pairs| && IsFirst(c, owner, pairs, n) && Names(c, owner, pairs[n].1, pairs[n].0)
  }

  ghost predicate FailsFirst(c: Primitives, owner: Name, pairs: seq<(DnskeyRecord, DsRecord)>, n: nat,
                             e: DnssecError)
  {
    n < |pairs| && IsFirst(c, owner, pairs, n) && DigestFails(owner, pairs[n].0, pairs[n].1, e)
  }

  ghost function Outcome(c: Primitives, owner: Name, pairs: seq<(DnskeyRecord, DsRecord)>)
    : Result<DnssecStatus, DnssecError>
  {
    if pairs == [] then Ok(Bogus)
    else
      var named :- VerifyDs(c, owner, pairs[0].0, pairs[0].1);
      if named then Ok(Secure) else Outcome(c, owner, pairs[1..])
  }

  lemma DigestFailsIff(c: Primitives, owner: Name, key: DnskeyRecord, ds: DsRecord, e: DnssecError)
    ensures VerifyDs(c, owner, key, ds) == Err(e) <==> DigestFails(owner, key, ds, e)
  {
    hide TagOf, IsTag, WriteName;
    TagIff(key.rdata, ds.keyTag);
  }

  lemma SettlesIff(c: Primitives, owner: Name, key: DnskeyRecord, ds: DsRecord)
    ensures Settles(c, owner, key, ds) <==> VerifyDs(c, owner, key, ds) != Ok(false)
  {
    hide VerifyDs, Names, DigestFails;
    VerifyDsIff(c, owner, key, ds);
    forall e ensures VerifyDs(c, owner, key, ds) == Err(e) <==> DigestFails(owner, key, ds, e) {
      DigestFailsIff(c, owner, key, ds, e);
    }
    match VerifyDs(c, owner, key, ds) {
      case Ok(named) => assert named <==> Names(c, owner, ds, key);
      case Err(e) => assert DigestFails(owner, key, ds, e);
    }
  }

  lemma {:induction false} RowOutcome(c: Primitives, owner: Name, key: DnskeyRecord, signers: seq<DsRecord>,
                                      later: seq<(DnskeyRecord, DsRecord)>)
    ensures Outcome(c, owner, Row(key, signers) + later) ==
            match NamedByAny(c, owner, key, signers)
            case Err(e) => Err(e)
            case Ok(named) => if named then Ok(Secure) else Outcome(c, owner, later)
  {
    hide VerifyDs;
    var row := Row(key, signers);
    if signers == [] {
      assert row + later == later;
    } else {
      RowOutcome(c, owner, key, signers[1..], later);
      assert (row + later)[1..] == Row(key, signers[1..]) + later;
    }
  }

  lemma {:induction false} AnyNamedIsOutcome(c: Primitives, owner: Name, keys: seq<DnskeyRecord>,
                                             signers: seq<DsRecord>)
    ensures AnyNamed(c, owner, keys, signers) == Outcome(c, owner, Pairs(keys, signers))
  {
    hide VerifyDs, NamedByAny;
    if keys != [] {
      RowOutcome(c, owner, keys[0], signers, Pairs(keys[1..], signers));
      AnyNamedIsOutcome(c, owner, keys[1..], signers);
    }
  }

  lemma {:induction false} FirstIsFound(c: Primitives, owner: Name, pairs: seq<(DnskeyRecord, DsRecord)>)
    returns (n: nat)
    requires Outcome(c, owner, pairs) != Ok(Bogus)
    ensures IsFirst(c, owner, pairs, n)
    decreases |pairs|
  {
    hide VerifyDs, Settles;
    n := 0;
    SettlesIff(c, owner, pairs[0].0, pairs[0].1);
    if !Settles(c, owner, pairs[0].0, pairs[0].1) {
      var later := FirstIsFound(c, owner, pairs[1..]);
      n := later + 1;
    }
  }

  lemma {:induction false} FirstDecides(c: Primitives, owner: Name, pairs: seq<(DnskeyRecord, DsRecord)>, n: nat)
    requires IsFirst(c, owner, pairs, n)
    ensures n < |pairs| && Outcome(c, owner, pairs) != Ok(Bogus)
    ensures Outcome(c, owner, pairs) == Ok(Secure) <==> Names(c, owner, pairs[n].1, pairs[n].0)
    ensures forall e :: Outcome(c, owner, pairs) == Err(e) <==> DigestFails(owner, pairs[n].0, pairs[n].1, e)
    decreases n
  {
    hide VerifyDs, Settles, Names, DigestFails;
    var (key, ds) := pairs[0];
    SettlesIff(c, owner, key, ds);
    if n > 0 {
      FirstDecides(c, owner, pairs[1..], n - 1);
    } else {
      VerifyDsIff(c, owner, key, ds);
      forall e ensures VerifyDs(c, owner, key, ds) == Err(e) <==> DigestFails(owner, key, ds, e) {
        DigestFailsIff(c, owner, key, ds, e);
      }
    }
  }

  /** The pairs of keys and signers of two sets that can be read. */
  ghost predicate PairsOf(dsSet: RRset, keySet: RRset, pairs: seq<(DnskeyRecord, DsRecord)>) {
    && DsRecords(dsSet).Ok? && DsRecords(dsSet).value != [] && Dnskeys(keySet).Ok?
    && pairs == Pairs(Dnskeys(keySet).value, DsRecords(dsSet).value)
  }

  /**
   The verdict on a delegation that has signers and can be read: the first pair
   of a key and a signer to settle the matter decides it, by naming the key or
   by an error of its digest, whatever the later pairs would say; with no such
   pair the delegation is bogus.
   */
  lemma DelegationVerdict(c: Primitives, owner: Name, dsSet: RRset, keySet: RRset,
                          pairs: seq<(DnskeyRecord, DsRecord)>)
    requires PairsOf(dsSet, keySet, pairs)
    ensures DelegationStatus(c, owner, dsSet, keySet) == Ok(Secure) <==>
      exists n :: NamesFirst(c, owner, pairs, n)
    ensures forall e :: DelegationStatus(c, owner, dsSet, keySet) == Err(e) <==>
      exists n :: FailsFirst(c, owner, pairs, n, e)
    ensures DelegationStatus(c, owner, dsSet, keySet) == Ok(Bogus) <==> forall n: nat :: !IsFirst(c, owner, pairs, n)
  {
    hide DsRecords, Dnskeys, IsFirst, Names, DigestFails, Outcome, AnyNamed;
    AnyNamedIsOutcome(c, owner, Dnskeys(keySet).value, DsRecords(dsSet).value);
    NamedOrBogus(c, owner, Dnskeys(keySet).value, DsRecords(dsSet).value);
    if Outcome(c, owner, pairs) != Ok(Bogus) { var n := FirstIsFound(c, owner, pairs); }
    forall n: nat | IsFirst(c, owner, pairs, n)
      ensures Outcome(c, owner, pairs) != Ok(Bogus)
      ensures Outcome(c, owner, pairs) == Ok(Secure) <==> NamesFirst(c, owner, pairs, n)
      ensures forall e :: Outcome(c, owner, pairs) == Err(e) <==> FailsFirst(c, owner, pairs, n, e)
    {
      FirstDecides(c, owner, pairs, n);
    }
  }

  const SOME_KEY: Bytes := [1, 0, 3, 8, 0xff, 0xff]

  /** The root's key, with tag 0x0408, and a delegation signer for it with this kind of digest and this digest. */
  const KEY_RECORD: ResourceRecord := ResourceRecord([], Dnskey, 1, 3600, SOME_KEY)

  function SignerRecord(digestType: byte, digest: Bytes): ResourceRecord {
    ResourceRecord([], Ds, 1, 3600, [4, 8, 8, digestType] + digest)
  }

  const KEY_READ: DnskeyRecord := DnskeyRecord(0x100, 8, [0xff, 0xff], SOME_KEY)

  lemma SomeKeyParses()
    ensures ParseDnskey(KEY_RECORD) == Ok(KEY_READ)
  {
    DnskeyIff(KEY_RECORD, KEY_READ);
  }

  lemma SignerParses(digestType: byte, digest: Bytes)
    requires digest != []
    ensures ParseDs(SignerRecord(digestType, digest)) == Ok(DsRecord(0x0408, 8, digestType, digest))
  {
    var d := [4, 8, 8, digestType] + digest;
    assert d[4..] == digest;
    DsIff(SignerRecord(digestType, digest), DsRecord(0x0408, 8, digestType, digest));
  }

  lemma SomeKeyIsChecked(c: Primitives, digestType: byte, digest: Bytes)
    ensures VerifyDs(c, [], KEY_READ, DsRecord(0x0408, 8, digestType, digest)) ==
            if digestType in {1, 2, 4} then Ok(c.digest(digestType, [0] + SOME_KEY) == digest)
            else Err(UnsupportedDigest)
  {
    TagOfSomeKey();
    assert WriteName([]) == [0];
    hide TagOf, WriteName;
  }

  /** A signer of an unknown kind hides the good one behind it, and is hidden behind it. */
  lemma UnknownDigestHides(c: Primitives)
    requires c.digest(2, [0] + SOME_KEY) != []
    ensures var unknown, good := SignerRecord(5, [9]), SignerRecord(2, c.digest(2, [0] + SOME_KEY));
      && DelegationStatus(c, [], [unknown, good], [KEY_RECORD]) == Err(UnsupportedDigest)
      && DelegationStatus(c, [], [good, unknown], [KEY_RECORD]) == Ok(Secure)
  {
    hide VerifyDs, ParseDs, ParseDnskey, ParseKept, SignerRecord;
    var digest := c.digest(2, [0] + SOME_KEY);
    var unknown, good := SignerRecord(5, [9]), SignerRecord(2, digest);
    SomeKeyParses();
    SignerParses(5, [9]);
    SignerParses(2, digest);
    SignersAreKept(5, [9]);
    SignersAreKept(2, digest);
    KeptOne(KEY_RECORD, IsDnskey, ParseDnskey);
    KeptTwo(unknown, good, IsDs, ParseDs);
    KeptTwo(good, unknown, IsDs, ParseDs);
    SomeKeyIsChecked(c, 5, [9]);
    SomeKeyIsChecked(c, 2, digest);
    NamedFirst(c, KEY_READ, DsRecord(0x0408, 8, 5, [9]), DsRecord(0x0408, 8, 2, digest));
    NamedFirst(c, KEY_READ, DsRecord(0x0408, 8, 2, digest), DsRecord(0x0408, 8, 5, [9]));
  }

  lemma SignersAreKept(digestType: byte, digest: Bytes)
    ensures IsDs(SignerRecord(digestType, digest))
  {
  }

  lemma NamedFirst(c: Primitives, key: DnskeyRecord, first: DsRecord, second: DsRecord)
    requires VerifyDs(c, [], key, first) != Ok(false)
    ensures AnyNamed(c, [], [key], [first, second]) ==
            match VerifyDs(c, [], key, first) case Err(e) => Err(e) case Ok(_) => Ok(Secure)
  {
    hide VerifyDs;
  }

  lemma KeptOne<T>(r: ResourceRecord, keep: ResourceRecord -> bool, parse: ResourceRecord -> Result<T, DnssecError>)
    requires keep(r) && parse(r).Ok?
    ensures ParseKept([r], keep, parse) == Ok([parse(r).value])
  {
    assert [r][1..] == [];
    assert [parse(r).value] + [] == [parse(r).value];
  }

  lemma KeptTwo<T>(a: ResourceRecord, b: ResourceRecord, keep: ResourceRecord -> bool,
                   parse: ResourceRecord -> Result<T, DnssecError>)
    requires keep(a) && keep(b) && parse(a).Ok? && parse(b).Ok?
    ensures ParseKept([a, b], keep, parse) == Ok([parse(a).value, parse(b).value])
  {
    KeptOne(a, keep, parse);
    KeptOne(b, keep, parse);
    KeptInOrder([a], [b], keep, parse);
    assert [a] + [b] == [a, b];
    assert [parse(a).value] + [parse(b).value] == [parse(a).value, parse(b).value];
  }

  /** Records are kept in their order: what two lists give one behind the other, they give joined. */
  lemma {:induction false} KeptInOrder<T>(a: RRset, b: RRset, keep: ResourceRecord -> bool,
                                          parse: ResourceRecord -> Result<T, DnssecError>)
    requires ParseKept(a, keep, parse).Ok? && ParseKept(b, keep, parse).Ok?
    ensures ParseKept(a + b, keep, parse) == Ok(ParseKept(a, keep, parse).value + ParseKept(b, keep, parse).value)
  {
    if a == [] {
      assert a + b == b;
      assert [] + ParseKept(b, keep, parse).value == ParseKept(b, keep, parse).value;
    } else {
      assert (a + b)[1..] == a[1..] + b;
      KeptInOrder(a[1..], b, keep, parse);
      if keep(a[0]) {
        var first, rest := parse(a[0]).value, ParseKept(a[1..], keep, parse).value;
        assert [first] + (rest + ParseKept(b, keep, parse).value) == [first] + rest + ParseKept(b, keep, parse).value;
      }
    }
  }

  // --------------------------------------------------------------- signatures

  /** The signature covers the type, is the owner's, and has the key's algorithm and tag. */
  ghost predicate IsTried(owner: Name, recordType: RecordType, rrsig: RrsigRecord, key: DnskeyRecord) {
    && rrsig.parts.typeCovered == recordType && rrsig.signer == owner
    && key.algorithm == rrsig.algorithm && IsTag(key.rdata, rrsig.keyTag)
  }

  /** A zone key's signature is of an algorithm that is not known, or at fault itself, or over what cannot be signed. */
  ghost predicate CheckFails(c: Primitives, owner: Name, rrset: RRset, now: nat, rrsig: RrsigRecord, key: DnskeyRecord,
                             e: DnssecError)
    requires rrset != []
  {
    && IsTried(owner, rrset[0].recordType, rrsig, key) && IsZoneFlagged(key)
    && if rrsig.algorithm !in {5, 7, 8, 10, 13, 14, 15} then e == UnsupportedAlgorithm
       else
         match c.fault(rrsig.algorithm, key.publicKey, rrsig.signature)
         case Some(fault) => e == fault
         case None => SignedData.Assemble(c.svcb, rrset, rrsig.parts, now) == Err(e)
  }

  /** The pairs in the order they are tried: every key for the first signature, then for the next. */
  ghost function Tried(rrsigs: seq<RrsigRecord>, keys: seq<DnskeyRecord>): seq<(RrsigRecord, DnskeyRecord)> {
    if rrsigs == [] then [] else TriedWith(rrsigs[0], keys) + Tried(rrsigs[1..], keys)
  }

  ghost function TriedWith(rrsig: RrsigRecord, keys: seq<DnskeyRecord>): (row: seq<(RrsigRecord, DnskeyRecord)>)
    ensures |row| == |keys| && forall i :: 0 <= i < |row| ==> row[i] == (rrsig, keys[i])
  {
    seq(|keys|, i requires 0 <= i < |keys| => (rrsig, keys[i]))
  }

  /** The check of the pair at `n` is the first to fail. */
  ghost predicate FailsAt(c: Primitives, owner: Name, rrset: RRset, now: nat, pairs: seq<(RrsigRecord, DnskeyRecord)>,
                          n: nat, e: DnssecError)
    requires rrset != []
    decreases n
  {
    && n < |pairs|
    && if n == 0 then CheckFails(c, owner, rrset, now, pairs[0].0, pairs[0].1, e)
       else
         && (forall x :: !CheckFails(c, owner, rrset, now, pairs[0].0, pairs[0].1, x))
         && FailsAt(c, owner, rrset, now, pairs[1..], n - 1, e)
  }

  lemma CheckFailsIff(c: Primitives, owner: Name, rrset: RRset, now: nat, rrsig: RrsigRecord, key: DnskeyRecord,
                      e: DnssecError)
    requires rrset != []
    ensures CheckFails(c, owner, rrset, now, rrsig, key, e) <==>
      Candidate(owner, rrset[0].recordType, rrsig, key) && VerifyRrsig(c, rrset, rrsig, key, now) == Err(e)
  {
    hide SignedData.Assemble, TagOf, IsTag;
    TagIff(key.rdata, rrsig.keyTag);
  }

  lemma {:induction false} FirstErrorJoin(a: seq<Result<bool, DnssecError>>, b: seq<Result<bool, DnssecError>>)
    ensures FirstError(a + b) == if FirstError(a).Some? then FirstError(a) else FirstError(b)
  {
    if a == [] {
      assert a + b == b;
    } else {
      assert (a + b)[1..] == a[1..] + b;
      FirstErrorJoin(a[1..], b);
    }
  }

  /** The first error among the tries, read off the pairs. */
  ghost function FirstFault(c: Primitives, owner: Name, rrset: RRset, now: nat,
                            pairs: seq<(RrsigRecord, DnskeyRecord)>): Option<DnssecError>
    requires rrset != []
  {
    if pairs == [] then None
    else
      var (rrsig, key) := pairs[0];
      if Candidate(owner, rrset[0].recordType, rrsig, key) && VerifyRrsig(c, rrset, rrsig, key, now).Err?
      then Some(VerifyRrsig(c, rrset, rrsig, key, now).error)
      else FirstFault(c, owner, rrset, now, pairs[1..])
  }

  lemma {:induction false} TriesFault(c: Primitives, owner: Name, rrset: RRset, now: nat, rrsig: RrsigRecord,
                                      keys: seq<DnskeyRecord>, later: seq<(RrsigRecord, DnskeyRecord)>)
    requires rrset != []
    ensures var error := FirstError(Tries(c, owner, rrset, rrsig, keys, now));
      FirstFault(c, owner, rrset, now, TriedWith(rrsig, keys) + later) ==
      if error.Some? then error else FirstFault(c, owner, rrset, now, later)
  {
    hide VerifyRrsig, Candidate;
    var row := TriedWith(rrsig, keys);
    if keys == [] {
      assert row + later == later;
    } else {
      TriesFault(c, owner, rrset, now, rrsig, keys[1..], later);
      assert (row + later)[1..] == TriedWith(rrsig, keys[1..]) + later;
      var rest := Tries(c, owner, rrset, rrsig, keys[1..], now);
      assert [] + rest == rest && ([VerifyRrsig(c, rrset, rrsig, keys[0], now)] + rest)[1..] == rest;
    }
  }

  lemma {:induction false} AllTriesFault(c: Primitives, owner: Name, rrset: RRset, now: nat, rrsigs: seq<RrsigRecord>,
                                         keys: seq<DnskeyRecord>)
    requires rrset != []
    ensures FirstError(AllTries(c, owner, rrset, rrsigs, keys, now)) ==
            FirstFault(c, owner, rrset, now, Tried(rrsigs, keys))
  {
    hide Tries, TriedWith;
    if rrsigs != [] {
      TriesFault(c, owner, rrset, now, rrsigs[0], keys, Tried(rrsigs[1..], keys));
      AllTriesFault(c, owner, rrset, now, rrsigs[1..], keys);
      FirstErrorJoin(Tries(c, owner, rrset, rrsigs[0], keys, now), AllTries(c, owner, rrset, rrsigs[1..], keys, now));
    }
  }

  lemma {:induction false} FaultIsFirst(c: Primitives, owner: Name, rrset: RRset, now: nat,
                                        pairs: seq<(RrsigRecord, DnskeyRecord)>) returns (n: nat)
    requires rrset != []
    ensures FirstFault(c, owner, rrset, now, pairs).Some? ==>
      FailsAt(c, owner, rrset, now, pairs, n, FirstFault(c, owner, rrset, now, pairs).value)
    decreases |pairs|
  {
    hide VerifyRrsig, Candidate, CheckFails;
    n := 0;
    if pairs != [] {
      var (rrsig, key) := pairs[0];
      forall e { CheckFailsIff(c, owner, rrset, now, rrsig, key, e); }
      var later := FaultIsFirst(c, owner, rrset, now, pairs[1..]);
      if !(Candidate(owner, rrset[0].recordType, rrsig, key) && VerifyRrsig(c, rrset, rrsig, key, now).Err?) {
        n := later + 1;
      }
    }
  }

  lemma {:induction false} FirstIsFault(c: Primitives, owner: Name, rrset: RRset, now: nat,
                                        pairs: seq<(RrsigRecord, DnskeyRecord)>, n: nat, e: DnssecError)
    requires rrset != [] && FailsAt(c, owner, rrset, now, pairs, n, e)
    ensures FirstFault(c, owner, rrset, now, pairs) == Some(e)
    decreases n
  {
    hide VerifyRrsig, Candidate, CheckFails;
    var (rrsig, key) := pairs[0];
    forall x ensures CheckFails(c, owner, rrset, now, rrsig, key, x) <==>
        Candidate(owner, rrset[0].recordType, rrsig, key) && VerifyRrsig(c, rrset, rrsig, key, now) == Err(x)
    {
      CheckFailsIff(c, owner, rrset, now, rrsig, key, x);
    }
    if n > 0 {
      FirstIsFault(c, owner, rrset, now, pairs[1..], n - 1, e);
      if VerifyRrsig(c, rrset, rrsig, key, now).Err? {
        assert !CheckFails(c, owner, rrset, now, rrsig, key, VerifyRrsig(c, rrset, rrsig, key, now).error);
      }
    }
  }

  /**
   The verdict on a signed set whose keys and signatures can be read: if no key
   made a signature over it, the first check to fail gives the error; if none
   fails either, the set is bogus.
   */
  lemma SignatureVerdict(c: Primitives, owner: Name, keySet: RRset, rrset: RRset, sigSet: RRset, now: nat,
                         e: DnssecError)
    requires rrset != [] && Dnskeys(keySet).Ok? && RrsigsOf(sigSet, rrset[0]).Ok?
    ensures var pairs := Tried(RrsigsOf(sigSet, rrset[0]).value, Dnskeys(keySet).value);
      SignatureStatus(c, owner, keySet, rrset, sigSet, now) == Err(e) <==>
        && (forall key, rrsig :: !Signs(c, owner, keySet, rrset, sigSet, now, key, rrsig))
        && exists n :: FailsAt(c, owner, rrset, now, pairs, n, e)
    ensures SignatureStatus(c, owner, keySet, rrset, sigSet, now).Ok? ==>
      SignatureStatus(c, owner, keySet, rrset, sigSet, now).value in {Secure, Bogus}
  {
    hide Dnskeys, RrsigsOf, Signs, FailsAt, AllTries, FirstFault, Tried;
    var pairs := Tried(RrsigsOf(sigSet, rrset[0]).value, Dnskeys(keySet).value);
    SecureIffSigned(c, owner, keySet, rrset, sigSet, now);
    AllTriesFault(c, owner, rrset, now, RrsigsOf(sigSet, rrset[0]).value, Dnskeys(keySet).value);
    var n := FaultIsFirst(c, owner, rrset, now, pairs);
    if n: nat :| FailsAt(c, owner, rrset, now, pairs, n, e) { FirstIsFault(c, owner, rrset, now, pairs, n, e); }
  }
}
