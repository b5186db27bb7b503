/**
 The chain of trust: delegation signers that vouch for keys, signatures that
 keys make, and the walk from the first zone to the zone of the target.
 Digests and signatures themselves are unknown functions.
 */
module ChainOfTrust {
  import opened Bytes
  import opened DnsName
  import opened DnsWire
  import opened Denial
  import SignedData

  const ZONE_FLAG: u16 := 0x0100
  const DNSSEC_PROTOCOL: byte := 3

  datatype DnskeyRecord = DnskeyRecord(flags: u16, algorithm: byte, publicKey: Bytes, rdata: Bytes)

  datatype DsRecord = DsRecord(keyTag: u16, algorithm: byte, digestType: byte, digest: Bytes)

  datatype RrsigRecord = RrsigRecord(algorithm: byte, keyTag: u16, signer: Name, signature: Bytes,
                                     parts: SignedData.Rrsig)

  /** A digest by type, what is wrong with a key or signature of an algorithm, and whether a signature holds. */
  datatype Primitives = Primitives(svcb: SignedData.SvcbForm, digest: (byte, Bytes) -> Bytes,
                                   fault: (byte, Bytes, Bytes) -> Option<DnssecError>,
                                   holds: (byte, Bytes, Bytes, Bytes) -> bool)

  // ------------------------------------------------------------------ records

  function ParseDnskey(r: ResourceRecord): Result<DnskeyRecord, DnssecError> {
    if |r.rdata| < 4 || r.rdata[2] != DNSSEC_PROTOCOL then Err(InvalidDnskey)
    else Ok(DnskeyRecord(Read16(r.rdata, 0), r.rdata[3], r.rdata[4..], r.rdata))
  }

  function ParseDs(r: ResourceRecord): Result<DsRecord, DnssecError> {
    if |r.rdata| < 5 then Err(InvalidDs)
    else Ok(DsRecord(Read16(r.rdata, 0), r.rdata[2], r.rdata[3], r.rdata[4..]))
  }

  function ParseRrsig(r: ResourceRecord): Result<RrsigRecord, DnssecError> {
    if |r.rdata| < 19 then Err(InvalidRrsig)
    else
      match ParseName(r.rdata, 18)
      case Err(_) => Err(InvalidRrsig)
      case Ok((signer, end)) =>
        if end >= |r.rdata| then Err(InvalidRrsig)
        else
          match EncodeName(signer)
          case Err(_) => Err(NameEncoding)
          case Ok(wire) =>
            Ok(RrsigRecord(r.rdata[2], Read16(r.rdata, 16), signer, r.rdata[end..],
                           SignedData.Rrsig(FromCode(Read16(r.rdata, 0)), r.rdata[3], Read32(r.rdata, 4),
                                            Read32(r.rdata, 12), Read32(r.rdata, 8), r.rdata[..18] + wire)))
  }

  /** Every record that `keep` selects, parsed; the first that does not parse fails them all. */
  function ParseKept<T>(rrset: RRset, keep: ResourceRecord -> bool,
                        parse: ResourceRecord -> Result<T, DnssecError>): Result<seq<T>, DnssecError> {
    if rrset == [] then Ok([])
    else if !keep(rrset[0]) then ParseKept(rrset[1..], keep, parse)
    else
      var x :- parse(rrset[0]);
      var rest :- ParseKept(rrset[1..], keep, parse);
      Ok([x] + rest)
  }

  predicate IsDnskey(r: ResourceRecord) { r.recordType == Dnskey }

  predicate IsDs(r: ResourceRecord) { r.recordType == Ds }

  /** Signature records beside a set: of its owner and class. */
  function RrsigsBeside(first: ResourceRecord): ResourceRecord -> bool {
    (r: ResourceRecord) => r.recordType == Rrsig && r.name == first.name && r.class_ == first.class_
  }

  function Dnskeys(rrset: RRset): Result<seq<DnskeyRecord>, DnssecError> {
    ParseKept(rrset, IsDnskey, ParseDnskey)
  }

  function DsRecords(rrset: RRset): Result<seq<DsRecord>, DnssecError> {
    ParseKept(rrset, IsDs, ParseDs)
  }

  function RrsigsOf(rrset: RRset, first: ResourceRecord): Result<seq<RrsigRecord>, DnssecError> {
    ParseKept(rrset, RrsigsBeside(first), ParseRrsig)
  }

  // ---------------------------------------------------- records, octet by octet

  /** Flags, the protocol number 3, the algorithm, the key. */
  ghost predicate DnskeyData(d: Bytes, key: DnskeyRecord) {
    && key.rdata == d && |d| >= 4 && d[2] == 3
    && key.flags == d[0] as int * 256 + d[1] as int && key.algorithm == d[3] && key.publicKey == d[4..]
  }

  /** Key tag, algorithm, kind of digest, and a digest that is not empty. */
  ghost predicate DsData(d: Bytes, ds: DsRecord) {
    && |d| >= 5 && ds.keyTag == d[0] as int * 256 + d[1] as int
    && ds.algorithm == d[2] && ds.digestType == d[3] && ds.digest == d[4..]
  }

  ghost function Number32(d: Bytes, at: nat): nat
    requires at + 4 <= |d|
  {
    d[at] as int * 0x100_0000 + d[at + 1] as int * 0x1_0000 + d[at + 2] as int * 0x100 + d[at + 3] as int
  }

  /**
   The type covered, algorithm, number of labels, original lifetime, end and
   start of the period, key tag, the signer's name, and a signature that is not
   empty. What is signed of it ends with the name, written out.
   */
  ghost predicate RrsigData(d: Bytes, sig: RrsigRecord) {
    && |d| >= 19 && ParseName(d, 18).Ok?
    && var (signer, end) := ParseName(d, 18).value;
       && end < |d| && sig.signer == signer && sig.signature == d[end..]
       && sig.algorithm == d[2] && sig.keyTag == d[16] as int * 256 + d[17] as int
       && sig.parts.typeCovered == FromCode(d[0] as int * 256 + d[1] as int) && sig.parts.labels == d[3]
       && sig.parts.originalTtl == Number32(d, 4)
       && sig.parts.expiration == Number32(d, 8) && sig.parts.inception == Number32(d, 12)
       && sig.parts.signedRdata == d[..18] + WriteName(signer)
  }

  lemma DnskeyIff(r: ResourceRecord, key: DnskeyRecord)
    ensures ParseDnskey(r) == Ok(key) <==> DnskeyData(r.rdata, key)
    ensures ParseDnskey(r).Err? ==> ParseDnskey(r) == Err(InvalidDnskey)
  {
  }

  lemma DsIff(r: ResourceRecord, ds: DsRecord)
    ensures ParseDs(r) == Ok(ds) <==> DsData(r.rdata, ds)
    ensures ParseDs(r).Err? ==> ParseDs(r) == Err(InvalidDs)
  {
  }

  lemma RrsigIff(r: ResourceRecord, sig: RrsigRecord)
    ensures ParseRrsig(r) == Ok(sig) <==> RrsigData(r.rdata, sig)
    ensures ParseRrsig(r).Err? ==> ParseRrsig(r) == Err(InvalidRrsig)
  {
    hide ParseName, WriteName, FromCode;
    if |r.rdata| >= 19 && ParseName(r.rdata, 18).Ok? {
      ParsedNameEncodes(r.rdata, 18);
    }
  }

  lemma ParsedNameEncodes(d: Bytes, at: nat)
    requires ParseName(d, at).Ok?
    ensures EncodeName(ParseName(d, at).value.0) == Ok(WriteName(ParseName(d, at).value.0))
  {
    hide ParseName, WriteName;
    ParsedNameIsValid(d, at);
  }

  /** The records kept are read exactly if each of them can be, and then they are all there and nothing else is. */
  lemma {:induction false} ParseKeptIff<T>(rrset: RRset, keep: ResourceRecord -> bool,
                                           parse: ResourceRecord -> Result<T, DnssecError>)
    ensures ParseKept(rrset, keep, parse).Ok? <==> forall r :: r in rrset && keep(r) ==> parse(r).Ok?
    ensures ParseKept(rrset, keep, parse).Ok? ==>
      forall x :: x in ParseKept(rrset, keep, parse).value <==> exists r :: r in rrset && keep(r) && parse(r) == Ok(x)
  {
    if rrset != [] {
      assert rrset == [rrset[0]] + rrset[1..];
      ParseKeptIff(rrset[1..], keep, parse);
    }
  }

  /** A key of the set, all of whose key records can be read. */
  ghost predicate HasKey(keySet: RRset, key: DnskeyRecord) {
    && (forall r :: r in keySet && r.recordType == Dnskey ==> exists k :: DnskeyData(r.rdata, k))
    && exists r :: r in keySet && r.recordType == Dnskey && DnskeyData(r.rdata, key)
  }

  ghost predicate HasSigner(dsSet: RRset, ds: DsRecord) {
    && (forall r :: r in dsSet && r.recordType == Ds ==> exists d :: DsData(r.rdata, d))
    && exists r :: r in dsSet && r.recordType == Ds && DsData(r.rdata, ds)
  }

  /** A signature of the set's owner and class, all of which can be read. */
  ghost predicate HasSignature(sigSet: RRset, first: ResourceRecord, sig: RrsigRecord) {
    && (forall r :: r in sigSet && r.recordType == Rrsig && r.name == first.name && r.class_ == first.class_ ==>
          exists s :: RrsigData(r.rdata, s))
    && exists r :: r in sigSet && r.recordType == Rrsig && r.name == first.name && r.class_ == first.class_ &&
                   RrsigData(r.rdata, sig)
  }

  lemma HasKeyIff(keySet: RRset, key: DnskeyRecord)
    ensures HasKey(keySet, key) <==> Dnskeys(keySet).Ok? && key in Dnskeys(keySet).value
  {
    hide ParseKept, ParseDnskey, DnskeyData;
    ParseKeptIff(keySet, IsDnskey, ParseDnskey);
    forall r, k ensures ParseDnskey(r) == Ok(k) <==> DnskeyData(r.rdata, k) { DnskeyIff(r, k); }
    forall r ensures ParseDnskey(r).Ok? <==> exists k :: DnskeyData(r.rdata, k) {
      if ParseDnskey(r).Ok? { DnskeyIff(r, ParseDnskey(r).value); }
      if k :| DnskeyData(r.rdata, k) { DnskeyIff(r, k); }
    }
  }

  lemma HasSignerIff(dsSet: RRset, ds: DsRecord)
    ensures HasSigner(dsSet, ds) <==> DsRecords(dsSet).Ok? && ds in DsRecords(dsSet).value
  {
    hide ParseKept, ParseDs, DsData;
    ParseKeptIff(dsSet, IsDs, ParseDs);
    forall r, k ensures ParseDs(r) == Ok(k) <==> DsData(r.rdata, k) { DsIff(r, k); }
    forall r ensures ParseDs(r).Ok? <==> exists k :: DsData(r.rdata, k) {
      if ParseDs(r).Ok? { DsIff(r, ParseDs(r).value); }
      if k :| DsData(r.rdata, k) { DsIff(r, k); }
    }
  }

  lemma HasSignatureIff(sigSet: RRset, first: ResourceRecord, sig: RrsigRecord)
    ensures HasSignature(sigSet, first, sig) <==> RrsigsOf(sigSet, first).Ok? && sig in RrsigsOf(sigSet, first).value
  {
    hide ParseKept, ParseRrsig, RrsigData;
    ParseKeptIff(sigSet, RrsigsBeside(first), ParseRrsig);
    forall r, k ensures ParseRrsig(r) == Ok(k) <==> RrsigData(r.rdata, k) { RrsigIff(r, k); }
    forall r ensures ParseRrsig(r).Ok? <==> exists k :: RrsigData(r.rdata, k) {
      if ParseRrsig(r).Ok? { RrsigIff(r, ParseRrsig(r).value); }
      if k :| RrsigData(r.rdata, k) { RrsigIff(r, k); }
    }
  }

  // ------------------------------------------------------------------ key tags

  /** The first `n` octets, summed as big-endian pairs. */
  function PairSum(rdata: Bytes, n: nat): (sum: nat)
    requires n <= |rdata|
    ensures 2 * sum <= 0xffff * n + 0xff00
  {
    if n == 0 then 0
    else PairSum(rdata, n - 1) + (if n % 2 == 1 then rdata[n - 1] as int * 256 else rdata[n - 1] as int)
  }

  /** The sum folded to 16 bits. */
  function Fold(sum: nat): u16 {
    (sum + sum / 0x1_0000 % 0x1_0000) % 0x1_0000
  }

  function TagOf(rdata: Bytes): u16 {
    Fold(PairSum(rdata, |rdata|))
  }

  /** Every other octet from place `at` on, added up. */
  ghost function EveryOther(s: Bytes, at: nat): nat
    decreases |s| - at
  {
    if at >= |s| then 0 else s[at] as int + EveryOther(s, at + 2)
  }

  /** The octets added up, those at even places 256-fold, and the sum kept to 32 bits. */
  ghost function Checksum(rdata: Bytes): nat {
    (256 * EveryOther(rdata, 0) + EveryOther(rdata, 1)) % 0x1_0000_0000
  }

  ghost predicate IsTag(rdata: Bytes, tag: u16) {
    exists high: u16, low: u16 :: HalvesAdd(Checksum(rdata), high, low, tag)
  }

  /** The halves of `n` add up to `tag`, but for 65536 if that is too much for 16 bits. */
  ghost predicate HalvesAdd(n: nat, high: u16, low: u16, tag: u16) {
    n == 65536 * high + low && tag == if high + low < 65536 then high + low else high + low - 65536
  }

  lemma {:induction false} PairsAreEveryOther(rdata: Bytes, n: nat)
    requires n <= |rdata|
    ensures PairSum(rdata, n) + (if n % 2 == 0 then 256 * EveryOther(rdata, n) + EveryOther(rdata, n + 1)
                                 else EveryOther(rdata, n) + 256 * EveryOther(rdata, n + 1)) ==
            256 * EveryOther(rdata, 0) + EveryOther(rdata, 1)
  {
    if n == 0 {
      PairSumStarts(rdata);
    } else {
      PairsAreEveryOther(rdata, n - 1);
    }
  }

  lemma FoldIs(sum: nat, high: u16, low: u16)
    requires sum % 0x1_0000_0000 == 65536 * high + low
    ensures Fold(sum) == if high + low < 65536 then high + low else high + low - 65536
  {
    var wraps := sum / 0x1_0000_0000;
    assert sum == (wraps * 0x1_0000 + high) * 0x1_0000 + low;
    DigitsOf(wraps * 0x1_0000 + high, low);
    DigitsOf(wraps, high);
    if high + low < 0x1_0000 { DigitsOf(wraps * 0x1_0000 + high, high + low); }
    else { DigitsOf(wraps * 0x1_0000 + high + 1, high + low - 0x1_0000); }
  }

  lemma DigitsOf(high: nat, low: u16)
    ensures (high * 0x1_0000 + low) % 0x1_0000 == low && (high * 0x1_0000 + low) / 0x1_0000 == high
  {
  }

  lemma TagIff(rdata: Bytes, tag: u16)
    ensures IsTag(rdata, tag) <==> TagOf(rdata) == tag
  {
    var sum := PairSum(rdata, |rdata|);
    PairsAreEveryOther(rdata, |rdata|);
    assert EveryOther(rdata, |rdata|) == EveryOther(rdata, |rdata| + 1) == 0;
    var kept := Checksum(rdata);
    assert kept == sum % 0x1_0000_0000;
    hide Fold, PairSum, EveryOther, Checksum;
    var high, low := kept / 65536, kept % 65536;
    FoldIs(sum, high, low);
    assert HalvesAdd(kept, high, low, Fold(sum));
    if IsTag(rdata, tag) {
      var high', low' :| HalvesAdd(kept, high', low', tag);
      FoldIs(sum, high', low');
    }
  }

  /** A zone key whose sum carries: 0x10407 folds to 0x0408. */
  lemma TagOfSomeKey()
    ensures TagOf([1, 0, 3, 8, 0xff, 0xff]) == 0x0408
  {
    var d: Bytes := [1, 0, 3, 8, 0xff, 0xff];
    assert EveryOther(d, 0) == 1 + 3 + 0xff by {
      assert EveryOther(d, 6) == 0 && EveryOther(d, 4) == 0xff && EveryOther(d, 2) == 3 + 0xff;
    }
    assert EveryOther(d, 1) == 0 + 8 + 0xff by {
      assert EveryOther(d, 7) == 0 && EveryOther(d, 5) == 0xff && EveryOther(d, 3) == 8 + 0xff;
    }
    TagIff(d, 0x0408);
    assert 256 * EveryOther(d, 0) + EveryOther(d, 1) == 65536 * 1 + 0x0407;
    var high: u16, low: u16 := 1, 0x0407;
    assert HalvesAdd(Checksum(d), high, low, 0x0408);
  }

  /** The accumulator has 32 bits, enough for any record data; it would wrap on longer strings. */
  method KeyTag(rdata: Bytes) returns (tag: u16)
    ensures tag == Fold(PairSum(rdata, |rdata|) % 0x1_0000_0000)
    ensures |rdata| <= 0xffff ==> tag == TagOf(rdata)
    ensures IsTag(rdata, tag)
  {
    hide PairSum, IsTag;
    var accumulator: u32 := 0;
    PairSumStarts(rdata);
    for index := 0 to |rdata|
      invariant accumulator == PairSum(rdata, index) % 0x1_0000_0000
    {
      var term := if index % 2 == 0 then rdata[index] as int * 256 else rdata[index] as int;
      PairSumGoesOn(rdata, index);
      WrapSum(PairSum(rdata, index), term);
      accumulator := (accumulator + term) % 0x1_0000_0000;
    }
    if |rdata| <= 0xffff { SumFits(PairSum(rdata, |rdata|)); }
    tag := Fold(accumulator);
    TagIff(rdata, tag);
    FoldWraps(PairSum(rdata, |rdata|));
  }

  lemma PairSumStarts(rdata: Bytes)
    ensures PairSum(rdata, 0) == 0
  {
  }

  lemma PairSumGoesOn(rdata: Bytes, n: nat)
    requires n < |rdata|
    ensures PairSum(rdata, n + 1) ==
            PairSum(rdata, n) + if n % 2 == 0 then rdata[n] as int * 256 else rdata[n] as int
  {
  }

  lemma WrapSum(sum: nat, term: nat)
    ensures (sum % 0x1_0000_0000 + term) % 0x1_0000_0000 == (sum + term) % 0x1_0000_0000
  {
  }

  lemma FoldWraps(sum: nat)
    ensures Fold(sum % 0x1_0000_0000) == Fold(sum)
  {
    hide Fold;
    var kept := sum % 0x1_0000_0000;
    FoldIs(sum, kept / 65536, kept % 65536);
    FoldIs(kept, kept / 65536, kept % 65536);
  }

  lemma SumFits(sum: nat)
    requires 2 * sum <= 0xffff * 0xffff + 0xff00
    ensures sum % 0x1_0000_0000 == sum
  {
  }

  // ------------------------------------------------------------ single checks

  predicate IsZoneKey(key: DnskeyRecord) { key.flags / ZONE_FLAG % 2 == 1 }

  function DsDigest(c: Primitives, owner: Name, key: DnskeyRecord, digestType: byte): Result<Bytes, DnssecError> {
    match EncodeName(owner)
    case Err(_) => Err(NameEncoding)
    case Ok(wire) =>
      if digestType in {1, 2, 4} then Ok(c.digest(digestType, wire + key.rdata)) else Err(UnsupportedDigest)
  }

  /** Whether a delegation signer names this key. */
  function VerifyDs(c: Primitives, owner: Name, key: DnskeyRecord, ds: DsRecord): Result<bool, DnssecError> {
    if !IsZoneKey(key) || key.algorithm != ds.algorithm || TagOf(key.rdata) != ds.keyTag then Ok(false)
    else
      var digest :- DsDigest(c, owner, key, ds.digestType);
      Ok(digest == ds.digest)
  }

  /** Whether this key made this signature over the canonical form of the set. */
  function VerifyRrsig(c: Primitives, rrset: RRset, rrsig: RrsigRecord, key: DnskeyRecord, now: nat)
    : Result<bool, DnssecError>
  {
    if !IsZoneKey(key) || rrsig.algorithm != key.algorithm || rrsig.keyTag != TagOf(key.rdata) then Ok(false)
    else if rrsig.algorithm !in {5, 7, 8, 10, 13, 14, 15} then Err(UnsupportedAlgorithm)
    else
      match c.fault(rrsig.algorithm, key.publicKey, rrsig.signature)
      case Some(e) => Err(e)
      case None =>
        var octets :- SignedData.Assemble(c.svcb, rrset, rrsig.parts, now);
        Ok(c.holds(rrsig.algorithm, key.publicKey, octets, rrsig.signature))
  }

  /** A zone key: the last bit of its first octet is set, as the flags have the high octet first. */
  ghost predicate IsZoneFlagged(key: DnskeyRecord) {
    key.flags / 256 % 2 == 1
  }

  /** A delegation signer names a key: a zone key of the same algorithm and tag, and of that digest. */
  ghost predicate Names(c: Primitives, owner: Name, ds: DsRecord, key: DnskeyRecord) {
    && IsZoneFlagged(key) && key.algorithm == ds.algorithm && IsTag(key.rdata, ds.keyTag)
    && ds.digestType in {1, 2, 4} && (forall i :: 0 <= i < |owner| ==> |owner[i]| <= 63)
    && c.digest(ds.digestType, WriteName(owner) + key.rdata) == ds.digest
  }

  lemma VerifyDsIff(c: Primitives, owner: Name, key: DnskeyRecord, ds: DsRecord)
    ensures VerifyDs(c, owner, key, ds) == Ok(true) <==> Names(c, owner, ds, key)
  {
    hide TagOf, IsTag, WriteName;
    TagIff(key.rdata, ds.keyTag);
  }

  /** A key made a signature: a zone key of its algorithm and tag, in its period, over the set's canonical octets. */
  ghost predicate Made(c: Primitives, key: DnskeyRecord, rrsig: RrsigRecord, rrset: RRset, now: nat) {
    && IsZoneFlagged(key) && rrsig.algorithm == key.algorithm && IsTag(key.rdata, rrsig.keyTag)
    && rrsig.algorithm in {5, 7, 8, 10, 13, 14, 15}
    && c.fault(rrsig.algorithm, key.publicKey, rrsig.signature) == None
    && rrsig.parts.inception <= now <= rrsig.parts.expiration
    && exists octets :: SignedData.IsSignedOver(c.svcb, rrset, rrsig.parts, octets) &&
         c.holds(rrsig.algorithm, key.publicKey, octets, rrsig.signature)
  }

  lemma VerifyRrsigIff(c: Primitives, rrset: RRset, rrsig: RrsigRecord, key: DnskeyRecord, now: nat)
    ensures VerifyRrsig(c, rrset, rrsig, key, now) == Ok(true) <==> Made(c, key, rrsig, rrset, now)
  {
    hide SignedData.Assemble, SignedData.IsSignedOver, TagOf, IsTag;
    TagIff(key.rdata, rrsig.keyTag);
    var r := SignedData.Assemble(c.svcb, rrset, rrsig.parts, now);
    if r.Ok? { SignedData.AssembleIff(c.svcb, rrset, rrsig.parts, now, r.value); }
    if Made(c, key, rrsig, rrset, now) {
      var octets :| SignedData.IsSignedOver(c.svcb, rrset, rrsig.parts, octets) &&
                    c.holds(rrsig.algorithm, key.publicKey, octets, rrsig.signature);
      SignedData.AssembleIff(c.svcb, rrset, rrsig.parts, now, octets);
    }
  }

  // ------------------------------------------------------------- delegation

  /** One key against every delegation signer, in turn; an error is final. */
  function NamedByAny(c: Primitives, owner: Name, key: DnskeyRecord, signers: seq<DsRecord>)
    : Result<bool, DnssecError>
  {
    if signers == [] then Ok(false)
    else
      var named :- VerifyDs(c, owner, key, signers[0]);
      if named then Ok(true) else NamedByAny(c, owner, key, signers[1..])
  }

  function AnyNamed(c: Primitives, owner: Name, keys: seq<DnskeyRecord>, signers: seq<DsRecord>)
    : Result<DnssecStatus, DnssecError>
  {
    if keys == [] then Ok(Bogus)
    else
      var named :- NamedByAny(c, owner, keys[0], signers);
      if named then Ok(Secure) else AnyNamed(c, owner, keys[1..], signers)
  }

  function DelegationStatus(c: Primitives, owner: Name, dsSet: RRset, keySet: RRset)
    : Result<DnssecStatus, DnssecError>
  {
    var signers :- DsRecords(dsSet);
    if signers == [] then Ok(InsecureDelegation)
    else
      var keys :- Dnskeys(keySet);
      AnyNamed(c, owner, keys, signers)
  }

  method ValidateDelegationLink(c: Primitives, owner: Name, dsSet: RRset, keySet: RRset)
    returns (r: Result<DnssecStatus, DnssecError>)
    ensures r == DelegationStatus(c, owner, dsSet, keySet)
  {
    hide DsRecords, Dnskeys, VerifyDs;
    var signers :- DsRecords(dsSet);
    if signers == [] {
      return Ok(InsecureDelegation);
    }
    var keys :- Dnskeys(keySet);
    assert keys[0..] == keys && signers[0..] == signers;
    for i := 0 to |keys|
      invariant AnyNamed(c, owner, keys, signers) == AnyNamed(c, owner, keys[i..], signers)
    {
      assert keys[i..][1..] == keys[i + 1..];
      for j := 0 to |signers|
        invariant NamedByAny(c, owner, keys[i], signers) == NamedByAny(c, owner, keys[i], signers[j..])
      {
        assert signers[j..][1..] == signers[j + 1..];
        var named :- VerifyDs(c, owner, keys[i], signers[j]);
        if named {
          return Ok(Secure);
        }
      }
    }
    r := Ok(Bogus);
  }

  /** A key of the set that a delegation signer of the other set names. */
  ghost predicate Anchors(c: Primitives, owner: Name, dsSet: RRset, keySet: RRset, key: DnskeyRecord, ds: DsRecord) {
    HasSigner(dsSet, ds) && HasKey(keySet, key) && Names(c, owner, ds, key)
  }

  lemma {:induction false} NamedIsAnchor(c: Primitives, owner: Name, key: DnskeyRecord, signers: seq<DsRecord>)
    requires NamedByAny(c, owner, key, signers) == Ok(true)
    ensures exists ds :: ds in signers && VerifyDs(c, owner, key, ds) == Ok(true)
  {
    hide VerifyDs;
    if VerifyDs(c, owner, key, signers[0]) == Ok(true) {
      assert signers[0] in signers;
    } else {
      NamedIsAnchor(c, owner, key, signers[1..]);
    }
  }

  lemma {:induction false} SecureHasAnchor(c: Primitives, owner: Name, keys: seq<DnskeyRecord>, signers: seq<DsRecord>)
    requires AnyNamed(c, owner, keys, signers) == Ok(Secure)
    ensures exists key, ds :: key in keys && ds in signers && VerifyDs(c, owner, key, ds) == Ok(true)
  {
    hide VerifyDs;
    if NamedByAny(c, owner, keys[0], signers) == Ok(true) {
      NamedIsAnchor(c, owner, keys[0], signers);
      assert keys[0] in keys;
    } else {
      SecureHasAnchor(c, owner, keys[1..], signers);
    }
  }

  // -------------------------------------------------------------- signatures

  predicate Candidate(owner: Name, recordType: RecordType, rrsig: RrsigRecord, key: DnskeyRecord) {
    && rrsig.parts.typeCovered == recordType && rrsig.signer == owner
    && key.algorithm == rrsig.algorithm && TagOf(key.rdata) == rrsig.keyTag
  }

  /** Some key of the set made some signature of the other set over `rrset`. */
  ghost predicate Signs(c: Primitives, owner: Name, keySet: RRset, rrset: RRset, sigSet: RRset, now: nat,
                        key: DnskeyRecord, rrsig: RrsigRecord)
  {
    && rrset != [] && HasKey(keySet, key) && HasSignature(sigSet, rrset[0], rrsig)
    && rrsig.parts.typeCovered == rrset[0].recordType && rrsig.signer == owner
    && Made(c, key, rrsig, rrset, now)
  }

  /** What each candidate pair gives, in the order they are tried. */
  function Tries(c: Primitives, owner: Name, rrset: RRset, rrsig: RrsigRecord, keys: seq<DnskeyRecord>, now: nat)
    : seq<Result<bool, DnssecError>>
    requires rrset != []
  {
    if keys == [] then []
    else
      (if Candidate(owner, rrset[0].recordType, rrsig, keys[0]) then [VerifyRrsig(c, rrset, rrsig, keys[0], now)]
       else []) +
      Tries(c, owner, rrset, rrsig, keys[1..], now)
  }

  function AllTries(c: Primitives, owner: Name, rrset: RRset, rrsigs: seq<RrsigRecord>, keys: seq<DnskeyRecord>,
                    now: nat)
    : seq<Result<bool, DnssecError>>
    requires rrset != []
  {
    if rrsigs == [] then []
    else Tries(c, owner, rrset, rrsigs[0], keys, now) + AllTries(c, owner, rrset, rrsigs[1..], keys, now)
  }

  function FirstError(tries: seq<Result<bool, DnssecError>>): Option<DnssecError> {
    if tries == [] then None else if tries[0].Err? then Some(tries[0].error) else FirstError(tries[1..])
  }

  /** One success is enough; failing that the first error counts; failing that the set is bogus. */
  function Verdict(tries: seq<Result<bool, DnssecError>>): Result<DnssecStatus, DnssecError> {
    if Ok(true) in tries then Ok(Secure)
    else if FirstError(tries).Some? then Err(FirstError(tries).value)
    else Ok(Bogus)
  }

  function SignatureStatus(c: Primitives, owner: Name, keySet: RRset, rrset: RRset, sigSet: RRset, now: nat)
    : Result<DnssecStatus, DnssecError>
  {
    if rrset == [] then Err(InvalidRrset)
    else
      var keys :- Dnskeys(keySet);
      var rrsigs :- RrsigsOf(sigSet, rrset[0]);
      Verdict(AllTries(c, owner, rrset, rrsigs, keys, now))
  }

  method ValidateRrsetSignature(c: Primitives, owner: Name, keySet: RRset, rrset: RRset, sigSet: RRset, now: nat)
    returns (r: Result<DnssecStatus, DnssecError>)
    ensures r == SignatureStatus(c, owner, keySet, rrset, sigSet, now)
  {
    hide Dnskeys, RrsigsOf, VerifyRrsig, Candidate;
    if rrset == [] {
      return Err(InvalidRrset);
    }
    var keys :- Dnskeys(keySet);
    var rrsigs :- RrsigsOf(sigSet, rrset[0]);
    var deferred: Option<DnssecError> := None;
    assert rrsigs[0..] == rrsigs && keys[0..] == keys;
    for i := 0 to |rrsigs|
      invariant Verdict(AllTries(c, owner, rrset, rrsigs, keys, now)) ==
                After(deferred, AllTries(c, owner, rrset, rrsigs[i..], keys, now))
    {
      assert rrsigs[i..][1..] == rrsigs[i + 1..];
      ghost var later := AllTries(c, owner, rrset, rrsigs[i + 1..], keys, now);
      for j := 0 to |keys|
        invariant Verdict(AllTries(c, owner, rrset, rrsigs, keys, now)) ==
                  After(deferred, Tries(c, owner, rrset, rrsigs[i], keys[j..], now) + later)
      {
        assert keys[j..][1..] == keys[j + 1..];
        ghost var rest := Tries(c, owner, rrset, rrsigs[i], keys[j + 1..], now);
        if Candidate(owner, rrset[0].recordType, rrsigs[i], keys[j]) {
          var outcome := VerifyRrsig(c, rrset, rrsigs[i], keys[j], now);
          AfterOne(deferred, outcome, rest, later);
          if outcome == Ok(true) {
            return Ok(Secure);
          }
          if outcome.Err? && deferred.None? {
            deferred := Some(outcome.error);
          }
        } else {
          assert [] + rest == rest;
        }
      }
      assert [] + later == later;
    }
    r := if deferred.Some? then Err(deferred.value) else Ok(Bogus);
  }

  /** The verdict with an error already noted and these tries still to come. */
  function After(deferred: Option<DnssecError>, tries: seq<Result<bool, DnssecError>>)
    : Result<DnssecStatus, DnssecError>
  {
    if Ok(true) !in tries && deferred.Some? then Err(deferred.value) else Verdict(tries)
  }

  lemma AfterOne(deferred: Option<DnssecError>, outcome: Result<bool, DnssecError>,
                 rest: seq<Result<bool, DnssecError>>, later: seq<Result<bool, DnssecError>>)
    ensures After(deferred, [outcome] + rest + later) ==
      if outcome == Ok(true) then Ok(Secure)
      else After(if outcome.Err? && deferred.None? then Some(outcome.error) else deferred, rest + later)
  {
    var all := [outcome] + rest + later;
    assert all[0] == outcome && all[1..] == rest + later && all == [outcome] + (rest + later);
  }

  lemma {:induction false} TriesAre(c: Primitives, owner: Name, rrset: RRset, rrsig: RrsigRecord,
                                    keys: seq<DnskeyRecord>, now: nat)
    requires rrset != []
    ensures Ok(true) in Tries(c, owner, rrset, rrsig, keys, now) <==>
      exists key :: key in keys && Candidate(owner, rrset[0].recordType, rrsig, key) &&
                    VerifyRrsig(c, rrset, rrsig, key, now) == Ok(true)
  {
    hide VerifyRrsig, Candidate;
    if keys != [] {
      TriesAre(c, owner, rrset, rrsig, keys[1..], now);
      assert keys == [keys[0]] + keys[1..];
    }
  }

  lemma {:induction false} AllTriesAre(c: Primitives, owner: Name, rrset: RRset, rrsigs: seq<RrsigRecord>,
                                       keys: seq<DnskeyRecord>, now: nat)
    requires rrset != []
    ensures Ok(true) in AllTries(c, owner, rrset, rrsigs, keys, now) <==>
      exists rrsig, key :: rrsig in rrsigs && key in keys && Candidate(owner, rrset[0].recordType, rrsig, key) &&
                           VerifyRrsig(c, rrset, rrsig, key, now) == Ok(true)
  {
    hide VerifyRrsig, Candidate;
    if rrsigs != [] {
      TriesAre(c, owner, rrset, rrsigs[0], keys, now);
      AllTriesAre(c, owner, rrset, rrsigs[1..], keys, now);
      assert rrsigs == [rrsigs[0]] + rrsigs[1..];
    }
  }

  /** A set counts as signed exactly if its keys and signatures parse and some key made some such signature over it. */
  lemma SecureIffSigned(c: Primitives, owner: Name, keySet: RRset, rrset: RRset, sigSet: RRset, now: nat)
    ensures SignatureStatus(c, owner, keySet, rrset, sigSet, now) == Ok(Secure) <==>
      exists key, rrsig :: Signs(c, owner, keySet, rrset, sigSet, now, key, rrsig)
  {
    hide VerifyRrsig, Dnskeys, RrsigsOf, TagOf, IsTag, HasKey, HasSignature, Made;
    forall key ensures HasKey(keySet, key) <==> Dnskeys(keySet).Ok? && key in Dnskeys(keySet).value {
      HasKeyIff(keySet, key);
    }
    forall sig ensures rrset != [] ==>
        (HasSignature(sigSet, rrset[0], sig) <==>
         RrsigsOf(sigSet, rrset[0]).Ok? && sig in RrsigsOf(sigSet, rrset[0]).value)
    {
      if rrset != [] { HasSignatureIff(sigSet, rrset[0], sig); }
    }
    if rrset != [] && Dnskeys(keySet).Ok? && RrsigsOf(sigSet, rrset[0]).Ok? {
      var keys, rrsigs := Dnskeys(keySet).value, RrsigsOf(sigSet, rrset[0]).value;
      AllTriesAre(c, owner, rrset, rrsigs, keys, now);
      forall rrsig, key
        ensures VerifyRrsig(c, rrset, rrsig, key, now) == Ok(true) <==> Made(c, key, rrsig, rrset, now)
      {
        VerifyRrsigIff(c, rrset, rrsig, key, now);
      }
      if Ok(true) in AllTries(c, owner, rrset, rrsigs, keys, now) {
        var rrsig, key :| rrsig in rrsigs && key in keys && Candidate(owner, rrset[0].recordType, rrsig, key) &&
                          VerifyRrsig(c, rrset, rrsig, key, now) == Ok(true);
        assert Signs(c, owner, keySet, rrset, sigSet, now, key, rrsig);
      }
      if key, rrsig :| Signs(c, owner, keySet, rrset, sigSet, now, key, rrsig) {
        TagIff(key.rdata, rrsig.keyTag);
        MadeByMatch(c, key, rrsig, rrset, now);
        assert Candidate(owner, rrset[0].recordType, rrsig, key);
      }
    }
  }

  lemma MadeByMatch(c: Primitives, key: DnskeyRecord, rrsig: RrsigRecord, rrset: RRset, now: nat)
    requires Made(c, key, rrsig, rrset, now)
    ensures key.algorithm == rrsig.algorithm && IsTag(key.rdata, rrsig.keyTag)
  {
  }

  // --------------------------------------------------------------- the chain

  /** A zone's keys, with the delegation signers its parent publishes for them. */
  datatype ZoneKeys = ZoneKeys(owner: Name, dsSet: RRset, dsSignatures: RRset, keySet: RRset, keySignatures: RRset)

  datatype Target = Target(rrset: RRset, signatures: RRset)

  function ZoneStatus(c: Primitives, zone: ZoneKeys, now: nat): Result<DnssecStatus, DnssecError> {
    var delegation :- DelegationStatus(c, zone.owner, zone.dsSet, zone.keySet);
    if delegation != Secure then Ok(delegation)
    else SignatureStatus(c, zone.owner, zone.keySet, zone.keySet, zone.keySignatures, now)
  }

  /** From a zone whose keys are settled, down the links, to the target. */
  function ChainFrom(c: Primitives, zone: ZoneKeys, links: seq<ZoneKeys>, target: Target, now: nat)
    : Result<DnssecStatus, DnssecError>
    decreases |links|
  {
    if links == [] then SignatureStatus(c, zone.owner, zone.keySet, target.rrset, target.signatures, now)
    else
      var delegation :- DelegationStatus(c, links[0].owner, links[0].dsSet, links[0].keySet);
      if delegation != Secure then Ok(delegation)
      else
        var dsStatus :- SignatureStatus(c, zone.owner, zone.keySet, links[0].dsSet, links[0].dsSignatures, now);
        if dsStatus != Secure then Ok(dsStatus)
        else
          var keyStatus :- SignatureStatus(c, links[0].owner, links[0].keySet, links[0].keySet, links[0].keySignatures,
                                           now);
          if keyStatus != Secure then Ok(keyStatus) else ChainFrom(c, links[0], links[1..], target, now)
  }

  function ChainStatus(c: Primitives, first: ZoneKeys, links: seq<ZoneKeys>, target: Target, now: nat)
    : Result<DnssecStatus, DnssecError>
  {
    var status :- ZoneStatus(c, first, now);
    if status != Secure then Ok(status) else ChainFrom(c, first, links, target, now)
  }

  method ValidateDnssecChain(c: Primitives, first: ZoneKeys, links: seq<ZoneKeys>, target: Target, now: nat)
    returns (r: Result<DnssecStatus, DnssecError>)
    ensures r == ChainStatus(c, first, links, target, now)
  {
    hide DelegationStatus, SignatureStatus;
    var delegation :- ValidateDelegationLink(c, first.owner, first.dsSet, first.keySet);
    if delegation != Secure {
      return Ok(delegation);
    }
    var firstStatus :- ValidateRrsetSignature(c, first.owner, first.keySet, first.keySet, first.keySignatures, now);
    if firstStatus != Secure {
      return Ok(firstStatus);
    }
    var currentOwner, currentKeys := first.owner, first.keySet;
    ghost var current := first;
    assert links[0..] == links;
    for k := 0 to |links|
      invariant currentOwner == current.owner && currentKeys == current.keySet
      invariant ChainStatus(c, first, links, target, now) == ChainFrom(c, current, links[k..], target, now)
    {
      var link := links[k];
      assert links[k..][0] == link && links[k..][1..] == links[k + 1..];
      var status :- ValidateDelegationLink(c, link.owner, link.dsSet, link.keySet);
      if status != Secure {
        return Ok(status);
      }
      status :- ValidateRrsetSignature(c, currentOwner, currentKeys, link.dsSet, link.dsSignatures, now);
      if status != Secure {
        return Ok(status);
      }
      status :- ValidateRrsetSignature(c, link.owner, link.keySet, link.keySet, link.keySignatures, now);
      if status != Secure {
        return Ok(status);
      }
      currentOwner, currentKeys := link.owner, link.keySet;
      current := link;
    }
    r := ValidateRrsetSignature(c, currentOwner, currentKeys, target.rrset, target.signatures, now);
  }

  /** Some key of the zone made a signature over the set. */
  ghost predicate SignedBy(c: Primitives, zone: ZoneKeys, rrset: RRset, signatures: RRset, now: nat) {
    exists key, rrsig :: Signs(c, zone.owner, zone.keySet, rrset, signatures, now, key, rrsig)
  }

  /** Some key of the zone is named by its delegation signers; some key, maybe another, signed the keys. */
  ghost predicate Grounded(c: Primitives, zone: ZoneKeys, now: nat) {
    && (exists key, ds :: Anchors(c, zone.owner, zone.dsSet, zone.keySet, key, ds))
    && SignedBy(c, zone, zone.keySet, zone.keySignatures, now)
  }

  ghost predicate Connected(c: Primitives, zone: ZoneKeys, links: seq<ZoneKeys>, target: Target, now: nat)
    decreases |links|
  {
    if links == [] then SignedBy(c, zone, target.rrset, target.signatures, now)
    else
      && Grounded(c, links[0], now) && SignedBy(c, zone, links[0].dsSet, links[0].dsSignatures, now)
      && Connected(c, links[0], links[1..], target, now)
  }

  /** Delegation signers of kinds the digest knows, for an owner that can be written. */
  ghost predicate Digestible(zone: ZoneKeys) {
    && EncodeName(zone.owner).Ok? && DsRecords(zone.dsSet).Ok?
    && forall ds :: ds in DsRecords(zone.dsSet).value ==> ds.digestType in {1, 2, 4}
  }

  lemma {:induction false} NamedIff(c: Primitives, owner: Name, key: DnskeyRecord, signers: seq<DsRecord>)
    requires EncodeName(owner).Ok? && forall ds :: ds in signers ==> ds.digestType in {1, 2, 4}
    ensures NamedByAny(c, owner, key, signers) ==
            Ok(exists ds :: ds in signers && VerifyDs(c, owner, key, ds) == Ok(true))
  {
    if signers != [] {
      assert signers[0] in signers;
      assert VerifyDs(c, owner, key, signers[0]).Ok?;
      hide VerifyDs;
      NamedIff(c, owner, key, signers[1..]);
      assert signers == [signers[0]] + signers[1..];
    }
  }

  lemma {:induction false} AnyNamedIff(c: Primitives, owner: Name, keys: seq<DnskeyRecord>, signers: seq<DsRecord>)
    requires EncodeName(owner).Ok? && forall ds :: ds in signers ==> ds.digestType in {1, 2, 4}
    ensures AnyNamed(c, owner, keys, signers) == Ok(Secure) <==>
      exists key, ds :: key in keys && ds in signers && VerifyDs(c, owner, key, ds) == Ok(true)
  {
    hide VerifyDs;
    if keys != [] {
      NamedIff(c, owner, keys[0], signers);
      AnyNamedIff(c, owner, keys[1..], signers);
      assert keys == [keys[0]] + keys[1..];
    }
  }

  /** A secure delegation has a named key; if every digest is of a known kind, a named key is all it takes. */
  lemma DelegationHasAnchor(c: Primitives, zone: ZoneKeys)
    ensures DelegationStatus(c, zone.owner, zone.dsSet, zone.keySet) == Ok(Secure) ==>
      exists key, ds :: Anchors(c, zone.owner, zone.dsSet, zone.keySet, key, ds)
    ensures Digestible(zone) && (exists key, ds :: Anchors(c, zone.owner, zone.dsSet, zone.keySet, key, ds)) ==>
      DelegationStatus(c, zone.owner, zone.dsSet, zone.keySet) == Ok(Secure)
  {
    hide VerifyDs, DsRecords, Dnskeys, Names, HasKey, HasSigner;
    forall key ensures HasKey(zone.keySet, key) <==> Dnskeys(zone.keySet).Ok? && key in Dnskeys(zone.keySet).value {
      HasKeyIff(zone.keySet, key);
    }
    forall ds ensures HasSigner(zone.dsSet, ds) <==> DsRecords(zone.dsSet).Ok? && ds in DsRecords(zone.dsSet).value {
      HasSignerIff(zone.dsSet, ds);
    }
    if DsRecords(zone.dsSet).Ok? && Dnskeys(zone.keySet).Ok? {
      var signers, keys := DsRecords(zone.dsSet).value, Dnskeys(zone.keySet).value;
      if AnyNamed(c, zone.owner, keys, signers) == Ok(Secure) {
        SecureHasAnchor(c, zone.owner, keys, signers);
        var key, ds :| key in keys && ds in signers && VerifyDs(c, zone.owner, key, ds) == Ok(true);
        VerifyDsIff(c, zone.owner, key, ds);
        assert Anchors(c, zone.owner, zone.dsSet, zone.keySet, key, ds);
      }
      if Digestible(zone) {
        AnyNamedIff(c, zone.owner, keys, signers);
        if key, ds :| Anchors(c, zone.owner, zone.dsSet, zone.keySet, key, ds) {
          VerifyDsIff(c, zone.owner, key, ds);
        }
      }
    }
  }

  /** A delegation is insecure exactly if it has no signer; otherwise it is secure or bogus, or an error. */
  lemma InsecureIffNoSigner(c: Primitives, owner: Name, dsSet: RRset, keySet: RRset)
    ensures DelegationStatus(c, owner, dsSet, keySet) == Ok(InsecureDelegation) <==>
      forall r :: r in dsSet ==> r.recordType != Ds
    ensures (exists r :: r in dsSet && r.recordType == Ds) && DelegationStatus(c, owner, dsSet, keySet).Ok? ==>
      DelegationStatus(c, owner, dsSet, keySet).value in {Secure, Bogus}
  {
    hide ParseDs, VerifyDs, Dnskeys;
    ParseKeptIff(dsSet, IsDs, ParseDs);
    hide ParseKept;
    if DsRecords(dsSet).Ok? {
      if r :| r in dsSet && r.recordType == Ds {
        assert ParseDs(r).Ok? && ParseDs(r).value in DsRecords(dsSet).value;
      }
      if DsRecords(dsSet).value != [] {
        assert DsRecords(dsSet).value[0] in DsRecords(dsSet).value;
        if Dnskeys(keySet).Ok? { NamedOrBogus(c, owner, Dnskeys(keySet).value, DsRecords(dsSet).value); }
      }
    }
  }

  lemma {:induction false} NamedOrBogus(c: Primitives, owner: Name, keys: seq<DnskeyRecord>, signers: seq<DsRecord>)
    ensures AnyNamed(c, owner, keys, signers).Ok? ==> AnyNamed(c, owner, keys, signers).value in {Secure, Bogus}
  {
    hide NamedByAny;
    if keys != [] { NamedOrBogus(c, owner, keys[1..], signers); }
  }

  lemma {:induction false} ChainConnects(c: Primitives, zone: ZoneKeys, links: seq<ZoneKeys>, target: Target, now: nat)
    ensures ChainFrom(c, zone, links, target, now) == Ok(Secure) ==> Connected(c, zone, links, target, now)
    ensures Connected(c, zone, links, target, now) && (forall z :: z in links ==> Digestible(z)) ==>
      ChainFrom(c, zone, links, target, now) == Ok(Secure)
    decreases |links|
  {
    hide DelegationStatus, SignatureStatus, Signs, Anchors, Digestible;
    if links == [] {
      SecureIffSigned(c, zone.owner, zone.keySet, target.rrset, target.signatures, now);
    } else {
      var link := links[0];
      assert link in links;
      DelegationHasAnchor(c, link);
      SecureIffSigned(c, zone.owner, zone.keySet, link.dsSet, link.dsSignatures, now);
      SecureIffSigned(c, link.owner, link.keySet, link.keySet, link.keySignatures, now);
      ChainConnects(c, link, links[1..], target, now);
    }
  }

  /**
   A secure verdict means a connected chain: in every zone a key named by the
   delegation signers and a key, maybe another, that signed the key set; in
   every parent a key that signed the child's delegation signers; in the last
   zone a key that signed the target. With known digests the chain is all it
   takes.
   */
  lemma SecureIffConnected(c: Primitives, first: ZoneKeys, links: seq<ZoneKeys>, target: Target, now: nat)
    ensures ChainStatus(c, first, links, target, now) == Ok(Secure) ==>
      Grounded(c, first, now) && Connected(c, first, links, target, now)
    ensures Digestible(first) && (forall z :: z in links ==> Digestible(z)) ==>
      (ChainStatus(c, first, links, target, now) == Ok(Secure) <==>
       Grounded(c, first, now) && Connected(c, first, links, target, now))
  {
    hide DelegationStatus, SignatureStatus, Signs, Anchors, Digestible, ChainFrom, Connected;
    DelegationHasAnchor(c, first);
    SecureIffSigned(c, first.owner, first.keySet, first.keySet, first.keySignatures, now);
    ChainConnects(c, first, links, target, now);
  }

  /** A key named by a true digest is the key the digest was made of, unless the digest collides on just these two. */
  lemma AnchorIsGenuine(c: Primitives, owner: Name, key: DnskeyRecord, ds: DsRecord, genuine: Bytes)
    requires Names(c, owner, ds, key)
    requires ds.digest == c.digest(ds.digestType, WriteName(owner) + genuine)
    requires var wire := WriteName(owner);
      c.digest(ds.digestType, wire + key.rdata) == c.digest(ds.digestType, wire + genuine) ==>
      wire + key.rdata == wire + genuine
    ensures key.rdata == genuine
  {
    var wire := WriteName(owner);
    assert (wire + key.rdata)[|wire|..] == key.rdata && (wire + genuine)[|wire|..] == genuine;
  }
}
