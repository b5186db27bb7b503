/**
 The octets an RRSIG signs: the records of a set in canonical form and
 canonical order (section 6.3 of RFC 4034), whatever order they came in.
 */
module SignedData {
  import opened Bytes
  import opened Order
  import opened DnsName
  import opened DnsWire
  import opened Denial
  import opened NameLayout

  /** The parts of a signature record that decide what is signed. */
  datatype Rrsig = Rrsig(typeCovered: RecordType, labels: byte, originalTtl: u32, inception: nat, expiration: nat,
                         signedRdata: Bytes)

  /** Canonical SVCB data, whose parameters are not looked into here. */
  type SvcbForm = Bytes -> Option<Bytes>

  // -------------------------------------------------------------- one record

  function NameData(rdata: Bytes, at: nat): Result<(Bytes, nat), DnssecError> {
    match ParseName(rdata, at)
    case Err(_) => Err(InvalidRrset)
    case Ok((name, end)) =>
      match EncodeName(name)
      case Err(_) => Err(NameEncoding)
      case Ok(wire) => Ok((wire, end))
  }

  function CanonicalRdata(svcb: SvcbForm, r: ResourceRecord): Result<Bytes, DnssecError> {
    match r.recordType
    case Ns | Cname =>
      (match NameData(r.rdata, 0)
       case Err(e) => Err(e)
       case Ok((wire, end)) => if end != |r.rdata| then Err(InvalidRrset) else Ok(wire))
    case Soa =>
      (match NameData(r.rdata, 0)
       case Err(e) => Err(e)
       case Ok((primary, cursor)) =>
         match NameData(r.rdata, cursor)
         case Err(e) => Err(e)
         case Ok((mailbox, end)) =>
           if end + 20 != |r.rdata| then Err(InvalidRrset) else Ok(primary + mailbox + r.rdata[end..]))
    case Srv =>
      if |r.rdata| < 6 then Err(InvalidRrset)
      else
        (match NameData(r.rdata, 6)
         case Err(e) => Err(e)
         case Ok((target, end)) => if end != |r.rdata| then Err(InvalidRrset) else Ok(r.rdata[..6] + target))
    case Nsec =>
      (match ParseNsec(r)
       case Err(e) => Err(e)
       case Ok(nsec) =>
         match EncodeName(nsec.next)
         case Err(_) => Err(NameEncoding)
         case Ok(wire) => Ok(wire + nsec.types))
    case Nsec3 =>
      (match ParseNsec3(r)
       case Err(e) => Err(e)
       case Ok(_) => Ok(r.rdata))
    case Svcb | Https =>
      (match svcb(r.rdata)
       case None => Err(InvalidRrset)
       case Some(form) => Ok(form))
    case Rrsig => Err(UnsupportedCanonicalRdata)
    case _ => Ok(r.rdata)
  }

  function EncodeLabels(labels: Name): Result<Bytes, DnssecError> {
    if labels == [] then Ok([0])
    else if |labels[0]| > MAX_DNS_LABEL_LEN then Err(NameEncoding)
    else
      match EncodeLabels(labels[1..])
      case Err(e) => Err(e)
      case Ok(rest) => Ok([|labels[0]|] + Lowercase(labels[0]) + rest)
  }

  /** The owner as signed: the name itself, or a wildcard over as many labels as the signature counts. */
  function CanonicalOwner(owner: Name, labels: nat): Result<Bytes, DnssecError> {
    if labels > |owner| then Err(InvalidRrset)
    else if labels < |owner| then EncodeLabels([[STAR]] + owner[|owner| - labels..])
    else EncodeLabels(owner)
  }

  // ----------------------------------------------------------------- the set

  /** Canonical data of every record, each checked against the type, class and owner of the first. */
  function CanonicalSet(svcb: SvcbForm, rrset: seq<ResourceRecord>, sig: Rrsig, class_: u16, owner: Bytes)
    : Result<seq<Bytes>, DnssecError>
    decreases |rrset|
  {
    if rrset == [] then Ok([])
    else if rrset[0].recordType != sig.typeCovered || rrset[0].class_ != class_ then Err(InvalidRrset)
    else
      match CanonicalOwner(rrset[0].name, sig.labels as int)
      case Err(e) => Err(e)
      case Ok(own) =>
        if own != owner then Err(InvalidRrset)
        else
          match CanonicalRdata(svcb, rrset[0])
          case Err(e) => Err(e)
          case Ok(rdata) =>
            if |rdata| > 0xffff then Err(InvalidRrset)
            else
              match CanonicalSet(svcb, rrset[1..], sig, class_, owner)
              case Err(e) => Err(e)
              case Ok(rest) => Ok([rdata] + rest)
  }

  function Wire(sig: Rrsig, class_: u16, owner: Bytes, rdata: Bytes): Bytes {
    owner + BigEndian16(Code(sig.typeCovered)) + BigEndian16(class_) + BigEndian32(sig.originalTtl) +
    BigEndian16(|rdata| % 0x1_0000) + rdata
  }

  function Wires(sig: Rrsig, class_: u16, owner: Bytes, all: seq<Bytes>): Bytes {
    if all == [] then [] else Wire(sig, class_, owner, all[0]) + Wires(sig, class_, owner, all[1..])
  }

  predicate NotAfter(a: Bytes, b: Bytes) { CompareBytes(a, b) != Greater }

  /** `x` put in its place among sorted strings, after its equals. */
  function Insert(x: Bytes, sorted: seq<Bytes>): seq<Bytes> {
    if sorted == [] then [x]
    else if NotAfter(sorted[0], x) then [sorted[0]] + Insert(x, sorted[1..])
    else [x] + sorted
  }

  function Sort(all: seq<Bytes>): seq<Bytes> {
    if all == [] then [] else Insert(all[|all| - 1], Sort(all[..|all| - 1]))
  }

  predicate HasTwins(sorted: seq<Bytes>) {
    exists i :: 0 <= i < |sorted| - 1 && sorted[i] == sorted[i + 1]
  }

  function Assemble(svcb: SvcbForm, rrset: seq<ResourceRecord>, sig: Rrsig, now: nat): Result<Bytes, DnssecError> {
    if now < sig.inception || now > sig.expiration then Err(SignatureOutsideValidity)
    else if rrset == [] || rrset[0].recordType != sig.typeCovered then Err(InvalidRrset)
    else
      match CanonicalOwner(rrset[0].name, sig.labels as int)
      case Err(e) => Err(e)
      case Ok(owner) =>
        match CanonicalSet(svcb, rrset, sig, rrset[0].class_, owner)
        case Err(e) => Err(e)
        case Ok(all) =>
          if HasTwins(Sort(all)) then Err(InvalidRrset)
          else Ok(sig.signedRdata + Wires(sig, rrset[0].class_, owner, Sort(all)))
  }

  /** Sorting, the search for duplicates, and the output, record after record. */
  method SignedOctets(svcb: SvcbForm, rrset: seq<ResourceRecord>, sig: Rrsig, now: nat)
    returns (r: Result<Bytes, DnssecError>)
    ensures r == Assemble(svcb, rrset, sig, now)
  {
    hide CanonicalOwner, CanonicalSet, Wire, Sort;
    if now < sig.inception || now > sig.expiration {
      return Err(SignatureOutsideValidity);
    }
    if rrset == [] || rrset[0].recordType != sig.typeCovered {
      return Err(InvalidRrset);
    }
    var owner := CanonicalOwner(rrset[0].name, sig.labels as int);
    if owner.Err? {
      return Err(owner.error);
    }
    var class_ := rrset[0].class_;
    var all := CanonicalSet(svcb, rrset, sig, class_, owner.value);
    if all.Err? {
      return Err(all.error);
    }
    var sorted := Sort(all.value);
    var pair := 1;
    while pair < |sorted|
      invariant forall i :: 0 <= i < pair - 1 && i < |sorted| - 1 ==> sorted[i] != sorted[i + 1]
    {
      if sorted[pair - 1] == sorted[pair] {
        return Err(InvalidRrset);
      }
      pair := pair + 1;
    }
    var out := sig.signedRdata;
    assert sorted[0..] == sorted;
    for k := 0 to |sorted|
      invariant sig.signedRdata + Wires(sig, class_, owner.value, sorted) ==
                out + Wires(sig, class_, owner.value, sorted[k..])
    {
      assert sorted[k..][0] == sorted[k] && sorted[k..][1..] == sorted[k + 1..];
      out := out + Wire(sig, class_, owner.value, sorted[k]);
    }
    assert sorted[|sorted|..] == [] && out + [] == out;
    r := Ok(out);
  }

  // ------------------------------------------------------------------ sorting

  ghost predicate Sorted(all: seq<Bytes>) {
    forall i, j :: 0 <= i < j < |all| ==> NotAfter(all[i], all[j])
  }

  ghost predicate StrictlyRising(all: seq<Bytes>) {
    forall i, j :: 0 <= i < j < |all| ==> CompareBytes(all[i], all[j]) == Less
  }

  lemma NotAfterTransitive(a: Bytes, b: Bytes, c: Bytes)
    requires NotAfter(a, b) && NotAfter(b, c)
    ensures NotAfter(a, c)
  {
    CompareBytesFlip(a, b);
    CompareBytesFlip(b, c);
    if a != b && b != c { CompareBytesTransitive(a, b, c); }
  }

  lemma {:induction false} InsertPermutes(x: Bytes, sorted: seq<Bytes>)
    ensures multiset(Insert(x, sorted)) == multiset(sorted) + multiset{x}
  {
    hide NotAfter;
    if sorted != [] {
      assert sorted == [sorted[0]] + sorted[1..];
      if NotAfter(sorted[0], x) { InsertPermutes(x, sorted[1..]); }
    }
  }

  lemma {:induction false} InsertSorts(x: Bytes, sorted: seq<Bytes>)
    requires Sorted(sorted)
    ensures Sorted(Insert(x, sorted))
  {
    hide NotAfter;
    if sorted != [] {
      if NotAfter(sorted[0], x) {
        InsertSorts(x, sorted[1..]);
        InsertPermutes(x, sorted[1..]);
        var rest := Insert(x, sorted[1..]);
        forall j | 0 <= j < |rest| ensures NotAfter(sorted[0], rest[j]) {
          assert rest[j] in multiset(rest);
          if rest[j] != x { assert rest[j] in sorted[1..]; }
        }
      } else {
        forall j | 0 <= j < |sorted| ensures NotAfter(x, sorted[j]) {
          NotAfterTotal(sorted[0], x);
          if j > 0 { NotAfterTransitive(x, sorted[0], sorted[j]); }
        }
      }
    }
  }

  lemma NotAfterTotal(a: Bytes, b: Bytes)
    ensures NotAfter(a, b) || NotAfter(b, a)
  {
    CompareBytesFlip(a, b);
  }

  /** Sorting loses nothing, adds nothing and leaves everything in order. */
  lemma {:induction false} SortSorts(all: seq<Bytes>)
    ensures Sorted(Sort(all)) && multiset(Sort(all)) == multiset(all)
  {
    if all != [] {
      SortSorts(all[..|all| - 1]);
      InsertSorts(all[|all| - 1], Sort(all[..|all| - 1]));
      InsertPermutes(all[|all| - 1], Sort(all[..|all| - 1]));
      assert all == all[..|all| - 1] + [all[|all| - 1]];
    }
  }

  lemma RisingIffNoTwins(sorted: seq<Bytes>)
    requires Sorted(sorted)
    ensures StrictlyRising(sorted) <==> !HasTwins(sorted)
  {
    if !HasTwins(sorted) {
      forall i, j | 0 <= i < j < |sorted| ensures CompareBytes(sorted[i], sorted[j]) == Less {
        CompareBytesFlip(sorted[i], sorted[j]);
        CompareBytesFlip(sorted[i], sorted[i + 1]);
        assert NotAfter(sorted[i], sorted[i + 1]) && NotAfter(sorted[i], sorted[j]);
        assert i + 1 == j || NotAfter(sorted[i + 1], sorted[j]);
      }
    } else {
      var i :| 0 <= i < |sorted| - 1 && sorted[i] == sorted[i + 1];
      CompareBytesFlip(sorted[i], sorted[i + 1]);
    }
  }

  /** Two sorted lists of the same strings are the same list. */
  lemma {:induction false} SortedUnique(a: seq<Bytes>, b: seq<Bytes>)
    requires Sorted(a) && Sorted(b) && multiset(a) == multiset(b)
    ensures a == b
  {
    assert |a| == |multiset(a)| == |multiset(b)| == |b|;
    if a != [] {
      assert a == [a[0]] + a[1..] && b == [b[0]] + b[1..];
      assert a[0] in multiset(b) && b[0] in multiset(a);
      CompareBytesFlip(a[0], b[0]);
      FirstIsLeast(a, b[0]);
      FirstIsLeast(b, a[0]);
      TailsPermute(a, b);
      SortedUnique(a[1..], b[1..]);
    }
  }

  lemma TailsPermute<T>(a: seq<T>, b: seq<T>)
    requires a != [] && b != [] && a[0] == b[0] && multiset(a) == multiset(b)
    ensures multiset(a[1..]) == multiset(b[1..])
  {
    assert a == [a[0]] + a[1..] && b == [b[0]] + b[1..];
    assert multiset(a[1..]) == multiset(a) - multiset{a[0]};
    assert multiset(b[1..]) == multiset(b) - multiset{b[0]};
  }

  lemma FirstIsLeast(sorted: seq<Bytes>, x: Bytes)
    requires Sorted(sorted) && x in sorted
    ensures NotAfter(sorted[0], x)
  {
    CompareBytesFlip(x, x);
  }

  // ------------------------------------------------------ order does not matter

  /** A record fits the set: right type, class and owner, and data of canonical form and length. */
  ghost predicate Fits(svcb: SvcbForm, r: ResourceRecord, sig: Rrsig, class_: u16, owner: Bytes) {
    && r.recordType == sig.typeCovered && r.class_ == class_
    && CanonicalOwner(r.name, sig.labels as int) == Ok(owner)
    && CanonicalRdata(svcb, r).Ok? && |CanonicalRdata(svcb, r).value| <= 0xffff
  }

  /** Canonical data of a record that has one. */
  ghost function DataOf(svcb: SvcbForm, r: ResourceRecord): Bytes {
    if CanonicalRdata(svcb, r).Ok? then CanonicalRdata(svcb, r).value else []
  }

  ghost function AllData(svcb: SvcbForm, rrset: seq<ResourceRecord>): seq<Bytes> {
    if rrset == [] then [] else [DataOf(svcb, rrset[0])] + AllData(svcb, rrset[1..])
  }

  lemma {:induction false} CanonicalSetIsAllData(svcb: SvcbForm, rrset: seq<ResourceRecord>, sig: Rrsig, class_: u16,
                                                 owner: Bytes)
    ensures var r := CanonicalSet(svcb, rrset, sig, class_, owner);
      && (r.Ok? <==> forall x :: x in rrset ==> Fits(svcb, x, sig, class_, owner))
      && (r.Ok? ==> r.value == AllData(svcb, rrset))
    decreases |rrset|
  {
    hide CanonicalRdata, CanonicalOwner;
    if rrset != [] {
      CanonicalSetIsAllData(svcb, rrset[1..], sig, class_, owner);
      assert rrset == [rrset[0]] + rrset[1..];
      assert rrset[0] in rrset;
    }
  }

  lemma AllDataCons(svcb: SvcbForm, r: ResourceRecord, rest: seq<ResourceRecord>)
    ensures AllData(svcb, [r] + rest) == [DataOf(svcb, r)] + AllData(svcb, rest)
  {
    assert ([r] + rest)[1..] == rest;
  }

  lemma AllDataNone(svcb: SvcbForm)
    ensures AllData(svcb, []) == []
  {
  }

  lemma {:induction false} AllDataConcat(svcb: SvcbForm, a: seq<ResourceRecord>, b: seq<ResourceRecord>)
    ensures AllData(svcb, a + b) == AllData(svcb, a) + AllData(svcb, b)
  {
    hide DataOf, AllData;
    if a == [] {
      assert a + b == b;
      assert AllData(svcb, a) == [] by { AllDataNone(svcb); }
    } else {
      var first, rest := a[0], a[1..];
      assert a == [first] + rest && a + b == [first] + (rest + b);
      AllDataConcat(svcb, rest, b);
      AllDataCons(svcb, first, rest);
      AllDataCons(svcb, first, rest + b);
    }
  }

  lemma AllDataAt(svcb: SvcbForm, rrset: seq<ResourceRecord>, i: nat)
    requires i < |rrset|
    ensures multiset(AllData(svcb, rrset)) ==
            multiset(AllData(svcb, rrset[..i] + rrset[i + 1..])) + multiset{DataOf(svcb, rrset[i])}
  {
    hide DataOf;
    var front, one, back := rrset[..i], [rrset[i]], rrset[i + 1..];
    assert one[1..] == [];
    assert AllData(svcb, one) == [DataOf(svcb, rrset[i])];
    hide AllData;
    SplitAt(rrset, i);
    AllDataConcat(svcb, front, one + back);
    AllDataConcat(svcb, one, back);
    AllDataConcat(svcb, front, back);
    OneBetween(AllData(svcb, front), DataOf(svcb, rrset[i]), AllData(svcb, back));
  }

  lemma SplitAt<T>(all: seq<T>, i: nat)
    requires i < |all|
    ensures all == all[..i] + ([all[i]] + all[i + 1..])
  {
  }

  lemma OneBetween<T>(a: seq<T>, x: T, b: seq<T>)
    ensures multiset(a + ([x] + b)) == multiset(a + b) + multiset{x}
  {
  }

  lemma WithoutOne<T>(b: seq<T>, i: nat)
    requires i < |b|
    ensures multiset([b[i]] + (b[..i] + b[i + 1..])) == multiset(b)
  {
    assert b == b[..i] + [b[i]] + b[i + 1..];
  }

  /** The data of a permuted set are the permuted data. */
  lemma {:induction false} AllDataPermutes(svcb: SvcbForm, a: seq<ResourceRecord>, b: seq<ResourceRecord>)
    requires multiset(a) == multiset(b)
    ensures multiset(AllData(svcb, a)) == multiset(AllData(svcb, b))
    decreases |a|
  {
    hide DataOf;
    assert |a| == |multiset(a)| == |multiset(b)| == |b|;
    if a != [] {
      assert a == [a[0]] + a[1..] && a[0] in multiset(b);
      var i :| 0 <= i < |b| && b[i] == a[0];
      var less := b[..i] + b[i + 1..];
      WithoutOne(b, i);
      TailsPermute(a, [b[i]] + less);
      assert ([b[i]] + less)[1..] == less;
      AllDataAt(svcb, b, i);
      AllDataPermutes(svcb, a[1..], less);
    }
  }

  ghost predicate IsRisingData(svcb: SvcbForm, rrset: seq<ResourceRecord>, sorted: seq<Bytes>) {
    StrictlyRising(sorted) && multiset(sorted) == multiset(AllData(svcb, rrset))
  }

  /** What is signed: the signature's own data, then every canonical record exactly once, in rising order of data. */
  lemma SignedDataShape(svcb: SvcbForm, rrset: seq<ResourceRecord>, sig: Rrsig, now: nat)
    requires Assemble(svcb, rrset, sig, now).Ok?
    ensures rrset != [] && CanonicalOwner(rrset[0].name, sig.labels as int).Ok?
    ensures var owner := CanonicalOwner(rrset[0].name, sig.labels as int).value;
      exists sorted :: IsRisingData(svcb, rrset, sorted) &&
        Assemble(svcb, rrset, sig, now) == Ok(sig.signedRdata + Wires(sig, rrset[0].class_, owner, sorted))
  {
    hide CanonicalRdata, CanonicalOwner, Wires, Sort, CanonicalSet;
    var owner := CanonicalOwner(rrset[0].name, sig.labels as int).value;
    CanonicalSetIsAllData(svcb, rrset, sig, rrset[0].class_, owner);
    SortSorts(AllData(svcb, rrset));
    RisingIffNoTwins(Sort(AllData(svcb, rrset)));
  }

  /** Exactly the sets of one type, class and owner, with distinct well-formed data, can be signed. */
  lemma AssembleSucceeds(svcb: SvcbForm, rrset: seq<ResourceRecord>, sig: Rrsig, now: nat)
    ensures Assemble(svcb, rrset, sig, now).Ok? <==>
      && sig.inception <= now <= sig.expiration && rrset != []
      && CanonicalOwner(rrset[0].name, sig.labels as int).Ok?
      && (forall x :: x in rrset ==>
            Fits(svcb, x, sig, rrset[0].class_, CanonicalOwner(rrset[0].name, sig.labels as int).value))
      && !HasTwins(Sort(AllData(svcb, rrset)))
  {
    hide CanonicalRdata, CanonicalOwner, Wires, Sort, CanonicalSet, HasTwins;
    if rrset != [] && CanonicalOwner(rrset[0].name, sig.labels as int).Ok? {
      var owner := CanonicalOwner(rrset[0].name, sig.labels as int).value;
      CanonicalSetIsAllData(svcb, rrset, sig, rrset[0].class_, owner);
      assert rrset[0] in rrset;
    }
  }

  /**
   What a signature is made over: its own data, then the wire form of every
   record of the set once, in strictly rising order of canonical data.
   */
  ghost predicate IsAssembled(svcb: SvcbForm, rrset: seq<ResourceRecord>, sig: Rrsig, octets: Bytes) {
    && rrset != [] && CanonicalOwner(rrset[0].name, sig.labels as int).Ok?
    && var owner := CanonicalOwner(rrset[0].name, sig.labels as int).value;
       && (forall x :: x in rrset ==> Fits(svcb, x, sig, rrset[0].class_, owner))
       && exists sorted :: IsRisingData(svcb, rrset, sorted) &&
            octets == sig.signedRdata + Wires(sig, rrset[0].class_, owner, sorted)
  }

  /** Data that can be put in strictly rising order are put in that order by sorting. */
  lemma RisingDataIsSorted(svcb: SvcbForm, rrset: seq<ResourceRecord>, sorted: seq<Bytes>)
    requires IsRisingData(svcb, rrset, sorted)
    ensures Sort(AllData(svcb, rrset)) == sorted && !HasTwins(sorted)
  {
    hide CompareBytes, Sort, HasTwins;
    SortSorts(AllData(svcb, rrset));
    SortedUnique(Sort(AllData(svcb, rrset)), sorted);
    RisingIffNoTwins(sorted);
  }

  lemma AssembledIff(svcb: SvcbForm, rrset: seq<ResourceRecord>, sig: Rrsig, now: nat, octets: Bytes)
    ensures Assemble(svcb, rrset, sig, now) == Ok(octets) <==>
      sig.inception <= now <= sig.expiration && IsAssembled(svcb, rrset, sig, octets)
  {
    hide CanonicalRdata, CanonicalOwner, Wires, Sort, CanonicalSet, HasTwins, StrictlyRising, Fits;
    AssembleSucceeds(svcb, rrset, sig, now);
    if Assemble(svcb, rrset, sig, now).Ok? { SignedDataShape(svcb, rrset, sig, now); }
    if IsAssembled(svcb, rrset, sig, octets) {
      var owner := CanonicalOwner(rrset[0].name, sig.labels as int).value;
      var sorted :| IsRisingData(svcb, rrset, sorted) &&
                    octets == sig.signedRdata + Wires(sig, rrset[0].class_, owner, sorted);
      RisingDataIsSorted(svcb, rrset, sorted);
      CanonicalSetIsAllData(svcb, rrset, sig, rrset[0].class_, owner);
    }
  }

  /** All orderings of a record set succeed together, and then give the same octets. */
  lemma OrderDoesNotMatter(svcb: SvcbForm, a: seq<ResourceRecord>, b: seq<ResourceRecord>, sig: Rrsig, now: nat)
    requires multiset(a) == multiset(b)
    ensures Assemble(svcb, a, sig, now).Ok? <==> Assemble(svcb, b, sig, now).Ok?
    ensures Assemble(svcb, a, sig, now).Ok? ==> Assemble(svcb, a, sig, now) == Assemble(svcb, b, sig, now)
  {
    hide CanonicalRdata, CanonicalOwner, Wires, Sort, CanonicalSet, HasTwins;
    AssembleSucceeds(svcb, a, sig, now);
    AssembleSucceeds(svcb, b, sig, now);
    AllDataPermutes(svcb, a, b);
    SortSorts(AllData(svcb, a));
    SortSorts(AllData(svcb, b));
    SortedUnique(Sort(AllData(svcb, a)), Sort(AllData(svcb, b)));
    assert forall x :: x in a <==> x in multiset(a);
    assert forall x :: x in b <==> x in multiset(b);
    assert |a| == |multiset(a)| == |multiset(b)| == |b|;
    if a != [] {
      assert a[0] in b && b[0] in a;
      if Assemble(svcb, a, sig, now).Ok? || Assemble(svcb, b, sig, now).Ok? {
        CanonicalSetIsAllData(svcb, a, sig, a[0].class_, CanonicalOwner(a[0].name, sig.labels as int).value);
        CanonicalSetIsAllData(svcb, b, sig, b[0].class_, CanonicalOwner(b[0].name, sig.labels as int).value);
      }
    }
  }

  // ------------------------------------------------ what is signed, octet by octet

  /** A name at `at`, read up to `end`, and the same name in small letters without pointers. */
  ghost predicate NameFor(rdata: Bytes, at: nat, end: nat, wire: Bytes) {
    exists name :: ParseName(rdata, at) == Ok((name, end)) && wire == Laid(name) + [0]
  }

  /**
   The canonical form of record data (section 6.2 of RFC 4034): the names in
   NS, CNAME, SOA, SRV and NSEC data are written in full and in small letters,
   everything else stays as it is; signatures have no such form.
   */
  ghost predicate IsCanonicalData(svcb: SvcbForm, r: ResourceRecord, data: Bytes) {
    var d := r.rdata;
    match r.recordType
    case Ns | Cname => NameFor(d, 0, |d|, data)
    case Soa =>
      exists middle: nat, end: nat, primary, mailbox ::
        && NameFor(d, 0, middle, primary) && NameFor(d, middle, end, mailbox)
        && end + 20 == |d| && data == primary + mailbox + d[end..]
    case Srv => |d| >= 6 && exists target :: NameFor(d, 6, |d|, target) && data == d[..6] + target
    case Nsec =>
      exists end: nat, next ::
        NameFor(d, 0, end, next) && end < |d| && ValidBitMaps(d[end..], -1) && data == next + d[end..]
    case Nsec3 => data == d && exists n :: ParseNsec3(r) == Ok(n)
    case Svcb | Https => svcb(d) == Some(data)
    case Rrsig => false
    case _ => data == d
  }

  lemma NameDataIff(rdata: Bytes, at: nat, end: nat, wire: Bytes)
    ensures NameData(rdata, at) == Ok((wire, end)) <==> NameFor(rdata, at, end, wire)
  {
    hide ParseName, WriteName, Laid;
    if ParseName(rdata, at).Ok? {
      var name := ParseName(rdata, at).value.0;
      ParsedNameIsValid(rdata, at);
      ValidNameEncodes(name);
      WrittenIsLaid(name);
    }
  }

  lemma ValidNameEncodes(name: Name)
    requires ValidName(name)
    ensures EncodeName(name) == Ok(WriteName(name))
  {
    hide WriteName;
  }

  lemma CanonicalDataIff(svcb: SvcbForm, r: ResourceRecord, data: Bytes)
    ensures CanonicalRdata(svcb, r) == Ok(data) <==> IsCanonicalData(svcb, r, data)
  {
    hide NameData, NameFor, ParseNsec3, ValidBitMaps;
    var d := r.rdata;
    forall at: nat, end: nat, wire ensures NameData(d, at) == Ok((wire, end)) <==> NameFor(d, at, end, wire) {
      NameDataIff(d, at, end, wire);
    }
    if r.recordType == Soa {
      SoaDataIff(svcb, r, data);
    } else if r.recordType == Nsec {
      NsecDataIff(svcb, r, data);
    }
  }

  lemma SoaDataIff(svcb: SvcbForm, r: ResourceRecord, data: Bytes)
    requires r.recordType == Soa
    ensures CanonicalRdata(svcb, r) == Ok(data) <==> IsCanonicalData(svcb, r, data)
  {
    hide NameData, NameFor;
    var d := r.rdata;
    if CanonicalRdata(svcb, r) == Ok(data) {
      var (primary, middle) := NameData(d, 0).value;
      var (mailbox, end) := NameData(d, middle).value;
      NameDataIff(d, 0, middle, primary);
      NameDataIff(d, middle, end, mailbox);
    }
    if IsCanonicalData(svcb, r, data) {
      var middle: nat, end: nat, primary, mailbox :|
        NameFor(d, 0, middle, primary) && NameFor(d, middle, end, mailbox) && end + 20 == |d| &&
        data == primary + mailbox + d[end..];
      NameDataIff(d, 0, middle, primary);
      NameDataIff(d, middle, end, mailbox);
    }
  }

  lemma NsecDataIff(svcb: SvcbForm, r: ResourceRecord, data: Bytes)
    requires r.recordType == Nsec
    ensures CanonicalRdata(svcb, r) == Ok(data) <==> IsCanonicalData(svcb, r, data)
  {
    hide NameData, ParseName, WriteName, Laid, ValidBitMaps;
    var d := r.rdata;
    if ParseName(d, 0).Ok? {
      var (name, end) := ParseName(d, 0).value;
      ParsedNameIsValid(d, 0);
      ValidNameEncodes(name);
      WrittenIsLaid(name);
      assert NameFor(d, 0, end, Laid(name) + [0]);
    }
  }

  /** The labels in small letters, none too long, laid out with a zero behind them. */
  ghost predicate SmallWire(labels: Name, wire: Bytes) {
    && (forall part :: part in labels ==> |part| <= 63)
    && exists small: Name :: AreFolded(labels, small) && wire == Laid(small) + [0]
  }

  /** The owner as it is signed: in small letters, and where there are labels to spare, a star for them. */
  ghost predicate IsSignedOwner(name: Name, labels: nat, owner: Bytes) {
    labels <= |name| && SmallWire(if labels == |name| then name else [[42]] + name[|name| - labels..], owner)
  }

  ghost function Small(labels: Name): (small: Name)
    ensures AreFolded(labels, small)
  {
    if labels == [] then
      NothingFolded([]);
      []
    else
      var small := [Lowercase(labels[0])] + Small(labels[1..]);
      assert small[1..] == Small(labels[1..]) && labels == [labels[0]] + labels[1..];
      FoldedCons(labels[0], labels[1..], small);
      small
  }

  lemma {:induction false} SmallIsOne(labels: Name, small: Name)
    requires AreFolded(labels, small)
    ensures small == Small(labels)
  {
    hide AreFolded, IsFolded, Lowercase;
    if labels == [] {
      NothingFolded(small);
    } else {
      assert labels == [labels[0]] + labels[1..];
      FoldedCons(labels[0], labels[1..], small);
      SmallIsOne(labels[1..], small[1..]);
    }
  }

  lemma {:induction false} EncodeLabelsIs(labels: Name)
    ensures (exists part :: part in labels && |part| > 63) ==> EncodeLabels(labels) == Err(NameEncoding)
    ensures (forall part :: part in labels ==> |part| <= 63) ==>
      EncodeLabels(labels) == Ok(Laid(Small(labels)) + [0])
  {
    hide AreFolded, IsFolded;
    if labels == [] {
      assert Laid(Small(labels)) == [];
      assert Laid(Small(labels)) + [0] == [0];
    } else {
      var first, rest := labels[0], labels[1..];
      assert labels == [first] + rest && first in labels;
      EncodeLabelsIs(rest);
      if |first| <= 63 && forall part :: part in rest ==> |part| <= 63 {
        assert Small(labels) == [Lowercase(first)] + Small(rest);
        LaidCons(Lowercase(first), Small(rest));
        hide Lowercase, Laid, Small;
        assert [|first|] + Lowercase(first) + (Laid(Small(rest)) + [0]) ==
               [|first|] + Lowercase(first) + Laid(Small(rest)) + [0];
      }
    }
  }

  lemma SignedOwnerIff(name: Name, labels: nat, owner: Bytes)
    ensures CanonicalOwner(name, labels) == Ok(owner) <==> IsSignedOwner(name, labels, owner)
  {
    hide EncodeLabels, AreFolded, Laid, Small;
    if labels <= |name| {
      var kept := if labels == |name| then name else [[42]] + name[|name| - labels..];
      EncodeLabelsIs(kept);
      if SmallWire(kept, owner) {
        var small: Name :| AreFolded(kept, small) && owner == Laid(small) + [0];
        SmallIsOne(kept, small);
      }
    }
  }

  /** A record as it is signed: owner, type, class, original lifetime and length, high octets first, then the data. */
  ghost function SignedRecord(sig: Rrsig, class_: u16, owner: Bytes, rdata: Bytes): Bytes {
    var code, ttl := Code(sig.typeCovered), sig.originalTtl;
    owner +
    [code / 256, code % 256, class_ / 256, class_ % 256,
     ttl / 0x100_0000, ttl / 0x1_0000 % 256, ttl / 0x100 % 256, ttl % 256,
     |rdata| / 256 % 256, |rdata| % 256] +
    rdata
  }

  ghost function SignedRecords(sig: Rrsig, class_: u16, owner: Bytes, all: seq<Bytes>): Bytes {
    if all == [] then [] else SignedRecord(sig, class_, owner, all[0]) + SignedRecords(sig, class_, owner, all[1..])
  }

  lemma WireIs(sig: Rrsig, class_: u16, owner: Bytes, rdata: Bytes)
    ensures Wire(sig, class_, owner, rdata) == SignedRecord(sig, class_, owner, rdata)
  {
    hide Code, BigEndian32;
    var code, ttl := Code(sig.typeCovered), sig.originalTtl;
    FourOctets(ttl);
    LengthOctets(|rdata|);
    var (a, b, c, d) := (BigEndian16(code), BigEndian16(class_), BigEndian32(ttl), BigEndian16(|rdata| % 0x1_0000));
    assert a == [code / 256, code % 256] && b == [class_ / 256, class_ % 256];
    hide BigEndian16;
    Joined(owner, a, b, c, d, rdata);
  }

  lemma Joined(owner: Bytes, a: Bytes, b: Bytes, c: Bytes, d: Bytes, rdata: Bytes)
    requires |a| == |b| == |d| == 2 && |c| == 4
    ensures owner + a + b + c + d + rdata ==
            owner + [a[0], a[1], b[0], b[1], c[0], c[1], c[2], c[3], d[0], d[1]] + rdata
  {
    assert owner + a + b + c + d == owner + (a + b + c + d);
    assert a + b + c + d == [a[0], a[1], b[0], b[1], c[0], c[1], c[2], c[3], d[0], d[1]];
  }

  lemma LengthOctets(n: nat)
    ensures BigEndian16(n % 0x1_0000) == [n / 256 % 256, n % 256]
  {
    LowOctets(n);
  }

  lemma {:induction false} WiresAre(sig: Rrsig, class_: u16, owner: Bytes, all: seq<Bytes>)
    ensures Wires(sig, class_, owner, all) == SignedRecords(sig, class_, owner, all)
  {
    hide Wire, SignedRecord;
    if all != [] {
      WireIs(sig, class_, owner, all[0]);
      WiresAre(sig, class_, owner, all[1..]);
    }
  }

  /** Data of one record of a set: of its type and class, under its owner, in canonical form. */
  ghost predicate Joins(svcb: SvcbForm, r: ResourceRecord, sig: Rrsig, class_: u16, owner: Bytes, data: Bytes) {
    && r.recordType == sig.typeCovered && r.class_ == class_ && IsSignedOwner(r.name, sig.labels as int, owner)
    && IsCanonicalData(svcb, r, data) && |data| <= 65535
  }

  /**
   What a signature is made over: its own data, then every record of the set,
   all of one type, class and owner, exactly once, in rising order of their
   data, which are therefore all different.
   */
  ghost predicate IsSignedOver(svcb: SvcbForm, rrset: seq<ResourceRecord>, sig: Rrsig, octets: Bytes) {
    && rrset != []
    && exists owner, data, sorted ::
         && AllJoin(svcb, rrset, sig, owner, data) && StrictlyRising(sorted) && multiset(sorted) == multiset(data)
         && octets == sig.signedRdata + SignedRecords(sig, rrset[0].class_, owner, sorted)
  }

  ghost predicate AllJoin(svcb: SvcbForm, rrset: seq<ResourceRecord>, sig: Rrsig, owner: Bytes, data: seq<Bytes>) {
    |data| == |rrset| && forall i :: 0 <= i < |rrset| ==> Joins(svcb, rrset[i], sig, rrset[0].class_, owner, data[i])
  }

  lemma JoinsIff(svcb: SvcbForm, r: ResourceRecord, sig: Rrsig, class_: u16, owner: Bytes, data: Bytes)
    ensures Joins(svcb, r, sig, class_, owner, data) <==>
      Fits(svcb, r, sig, class_, owner) && DataOf(svcb, r) == data
  {
    hide IsSignedOwner, IsCanonicalData, CanonicalOwner, CanonicalRdata;
    SignedOwnerIff(r.name, sig.labels as int, owner);
    CanonicalDataIff(svcb, r, data);
    if CanonicalRdata(svcb, r).Ok? { CanonicalDataIff(svcb, r, CanonicalRdata(svcb, r).value); }
  }

  lemma {:induction false} AllDataIs(svcb: SvcbForm, rrset: seq<ResourceRecord>)
    ensures |AllData(svcb, rrset)| == |rrset|
    ensures forall i :: 0 <= i < |rrset| ==> AllData(svcb, rrset)[i] == DataOf(svcb, rrset[i])
  {
    hide DataOf;
    if rrset != [] { AllDataIs(svcb, rrset[1..]); }
  }

  lemma AllJoinIff(svcb: SvcbForm, rrset: seq<ResourceRecord>, sig: Rrsig, owner: Bytes, data: seq<Bytes>)
    requires rrset != []
    ensures AllJoin(svcb, rrset, sig, owner, data) <==>
      (forall x :: x in rrset ==> Fits(svcb, x, sig, rrset[0].class_, owner)) && data == AllData(svcb, rrset)
  {
    hide Joins, Fits, DataOf, AllData;
    AllDataIs(svcb, rrset);
    forall i, d | 0 <= i < |rrset|
      ensures Joins(svcb, rrset[i], sig, rrset[0].class_, owner, d) <==>
        Fits(svcb, rrset[i], sig, rrset[0].class_, owner) && DataOf(svcb, rrset[i]) == d
    {
      JoinsIff(svcb, rrset[i], sig, rrset[0].class_, owner, d);
    }
  }

  lemma AssembledIsSignedOver(svcb: SvcbForm, rrset: seq<ResourceRecord>, sig: Rrsig, octets: Bytes)
    ensures IsAssembled(svcb, rrset, sig, octets) <==> IsSignedOver(svcb, rrset, sig, octets)
  {
    hide CanonicalOwner, Fits, AllData, AllJoin, StrictlyRising, Wires, SignedRecords;
    if rrset != [] {
      var class_ := rrset[0].class_;
      if IsAssembled(svcb, rrset, sig, octets) {
        var owner := CanonicalOwner(rrset[0].name, sig.labels as int).value;
        var sorted :| IsRisingData(svcb, rrset, sorted) &&
                      octets == sig.signedRdata + Wires(sig, class_, owner, sorted);
        AllJoinIff(svcb, rrset, sig, owner, AllData(svcb, rrset));
        WiresAre(sig, class_, owner, sorted);
      }
      if IsSignedOver(svcb, rrset, sig, octets) {
        var owner, data, sorted :|
          AllJoin(svcb, rrset, sig, owner, data) && StrictlyRising(sorted) && multiset(sorted) == multiset(data) &&
          octets == sig.signedRdata + SignedRecords(sig, class_, owner, sorted);
        AllJoinIff(svcb, rrset, sig, owner, data);
        FitsOwner(svcb, rrset[0], sig, class_, owner);
        WiresAre(sig, class_, owner, sorted);
      }
    }
  }

  lemma FitsOwner(svcb: SvcbForm, r: ResourceRecord, sig: Rrsig, class_: u16, owner: Bytes)
    requires Fits(svcb, r, sig, class_, owner)
    ensures CanonicalOwner(r.name, sig.labels as int) == Ok(owner)
  {
  }

  /** Signing gives these octets exactly within the signature's period, and exactly if they are what it is made over. */
  lemma AssembleIff(svcb: SvcbForm, rrset: seq<ResourceRecord>, sig: Rrsig, now: nat, octets: Bytes)
    ensures Assemble(svcb, rrset, sig, now) == Ok(octets) <==>
      sig.inception <= now <= sig.expiration && IsSignedOver(svcb, rrset, sig, octets)
  {
    hide Assemble, IsAssembled, IsSignedOver;
    AssembledIff(svcb, rrset, sig, now, octets);
    AssembledIsSignedOver(svcb, rrset, sig, octets);
  }

  // ---------------------------------------------- why a set cannot be signed

  ghost predicate HasSignedOwner(name: Name, labels: nat) {
    exists owner :: IsSignedOwner(name, labels, owner)
  }

  ghost predicate OwnerFails(name: Name, labels: nat, e: DnssecError) {
    !HasSignedOwner(name, labels) && e == if labels > |name| then InvalidRrset else NameEncoding
  }

  ghost predicate DataFails(svcb: SvcbForm, r: ResourceRecord, e: DnssecError) {
    && (forall data :: !IsCanonicalData(svcb, r, data))
    && e == match r.recordType
            case Rrsig => UnsupportedCanonicalRdata
            case Nsec => InvalidNsec
            case Nsec3 => InvalidNsec3
            case _ => InvalidRrset
  }

  /** The type, the class, the owner, another owner, the data, too much of it: the first of these to be wrong. */
  ghost predicate RecordFails(svcb: SvcbForm, r: ResourceRecord, sig: Rrsig, class_: u16, owner: Bytes,
                              e: DnssecError)
  {
    if r.recordType != sig.typeCovered || r.class_ != class_ then e == InvalidRrset
    else if !IsSignedOwner(r.name, sig.labels as int, owner) then
      OwnerFails(r.name, sig.labels as int, e) ||
      (HasSignedOwner(r.name, sig.labels as int) && e == InvalidRrset)
    else
      DataFails(svcb, r, e) || (e == InvalidRrset && exists data :: IsCanonicalData(svcb, r, data) && |data| > 65535)
  }

  ghost predicate CanJoin(svcb: SvcbForm, r: ResourceRecord, sig: Rrsig, class_: u16, owner: Bytes) {
    exists data :: Joins(svcb, r, sig, class_, owner, data)
  }

  /** Records that can join the set, `i` of them, and behind them one that fails. */
  ghost predicate FailsAt(svcb: SvcbForm, rrset: seq<ResourceRecord>, sig: Rrsig, class_: u16, owner: Bytes, i: nat,
                          e: DnssecError)
    decreases i
  {
    && rrset != []
    && if i == 0 then RecordFails(svcb, rrset[0], sig, class_, owner, e)
       else CanJoin(svcb, rrset[0], sig, class_, owner) && FailsAt(svcb, rrset[1..], sig, class_, owner, i - 1, e)
  }

  ghost predicate AllDiffer(data: seq<Bytes>) {
    forall i, j :: 0 <= i < j < |data| ==> data[i] != data[j]
  }

  /** Some record fails, or two records that can join have the same data. */
  ghost predicate SetFails(svcb: SvcbForm, rrset: seq<ResourceRecord>, sig: Rrsig, owner: Bytes, e: DnssecError)
    requires rrset != []
  {
    || (exists i :: FailsAt(svcb, rrset, sig, rrset[0].class_, owner, i, e))
    || (e == InvalidRrset && exists data :: AllJoin(svcb, rrset, sig, owner, data) && !AllDiffer(data))
  }

  lemma OwnerFailsIff(name: Name, labels: nat, e: DnssecError)
    ensures CanonicalOwner(name, labels) == Err(e) <==> OwnerFails(name, labels, e)
  {
    hide EncodeLabels, IsSignedOwner, Small, Laid;
    forall owner ensures CanonicalOwner(name, labels) == Ok(owner) <==> IsSignedOwner(name, labels, owner) {
      SignedOwnerIff(name, labels, owner);
    }
    if labels <= |name| {
      EncodeLabelsIs(if labels == |name| then name else [[42]] + name[|name| - labels..]);
      if CanonicalOwner(name, labels).Ok? {
        assert IsSignedOwner(name, labels, CanonicalOwner(name, labels).value);
      }
    }
  }

  lemma DataFailsIff(svcb: SvcbForm, r: ResourceRecord, e: DnssecError)
    ensures CanonicalRdata(svcb, r) == Err(e) <==> DataFails(svcb, r, e)
  {
    forall data ensures CanonicalRdata(svcb, r) == Ok(data) <==> IsCanonicalData(svcb, r, data) {
      CanonicalDataIff(svcb, r, data);
    }
    DataFault(svcb, r);
    hide CanonicalRdata, IsCanonicalData;
    if CanonicalRdata(svcb, r).Ok? { assert IsCanonicalData(svcb, r, CanonicalRdata(svcb, r).value); }
  }

  lemma NameDataFault(rdata: Bytes, at: nat)
    ensures NameData(rdata, at).Err? ==> NameData(rdata, at) == Err(InvalidRrset)
  {
    hide ParseName, EncodeName;
    if ParseName(rdata, at).Ok? {
      ParsedNameIsValid(rdata, at);
      ValidNameEncodes(ParseName(rdata, at).value.0);
    }
  }

  lemma DataFault(svcb: SvcbForm, r: ResourceRecord)
    ensures CanonicalRdata(svcb, r).Err? ==>
      CanonicalRdata(svcb, r) == Err(match r.recordType
                                     case Rrsig => UnsupportedCanonicalRdata
                                     case Nsec => InvalidNsec
                                     case Nsec3 => InvalidNsec3
                                     case _ => InvalidRrset)
  {
    hide NameData, ParseName, EncodeName, ValidBitMaps;
    forall at: nat ensures NameData(r.rdata, at).Err? ==> NameData(r.rdata, at) == Err(InvalidRrset) {
      NameDataFault(r.rdata, at);
    }
    if r.recordType == Nsec && ParseName(r.rdata, 0).Ok? {
      ParsedNameIsValid(r.rdata, 0);
      ValidNameEncodes(ParseName(r.rdata, 0).value.0);
    }
  }

  lemma CanJoinIff(svcb: SvcbForm, r: ResourceRecord, sig: Rrsig, class_: u16, owner: Bytes)
    ensures CanJoin(svcb, r, sig, class_, owner) <==> Fits(svcb, r, sig, class_, owner)
  {
    hide Joins, Fits, DataOf;
    JoinsIff(svcb, r, sig, class_, owner, DataOf(svcb, r));
    if data :| Joins(svcb, r, sig, class_, owner, data) { JoinsIff(svcb, r, sig, class_, owner, data); }
  }

  /** What the code finds wrong with one record, in its order. */
  lemma RecordFailsIff(svcb: SvcbForm, r: ResourceRecord, sig: Rrsig, class_: u16, owner: Bytes, e: DnssecError)
    ensures var labels: nat := sig.labels as int;
      RecordFails(svcb, r, sig, class_, owner, e) <==>
        if r.recordType != sig.typeCovered || r.class_ != class_ then e == InvalidRrset
        else if CanonicalOwner(r.name, labels).Err? then CanonicalOwner(r.name, labels) == Err(e)
        else if CanonicalOwner(r.name, labels).value != owner then e == InvalidRrset
        else if CanonicalRdata(svcb, r).Err? then CanonicalRdata(svcb, r) == Err(e)
        else |CanonicalRdata(svcb, r).value| > 0xffff && e == InvalidRrset
  {
    hide CanonicalOwner, CanonicalRdata, IsSignedOwner, IsCanonicalData, OwnerFails, DataFails;
    var labels: nat := sig.labels as int;
    OwnerFailsIff(r.name, labels, e);
    DataFailsIff(svcb, r, e);
    forall own ensures CanonicalOwner(r.name, labels) == Ok(own) <==> IsSignedOwner(r.name, labels, own) {
      SignedOwnerIff(r.name, labels, own);
    }
    forall data ensures CanonicalRdata(svcb, r) == Ok(data) <==> IsCanonicalData(svcb, r, data) {
      CanonicalDataIff(svcb, r, data);
    }
    if CanonicalOwner(r.name, labels).Ok? {
      assert IsSignedOwner(r.name, labels, CanonicalOwner(r.name, labels).value);
    }
    if CanonicalRdata(svcb, r).Ok? { assert IsCanonicalData(svcb, r, CanonicalRdata(svcb, r).value); }
  }

  lemma FirstFails(svcb: SvcbForm, rrset: seq<ResourceRecord>, sig: Rrsig, class_: u16, owner: Bytes, e: DnssecError)
    requires rrset != []
    ensures var r := CanonicalSet(svcb, rrset, sig, class_, owner);
      if CanJoin(svcb, rrset[0], sig, class_, owner) then
        (r == Err(e) <==> CanonicalSet(svcb, rrset[1..], sig, class_, owner) == Err(e)) &&
        !RecordFails(svcb, rrset[0], sig, class_, owner, e)
      else r == Err(e) <==> RecordFails(svcb, rrset[0], sig, class_, owner, e)
  {
    hide CanonicalOwner, CanonicalRdata, RecordFails, CanJoin;
    CanJoinIff(svcb, rrset[0], sig, class_, owner);
    RecordFailsIff(svcb, rrset[0], sig, class_, owner, e);
  }

  lemma {:induction false} FailureFound(svcb: SvcbForm, rrset: seq<ResourceRecord>, sig: Rrsig, class_: u16,
                                        owner: Bytes, e: DnssecError) returns (i: nat)
    requires CanonicalSet(svcb, rrset, sig, class_, owner) == Err(e)
    ensures FailsAt(svcb, rrset, sig, class_, owner, i, e)
    decreases |rrset|
  {
    hide RecordFails, CanJoin;
    i := 0;
    FirstFails(svcb, rrset, sig, class_, owner, e);
    if CanJoin(svcb, rrset[0], sig, class_, owner) {
      var later := FailureFound(svcb, rrset[1..], sig, class_, owner, e);
      i := later + 1;
    }
  }

  lemma {:induction false} FailureStops(svcb: SvcbForm, rrset: seq<ResourceRecord>, sig: Rrsig, class_: u16,
                                        owner: Bytes, i: nat, e: DnssecError)
    requires FailsAt(svcb, rrset, sig, class_, owner, i, e)
    ensures CanonicalSet(svcb, rrset, sig, class_, owner) == Err(e)
    decreases i
  {
    hide RecordFails, CanJoin, CanonicalSet;
    FirstFails(svcb, rrset, sig, class_, owner, e);
    if i > 0 { FailureStops(svcb, rrset[1..], sig, class_, owner, i - 1, e); }
  }

  ghost predicate AtMostOnce(m: multiset<Bytes>) {
    forall x :: m[x] <= 1
  }

  lemma DifferBehind(first: Bytes, rest: seq<Bytes>)
    ensures AllDiffer([first] + rest) <==> first !in rest && AllDiffer(rest)
  {
    var s := [first] + rest;
    assert forall i :: 0 <= i < |rest| ==> rest[i] == s[i + 1];
    if AllDiffer(s) {
      forall i, j | 0 <= i < j < |rest| ensures rest[i] != rest[j] { assert s[i + 1] != s[j + 1]; }
      forall i | 0 <= i < |rest| ensures first != rest[i] { assert s[0] != s[i + 1]; }
    } else {
      var i, j :| 0 <= i < j < |s| && s[i] == s[j];
      assert s[j] == rest[j - 1] && (i > 0 ==> s[i] == rest[i - 1]);
    }
  }

  lemma OnceBehind(first: Bytes, rest: seq<Bytes>)
    ensures AtMostOnce(multiset([first] + rest)) <==> first !in rest && AtMostOnce(multiset(rest))
  {
    var s := [first] + rest;
    assert forall x :: multiset(s)[x] == multiset(rest)[x] + if x == first then 1 else 0;
    if AtMostOnce(multiset(s)) {
      assert multiset(s)[first] <= 1;
      forall x ensures multiset(rest)[x] <= 1 { assert multiset(s)[x] <= 1; }
    }
  }

  lemma {:induction false} DifferIff(s: seq<Bytes>)
    ensures AllDiffer(s) <==> AtMostOnce(multiset(s))
  {
    if s != [] {
      assert s == [s[0]] + s[1..];
      DifferBehind(s[0], s[1..]);
      OnceBehind(s[0], s[1..]);
      DifferIff(s[1..]);
    }
  }

  /** Sorting brings equals together. */
  lemma TwinsIff(all: seq<Bytes>)
    ensures HasTwins(Sort(all)) <==> !AllDiffer(all)
  {
    hide Sort, CompareBytes;
    var sorted := Sort(all);
    SortSorts(all);
    RisingIffNoTwins(sorted);
    DifferIff(all);
    DifferIff(sorted);
    if StrictlyRising(sorted) {
      forall i, j | 0 <= i < j < |sorted| ensures sorted[i] != sorted[j] { CompareBytesFlip(sorted[i], sorted[i]); }
    }
  }

  lemma SetFailsIff(svcb: SvcbForm, rrset: seq<ResourceRecord>, sig: Rrsig, owner: Bytes, e: DnssecError)
    requires rrset != []
    ensures var r := CanonicalSet(svcb, rrset, sig, rrset[0].class_, owner);
      SetFails(svcb, rrset, sig, owner, e) <==> r == Err(e) || (r.Ok? && e == InvalidRrset && HasTwins(Sort(r.value)))
  {
    hide FailsAt, AllJoin, Fits, CanonicalSet, HasTwins, Sort, AllDiffer;
    var r := CanonicalSet(svcb, rrset, sig, rrset[0].class_, owner);
    CanonicalSetIsAllData(svcb, rrset, sig, rrset[0].class_, owner);
    TwinsIff(AllData(svcb, rrset));
    AllJoinIff(svcb, rrset, sig, owner, AllData(svcb, rrset));
    if r == Err(e) { var i := FailureFound(svcb, rrset, sig, rrset[0].class_, owner, e); }
    if i :| FailsAt(svcb, rrset, sig, rrset[0].class_, owner, i, e) {
      FailureStops(svcb, rrset, sig, rrset[0].class_, owner, i, e);
    }
    if data :| AllJoin(svcb, rrset, sig, owner, data) && !AllDiffer(data) {
      AllJoinIff(svcb, rrset, sig, owner, data);
    }
  }

  /**
   Signing fails exactly outside the period of the signature; or for a set that
   is empty or of another type; or for its owner; or for the first record that
   fails; or, if every record can join, for two with the same data.
   */
  lemma AssembleFailsIff(svcb: SvcbForm, rrset: seq<ResourceRecord>, sig: Rrsig, now: nat, e: DnssecError)
    ensures Assemble(svcb, rrset, sig, now) == Err(e) <==>
      var labels: nat := sig.labels as int;
      if now < sig.inception || sig.expiration < now then e == SignatureOutsideValidity
      else if rrset == [] || rrset[0].recordType != sig.typeCovered then e == InvalidRrset
      else
        || OwnerFails(rrset[0].name, labels, e)
        || exists owner :: IsSignedOwner(rrset[0].name, labels, owner) && SetFails(svcb, rrset, sig, owner, e)
  {
    hide CanonicalOwner, CanonicalSet, IsSignedOwner, OwnerFails, SetFails, HasTwins, Sort, Wires;
    if rrset != [] {
      var labels: nat := sig.labels as int;
      OwnerFailsIff(rrset[0].name, labels, e);
      forall owner
        ensures CanonicalOwner(rrset[0].name, labels) == Ok(owner) <==> IsSignedOwner(rrset[0].name, labels, owner)
        ensures var r := CanonicalSet(svcb, rrset, sig, rrset[0].class_, owner);
          SetFails(svcb, rrset, sig, owner, e) <==>
            r == Err(e) || (r.Ok? && e == InvalidRrset && HasTwins(Sort(r.value)))
      {
        SignedOwnerIff(rrset[0].name, labels, owner);
        SetFailsIff(svcb, rrset, sig, owner, e);
      }
      if CanonicalOwner(rrset[0].name, labels).Ok? {
        assert IsSignedOwner(rrset[0].name, labels, CanonicalOwner(rrset[0].name, labels).value);
      }
    }
  }
}
