/** Where everything stands in a peer packet and in the frame around it, in octets; numbers have the low octet first. */
module PacketLayout {
  import opened Bytes
  import opened BlockHeaders
  import opened Packets
  import opened Frames

  ghost function Little16At(s: Bytes, at: nat): nat
    requires at + 2 <= |s|
  {
    s[at] as int + 0x100 * s[at + 1] as int
  }

  ghost function Little32At(s: Bytes, at: nat): nat
    requires at + 4 <= |s|
  {
    s[at] as int + 0x100 * s[at + 1] as int + 0x1_0000 * s[at + 2] as int + 0x100_0000 * s[at + 3] as int
  }

  ghost function Little64At(s: Bytes, at: nat): nat
    requires at + 8 <= |s|
  {
    Little32At(s, at) + 0x1_0000_0000 * Little32At(s, at + 4)
  }

  /** Behind ten zeros and two octets 255 stands an IPv4 address, otherwise all sixteen octets are an IPv6 one. */
  ghost function AddressFrom(raw: Ipv6): IpAddr {
    if raw[0..12] == [0, 0, 0, 0, 0, 0, 0, 0, 0, 0, 255, 255] then V4(raw[12..16]) else V6(raw)
  }

  /** 88 octets: time, services, a kind of address, the address if the kind is 0, room, port, room. */
  ghost function AddressIn(s: Bytes, at: nat): NetAddress
    requires at + 88 <= |s|
  {
    NetAddress(Little64At(s, at), Little64At(s, at + 8),
               AddressFrom(if s[at + 16] == 0 then s[at + 17..at + 33] else Zeros(16)), Little16At(s, at + 53))
  }

  /** 236 octets, field behind field. */
  ghost function HeaderIn(s: Bytes, at: nat): BlockHeader
    requires at + 236 <= |s|
  {
    BlockHeader(Little32At(s, at), Little64At(s, at + 4), s[at + 12..at + 44], s[at + 44..at + 76],
                s[at + 76..at + 100], s[at + 100..at + 132], s[at + 132..at + 164], s[at + 164..at + 196],
                Little32At(s, at + 196), Little32At(s, at + 200), s[at + 204..at + 236])
  }

  // ------------------------------------------------------------- small readers

  lemma BytesAt(s: Bytes, at: nat, n: nat)
    requires at <= |s|
    ensures TakeBytes(s[at..], n) ==
            if at + n > |s| then Err(Parse(UnexpectedEof)) else Ok((s[at..at + n], s[at + n..]))
  {
    if at + n <= |s| {
      assert s[at..][..n] == s[at..at + n] && s[at..][n..] == s[at + n..];
    }
  }

  lemma NumbersAt(s: Bytes, at: nat)
    requires at <= |s|
    ensures Take8(s[at..]) == if at + 1 > |s| then Err(Parse(UnexpectedEof)) else Ok((s[at], s[at + 1..]))
    ensures Take16(s[at..]) ==
            if at + 2 > |s| then Err(Parse(UnexpectedEof)) else Ok((Little16At(s, at), s[at + 2..]))
    ensures Take32(s[at..]) ==
            if at + 4 > |s| then Err(Parse(UnexpectedEof)) else Ok((Little32At(s, at), s[at + 4..]))
    ensures Take64(s[at..]) ==
            if at + 8 > |s| then Err(Parse(UnexpectedEof)) else Ok((Little64At(s, at), s[at + 8..]))
  {
    BytesAt(s, at, 1);
    BytesAt(s, at, 2);
    BytesAt(s, at, 4);
    BytesAt(s, at, 8);
    hide TakeBytes;
    if at + 4 <= |s| { Number32Is(s[at..at + 4]); }
    if at + 8 <= |s| {
      assert s[at..at + 8][..4] == s[at..at + 4] && s[at..at + 8][4..] == s[at + 4..at + 8];
      Number32Is(s[at..at + 4]);
      Number32Is(s[at + 4..at + 8]);
    }
  }

  lemma Number32Is(s: Bytes)
    requires |s| == 4
    ensures Number32(s) == Little32At(s, 0)
  {
    assert s[..2][0] == s[0] && s[..2][1] == s[1] && s[2..][0] == s[2] && s[2..][1] == s[3];
  }

  lemma HashAt(s: Bytes, at: nat)
    requires at <= |s|
    ensures TakeHash(s[at..]) == if at + 32 > |s| then Err(Parse(UnexpectedEof)) else Ok((s[at..at + 32], s[at + 32..]))
  {
    BytesAt(s, at, 32);
  }

  lemma NonceAt(s: Bytes, at: nat)
    requires at <= |s|
    ensures TakeNonce(s[at..]) == if at + 8 > |s| then Err(Parse(UnexpectedEof)) else Ok((s[at..at + 8], s[at + 8..]))
  {
    BytesAt(s, at, 8);
  }

  // --------------------------------------------------------- addresses, headers

  lemma AddressAt(s: Bytes, at: nat)
    requires at <= |s|
    ensures ParseAddress(s[at..]) ==
            if at + 88 > |s| then Err(Parse(UnexpectedEof)) else Ok((AddressIn(s, at), s[at + 88..]))
  {
    hide AddressIn, ParseAddress;
    if at + 88 <= |s| { AddressWhole(s, at); } else { AddressIsShort(s, at); }
  }

  lemma AddressWhole(s: Bytes, at: nat)
    requires at + 88 <= |s|
    ensures ParseAddress(s[at..]) == Ok((AddressIn(s, at), s[at + 88..]))
  {
    hide Take64, Take16, TakeBytes, ParseRaw, Little64At, Little16At, AddressOf, AddressFrom;
    NumbersAt(s, at);
    NumbersAt(s, at + 8);
    RawAt(s, at + 16);
    NumbersAt(s, at + 53);
    BytesAt(s, at + 55, 33);
    AddressIs(if s[at + 16] == 0 then s[at + 17..at + 33] else Zeros(16));
  }

  lemma AddressIsShort(s: Bytes, at: nat)
    requires at <= |s| < at + 88
    ensures ParseAddress(s[at..]) == Err(Parse(UnexpectedEof))
  {
    hide Take64, Take16, TakeBytes, ParseRaw, Little64At, Little16At, AddressOf;
    NumbersAt(s, at);
    if at + 8 <= |s| { NumbersAt(s, at + 8); }
    if at + 16 <= |s| { RawAt(s, at + 16); }
    if at + 53 <= |s| { NumbersAt(s, at + 53); }
    if at + 55 <= |s| { BytesAt(s, at + 55, 33); }
  }

  lemma RawAt(s: Bytes, at: nat)
    requires at <= |s|
    ensures ParseRaw(s[at..]) ==
            if at + 37 > |s| then Err(Parse(UnexpectedEof))
            else Ok((if s[at] == 0 then s[at + 1..at + 17] else Zeros(16), s[at + 37..]))
  {
    hide Take8, TakeBytes;
    NumbersAt(s, at);
    if at + 1 <= |s| {
      BytesAt(s, at + 1, 16);
      BytesAt(s, at + 1, 36);
      if at + 17 <= |s| { BytesAt(s, at + 17, 20); }
    }
  }

  lemma AddressIs(raw: Ipv6)
    ensures AddressOf(raw) == AddressFrom(raw)
  {
    assert raw[..12] == raw[0..12] && raw[12..] == raw[12..16];
  }

  lemma HeaderFieldsAt(s: Bytes, at: nat)
    requires at + 236 <= |s|
    ensures ParseHeaderFields(s[at..]) == Ok((HeaderIn(s, at), s[at + 236..]))
  {
    hide Take64, Take32, TakeHash, TakeBytes, Little64At, Little32At;
    NumbersAt(s, at);
    NumbersAt(s, at + 4);
    HashAt(s, at + 12);
    HashAt(s, at + 44);
    BytesAt(s, at + 76, 24);
    HashAt(s, at + 100);
    HashAt(s, at + 132);
    HashAt(s, at + 164);
    NumbersAt(s, at + 196);
    NumbersAt(s, at + 200);
    HashAt(s, at + 204);
  }

  lemma HeaderAt(s: Bytes, at: nat)
    requires at <= |s|
    ensures TakeHeader(s[at..]) ==
            if at + 236 > |s| then Err(Parse(UnexpectedEof)) else Ok((HeaderIn(s, at), s[at + 236..]))
  {
    BytesAt(s, at, 236);
    if at + 236 <= |s| {
      var data := s[at..at + 236];
      HeaderFieldsAt(data, 0);
      assert data[0..] == data && data[236..] == [];
      SameHeader(s, at, data);
      hide ParseHeaderFields, TakeBytes;
    }
  }

  lemma SameHeader(s: Bytes, at: nat, data: Bytes)
    requires at + 236 <= |s| && data == s[at..at + 236]
    ensures HeaderIn(data, 0) == HeaderIn(s, at)
  {
    SliceWithin(s, at, data, 12, 44);
    SliceWithin(s, at, data, 44, 76);
    SliceWithin(s, at, data, 76, 100);
    SliceWithin(s, at, data, 100, 132);
    SliceWithin(s, at, data, 132, 164);
    SliceWithin(s, at, data, 164, 196);
    SliceWithin(s, at, data, 204, 236);
  }

  lemma SliceWithin(s: Bytes, at: nat, data: Bytes, i: nat, j: nat)
    requires at + |data| <= |s| && data == s[at..at + |data|] && i <= j <= |data|
    ensures data[i..j] == s[at + i..at + j]
  {
    forall k | 0 <= k < j - i ensures data[i..j][k] == s[at + i..at + j][k] {
      assert data[i + k] == s[at + (i + k)];
    }
  }

  // --------------------------------------------------------------- whole packets

  /** The hello: version, services, time, peer's address, nonce, agent behind its length, height, and a flag. */
  ghost predicate VersionStands(s: Bytes, v: VersionPacket) {
    var n := |v.agent|;
    && |s| == 122 + n && n <= 255
    && v.version == Little32At(s, 0) && v.services == Little64At(s, 4) && v.time == Little64At(s, 12)
    && v.remote == AddressIn(s, 20) && v.nonce == s[108..116] && s[116] as int == n && v.agent == s[117..117 + n]
    && v.height == Little32At(s, 117 + n) && (v.noRelay <==> s[121 + n] == 1)
  }

  ghost function VersionIn(s: Bytes, n: nat): VersionPacket
    requires |s| >= 122 + n && IsUtf8(s[117..117 + n])
  {
    hide IsUtf8, AddressIn, Little64At, Little32At;
    VersionPacket(Little32At(s, 0), Little64At(s, 4), Little64At(s, 12), AddressIn(s, 20), s[108..116],
                  s[117..117 + n], Little32At(s, 117 + n), s[121 + n] == 1)
  }

  /** A hello that is long enough is read but for its agent's text. */
  lemma VersionRead(s: Bytes, n: nat)
    requires |s| >= 117 && n == s[116] as int && |s| >= 122 + n
    ensures ParseVersion(s) ==
            if !IsUtf8(s[117..117 + n]) then Err(Parse(InvalidDnsLabel))
            else Ok((VersionIn(s, n), s[122 + n..]))
  {
    hide Take64, Take32, Take8, TakeBytes, TakeNonce, ParseAddress, IsUtf8, AddressIn, Little64At, Little32At;
    assert s[0..] == s;
    NumbersAt(s, 0);
    NumbersAt(s, 4);
    NumbersAt(s, 12);
    AddressAt(s, 20);
    NonceAt(s, 108);
    NumbersAt(s, 116);
    BytesAt(s, 117, n);
    NumbersAt(s, 117 + n);
    NumbersAt(s, 121 + n);
  }

  /** A short hello is noticed where it ends, but for an agent that is all there and no text. */
  lemma VersionIsShort(s: Bytes)
    requires |s| < 117 || |s| < 122 + s[116] as int
    ensures ParseVersion(s) ==
            Err(Parse(if |s| < 117 || |s| < 117 + s[116] as int || IsUtf8(s[117..117 + s[116] as int])
                      then UnexpectedEof else InvalidDnsLabel))
  {
    hide Take64, Take32, Take8, TakeBytes, TakeNonce, ParseAddress, IsUtf8, AddressIn, Little64At, Little32At;
    assert s[0..] == s;
    NumbersAt(s, 0);
    if 4 <= |s| { NumbersAt(s, 4); }
    if 12 <= |s| { NumbersAt(s, 12); }
    if 20 <= |s| { AddressAt(s, 20); }
    if 108 <= |s| { NonceAt(s, 108); }
    if 116 <= |s| { NumbersAt(s, 116); }
    if 117 <= |s| {
      var n := s[116] as int;
      BytesAt(s, 117, n);
      if 117 + n <= |s| { NumbersAt(s, 117 + n); }
      if 121 + n <= |s| { NumbersAt(s, 121 + n); }
    }
  }

  lemma VersionIff(s: Bytes, v: VersionPacket)
    ensures ParseVersion(s) == Ok((v, [])) <==> VersionStands(s, v)
  {
    hide ParseVersion, IsUtf8, AddressIn, Little64At, Little32At;
    if |s| < 117 || |s| < 122 + s[116] as int {
      VersionIsShort(s);
    } else {
      var n := s[116] as int;
      VersionRead(s, n);
      assert s[122 + n..] == [] <==> |s| == 122 + n;
    }
  }

  /** A number and where it ends: one octet up to 252, else two, four or eight behind 253, 254 or 255, whichever is the
      shortest. */
  ghost predicate VarintStands(s: Bytes, n: nat, end: nat) {
    |s| >= end && end >= 1 &&
    if s[0] <= 252 then n == s[0] as int && end == 1
    else if s[0] == 253 then end == 3 && n == Little16At(s, 1) && n >= 253
    else if s[0] == 254 then end == 5 && n == Little32At(s, 1) && n >= 0x1_0000
    else end == 9 && n == Little64At(s, 1) && n >= 0x1_0000_0000
  }

  lemma VarintIff(s: Bytes, n: u64, end: nat)
    requires end <= |s|
    ensures ParseVarint(s) == Ok((n, s[end..])) <==> VarintStands(s, n, end)
  {
    hide Take8, Take16, Take32, Take64, Little16At, Little32At, Little64At;
    assert s[0..] == s;
    NumbersAt(s, 0);
    if s != [] { NumbersAt(s, 1); }
    if ParseVarint(s).Ok? {
      var e := if s[0] <= 252 then 1 else if s[0] == 253 then 3 else if s[0] == 254 then 5 else 9;
      assert ParseVarint(s).value.1 == s[e..];
      assert s[e..] == s[end..] ==> |s[e..]| == |s[end..]|;
    }
  }

  ghost function AddressesIn(s: Bytes, at: nat, n: nat): (items: seq<NetAddress>)
    requires at + 88 * n <= |s|
    ensures |items| == n
    decreases n
  {
    if n == 0 then [] else [AddressIn(s, at)] + AddressesIn(s, at + 88, n - 1)
  }

  ghost function HashesIn(s: Bytes, at: nat, n: nat): (items: seq<Hash>)
    requires at + 32 * n <= |s|
    ensures |items| == n
    decreases n
  {
    if n == 0 then [] else [s[at..at + 32]] + HashesIn(s, at + 32, n - 1)
  }

  ghost function HeadersIn(s: Bytes, at: nat, n: nat): (items: seq<BlockHeader>)
    requires at + 236 * n <= |s|
    ensures |items| == n
    decreases n
  {
    if n == 0 then [] else [HeaderIn(s, at)] + HeadersIn(s, at + 236, n - 1)
  }

  lemma {:induction false} AddressesAt(s: Bytes, at: nat, n: nat, done: seq<NetAddress>)
    requires at <= |s|
    ensures ParseMany(ParseAddress, n, done, s[at..]) ==
            if at + 88 * n > |s| then Err(Parse(UnexpectedEof))
            else Ok((done + AddressesIn(s, at, n), s[at + 88 * n..]))
    decreases n
  {
    hide ParseAddress, AddressIn;
    if n == 0 {
      assert done + [] == done;
    } else {
      AddressAt(s, at);
      if at + 88 <= |s| {
        AddressesAt(s, at + 88, n - 1, done + [AddressIn(s, at)]);
        if at + 88 * n <= |s| {
          var later := AddressesIn(s, at + 88, n - 1);
          assert done + [AddressIn(s, at)] + later == done + ([AddressIn(s, at)] + later);
        }
      }
    }
  }

  lemma {:induction false} HashesAt(s: Bytes, at: nat, n: nat, done: seq<Hash>)
    requires at <= |s|
    ensures ParseMany(TakeHash, n, done, s[at..]) ==
            if at + 32 * n > |s| then Err(Parse(UnexpectedEof))
            else Ok((done + HashesIn(s, at, n), s[at + 32 * n..]))
    decreases n
  {
    hide TakeHash;
    if n == 0 {
      assert done + [] == done;
    } else {
      HashAt(s, at);
      if at + 32 <= |s| {
        var first: Hash := s[at..at + 32];
        HashesAt(s, at + 32, n - 1, done + [first]);
        if at + 32 * n <= |s| {
          var later := HashesIn(s, at + 32, n - 1);
          assert done + [first] + later == done + ([first] + later);
        }
      }
    }
  }

  lemma {:induction false} HeadersAt(s: Bytes, at: nat, n: nat, done: seq<BlockHeader>)
    requires at <= |s|
    ensures ParseMany(TakeHeader, n, done, s[at..]) ==
            if at + 236 * n > |s| then Err(Parse(UnexpectedEof))
            else Ok((done + HeadersIn(s, at, n), s[at + 236 * n..]))
    decreases n
  {
    hide TakeHeader, HeaderIn;
    if n == 0 {
      assert done + [] == done;
    } else {
      HeaderAt(s, at);
      if at + 236 <= |s| {
        HeadersAt(s, at + 236, n - 1, done + [HeaderIn(s, at)]);
        if at + 236 * n <= |s| {
          var later := HeadersIn(s, at + 236, n - 1);
          assert done + [HeaderIn(s, at)] + later == done + ([HeaderIn(s, at)] + later);
        }
      }
    }
  }

  /** The count and where the items begin. */
  ghost predicate Counts(s: Bytes, n: nat, start: nat, limit: nat) {
    VarintStands(s, n, start) && n <= limit
  }

  ghost predicate AddressesStand(s: Bytes, start: nat, items: seq<NetAddress>) {
    && Counts(s, |items|, start, 1_000) && |s| == start + 88 * |items| && items == AddressesIn(s, start, |items|)
  }

  ghost predicate LocatorStands(s: Bytes, start: nat, items: seq<Hash>, stop: Hash) {
    && Counts(s, |items|, start, 50_000) && |s| == start + 32 * |items| + 32
    && items == HashesIn(s, start, |items|) && stop == s[|s| - 32..]
  }

  ghost predicate HeadersStand(s: Bytes, start: nat, items: seq<BlockHeader>) {
    && Counts(s, |items|, start, 2_000) && |s| == start + 236 * |items| && items == HeadersIn(s, start, |items|)
  }

  /** What stands in a payload, by the number of its type. */
  ghost predicate PayloadStands(packetType: byte, s: Bytes, p: Packet) {
    match packetType
    case 0 => p.Version? && VersionStands(s, p.hello)
    case 1 => p == Verack && s == []
    case 2 => |s| == 8 && p == Ping(s)
    case 3 => |s| == 8 && p == Pong(s)
    case 4 => p == GetAddr && s == []
    case 5 => p.Addr? && exists start: nat :: AddressesStand(s, start, p.addresses)
    case 10 => p.GetHeaders? && exists start: nat :: LocatorStands(s, start, p.locator, p.stop)
    case 11 => p.Headers? && exists start: nat :: HeadersStand(s, start, p.headers)
    case 12 => p == SendHeaders && s == []
    case 26 => |s| == 64 && p == GetProof(s[..32], s[32..64])
    case 27 => |s| >= 64 && p == Proof(s[..32], s[32..64], s[64..])
    case other => p == Packet.Unknown(packetType, s)
  }

  /** How a counted list is read: the count, and then the items from there on. */
  lemma CountedAt<T>(item: Bytes -> Parsed<T>, limit: nat, s: Bytes) returns (n: nat, start: nat)
    ensures ParseCounted(item, limit, s).Ok? ==>
      start <= |s| && Counts(s, n, start, limit) && ParseCounted(item, limit, s) == ParseMany(item, n, [], s[start..])
    ensures forall m, e :: Counts(s, m, e, limit) ==>
      m == n && e == start <= |s| && ParseCounted(item, limit, s) == ParseMany(item, n, [], s[start..])
  {
    hide ParseVarint, VarintStands, ParseMany;
    n, start := 0, 0;
    if ParseVarint(s).Ok? {
      var rest := ParseVarint(s).value.1;
      VarintRest(s);
      n, start := ParseVarint(s).value.0, |s| - |rest|;
      VarintIff(s, n, start);
    }
    forall m, e | Counts(s, m, e, limit)
      ensures m == n && e == start <= |s| && ParseCounted(item, limit, s) == ParseMany(item, n, [], s[start..])
    {
      VarintFits(s, m, e);
      VarintIff(s, m, e);
    }
  }

  lemma VarintRest(s: Bytes)
    requires ParseVarint(s).Ok?
    ensures var rest := ParseVarint(s).value.1; |rest| <= |s| && rest == s[|s| - |rest|..]
  {
    hide Take16, Take32, Take64;
    assert s[0..] == s;
    NumbersAt(s, 0);
    if s != [] { NumbersAt(s, 1); }
  }

  lemma VarintFits(s: Bytes, n: nat, end: nat)
    requires VarintStands(s, n, end)
    ensures n < 0x1_0000_0000_0000_0000 && end <= |s|
  {
  }

  lemma AddrIff(s: Bytes, p: Packet)
    ensures DecodePayload(5, s) == Ok(p) <==> PayloadStands(5, s, p)
  {
    hide ParseVarint, VarintStands, ParseAddress, AddressesIn, ParseMany, ParseCounted;
    var n, start := CountedAt(ParseAddress, MAX_ADDR, s);
    if start <= |s| { AddressesAt(s, start, n, []); }
    if start + 88 * n <= |s| {
      assert [] + AddressesIn(s, start, n) == AddressesIn(s, start, n);
      assert s[start + 88 * n..] == [] <==> |s| == start + 88 * n;
    }
    if DecodePayload(5, s) == Ok(p) { assert AddressesStand(s, start, p.addresses); }
  }

  lemma HeadersIff(s: Bytes, p: Packet)
    ensures DecodePayload(11, s) == Ok(p) <==> PayloadStands(11, s, p)
  {
    hide ParseVarint, VarintStands, TakeHeader, HeadersIn, ParseMany, ParseCounted;
    var n, start := CountedAt(TakeHeader, MAX_HEADERS, s);
    if start <= |s| { HeadersAt(s, start, n, []); }
    if start + 236 * n <= |s| {
      assert [] + HeadersIn(s, start, n) == HeadersIn(s, start, n);
      assert s[start + 236 * n..] == [] <==> |s| == start + 236 * n;
    }
    if DecodePayload(11, s) == Ok(p) { assert HeadersStand(s, start, p.headers); }
  }

  lemma GetHeadersIff(s: Bytes, p: Packet)
    ensures DecodePayload(10, s) == Ok(p) <==> PayloadStands(10, s, p)
  {
    hide ParseVarint, VarintStands, TakeHash, HashesIn, ParseMany, ParseCounted;
    var n, start := CountedAt(TakeHash, MAX_INV, s);
    if start <= |s| { HashesAt(s, start, n, []); }
    if start + 32 * n <= |s| {
      var at := start + 32 * n;
      assert [] + HashesIn(s, start, n) == HashesIn(s, start, n);
      HashAt(s, at);
      if at + 32 <= |s| { assert s[at + 32..] == [] <==> |s| == at + 32; }
      if at + 32 == |s| { assert s[at..at + 32] == s[|s| - 32..]; }
    }
    if DecodePayload(10, s) == Ok(p) { assert LocatorStands(s, start, p.locator, p.stop); }
  }

  lemma EmptyIff(packetType: byte, s: Bytes, p: Packet)
    requires packetType !in {0, 2, 3, 5, 10, 11, 26, 27}
    ensures DecodePayload(packetType, s) == Ok(p) <==> PayloadStands(packetType, s, p)
  {
    hide ParseVersion, TakeHash, TakeNonce, VersionStands, AddressesStand, LocatorStands, HeadersStand;
  }

  lemma NonceIff(packetType: byte, s: Bytes, p: Packet)
    requires packetType in {2, 3}
    ensures DecodePayload(packetType, s) == Ok(p) <==> PayloadStands(packetType, s, p)
  {
    hide ParseVersion, TakeHash, TakeNonce, VersionStands, AddressesStand, LocatorStands, HeadersStand;
    assert s[0..] == s;
    NonceAt(s, 0);
    if |s| >= 8 { assert s[8..] == [] <==> |s| == 8; }
    if |s| == 8 { assert s[0..8] == s; }
  }

  lemma HashesIff(packetType: byte, s: Bytes, p: Packet)
    requires packetType in {26, 27}
    ensures DecodePayload(packetType, s) == Ok(p) <==> PayloadStands(packetType, s, p)
  {
    hide ParseVersion, TakeHash, TakeNonce, VersionStands, AddressesStand, LocatorStands, HeadersStand;
    assert s[0..] == s;
    HashAt(s, 0);
    if |s| >= 32 {
      HashAt(s, 32);
      assert s[0..32] == s[..32];
    }
    if |s| >= 64 { assert s[64..] == [] <==> |s| == 64; }
  }

  lemma HelloIff(s: Bytes, p: Packet)
    ensures DecodePayload(0, s) == Ok(p) <==> PayloadStands(0, s, p)
  {
    hide ParseVersion, VersionStands;
    if p.Version? { VersionIff(s, p.hello); }
    if ParseVersion(s).Ok? && ParseVersion(s).value.1 == [] { VersionIff(s, ParseVersion(s).value.0); }
  }

  /** A payload is decoded exactly as what stands in it. */
  lemma PayloadIff(packetType: byte, s: Bytes, p: Packet)
    ensures DecodePayload(packetType, s) == Ok(p) <==> PayloadStands(packetType, s, p)
  {
    hide DecodePayload, PayloadStands;
    if packetType == 0 {
      HelloIff(s, p);
    } else if packetType == 5 {
      AddrIff(s, p);
    } else if packetType == 10 {
      GetHeadersIff(s, p);
    } else if packetType == 11 {
      HeadersIff(s, p);
    } else if packetType in {2, 3} {
      NonceIff(packetType, s, p);
    } else if packetType in {26, 27} {
      HashesIff(packetType, s, p);
    } else {
      EmptyIff(packetType, s, p);
    }
  }

  // -------------------------------------------------------------------- frames

  /** A frame: four octets of magic, the number of the packet's type, four octets of length, the payload. */
  ghost predicate FrameStands(magic: u32, data: Bytes, p: Packet, used: nat) {
    && |data| >= 9 && Little32At(data, 0) == magic
    && Little32At(data, 5) <= 8_000_000 && used == 9 + Little32At(data, 5) <= |data|
    && PayloadStands(data[4], data[9..used], p)
  }

  /** A frame is decoded exactly as what stands at the front; decoding waits exactly while more is needed. */
  lemma FrameIff(magic: u32, data: Bytes, p: Packet, used: nat)
    ensures DecodeFrame(magic, data) == Ok(Some((p, used))) <==> FrameStands(magic, data, p, used)
    ensures DecodeFrame(magic, data) == Ok(None) <==>
      || |data| < 9
      || (Little32At(data, 0) == magic && Little32At(data, 5) <= 8_000_000 && |data| < 9 + Little32At(data, 5))
    ensures |data| >= 9 && Little32At(data, 0) != magic ==> DecodeFrame(magic, data) == Err(InvalidMagic)
    ensures |data| >= 9 && Little32At(data, 0) == magic && Little32At(data, 5) > 8_000_000 ==>
      DecodeFrame(magic, data) == Err(MessageTooLarge)
  {
    hide DecodePayload, PayloadStands, Number32;
    if |data| >= 9 {
      Number32Is(data[..4]);
      Number32Is(data[5..9]);
      assert Little32At(data[..4], 0) == Little32At(data, 0) && Little32At(data[5..9], 0) == Little32At(data, 5);
      var length := Little32At(data, 5);
      if 9 + length <= |data| { PayloadIff(data[4], data[9..9 + length], p); }
    }
  }

  /** Frames one behind the other, and behind them no whole one. */
  ghost predicate FramesStand(magic: u32, data: Bytes, packets: seq<Packet>, rest: Bytes)
    decreases |packets|
  {
    if packets == [] then data == rest && DecodeFrame(magic, data) == Ok(None)
    else
      exists used: nat ::
        && FrameStands(magic, data, packets[0], used) && used <= |data|
        && FramesStand(magic, data[used..], packets[1..], rest)
  }

  lemma {:induction false} DrainIff(magic: u32, data: Bytes, packets: seq<Packet>, rest: Bytes)
    ensures Drain(magic, data) == Ok((packets, rest)) <==> FramesStand(magic, data, packets, rest)
    decreases |data|
  {
    hide DecodeFrame, FrameStands;
    match DecodeFrame(magic, data) {
      case Err(_) =>
      case Ok(None) =>
      case Ok(Some((packet, used))) =>
        FrameIff(magic, data, packet, used);
        if packets != [] {
          DrainIff(magic, data[used..], packets[1..], rest);
          assert packets == [packets[0]] + packets[1..];
        }
    }
    if packets != [] && FramesStand(magic, data, packets, rest) {
      var used: nat :| FrameStands(magic, data, packets[0], used) && used <= |data| &&
                       FramesStand(magic, data[used..], packets[1..], rest);
      FrameIff(magic, data, packets[0], used);
    }
  }

  /** Feeding delivers the frames that stand in what is buffered and what is new; over 8 000 009 octets it refuses. */
  lemma FeedIff(magic: u32, buffer: Bytes, data: Bytes, packets: seq<Packet>, rest: Bytes)
    ensures FeedOutcome(magic, buffer, data) == (Ok(packets), rest) <==>
      |buffer| + |data| <= 8_000_009 && FramesStand(magic, buffer + data, packets, rest)
    ensures |buffer| + |data| > 8_000_009 ==> FeedOutcome(magic, buffer, data) == (Err(MessageTooLarge), buffer)
  {
    hide Drain, FramesStand;
    DrainIff(magic, buffer + data, packets, rest);
  }

  /** What a writer puts where readers do not look: zeros. */
  lemma RoomIsZero(a: NetAddress)
    ensures |EncodeAddress(a)| == 88 && EncodeAddress(a)[16] == 0
    ensures forall i :: 33 <= i < 53 || 55 <= i < 88 ==> EncodeAddress(a)[i] == 0
  {
    hide Little64, LittleEndian16, RawAddress;
    var front := Little64(a.time) + Little64(a.services) + [0] + RawAddress(a.address);
    var s := EncodeAddress(a);
    assert s == front + Zeros(20) + LittleEndian16(a.port) + Zeros(33);
    assert s[33..53] == Zeros(20) && s[55..88] == Zeros(33);
    forall i | 33 <= i < 53 ensures s[i] == 0 { assert s[i] == s[33..53][i - 33]; }
    forall i | 55 <= i < 88 ensures s[i] == 0 { assert s[i] == s[55..88][i - 55]; }
  }
}
