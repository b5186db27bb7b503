/**
 Payloads of the peer protocol: what is written, what is read back, and
 exactly which packets come back unchanged.
 */
module Packets {
  import opened Bytes
  import opened BlockHeaders

  const MAX_INV := 50_000
  const MAX_ADDR := 1_000
  const MAX_HEADERS := 2_000
  const MAX_AGENT_LEN := 255
  const UNKNOWN_PACKET: byte := 30

  datatype P2pError =
    | Parse(error: ParseError)
    | NonCanonicalVarint
    | CountLimit
    | AgentTooLong
    | TrailingPayload
    | InvalidMagic
    | MessageTooLarge

  type Nonce = b: Bytes | |b| == 8 witness Zeros(8)
  type Ipv4 = b: Bytes | |b| == 4 witness Zeros(4)
  type Ipv6 = b: Bytes | |b| == 16 witness Zeros(16)

  /** Octets of a string: well-formed UTF-8. */
  type Text = b: Bytes | IsUtf8(b) witness []

  datatype IpAddr = V4(quad: Ipv4) | V6(octets: Ipv6)

  datatype NetAddress = NetAddress(time: u64, services: u64, address: IpAddr, port: u16)

  datatype VersionPacket = VersionPacket(version: u32, services: u64, time: u64, remote: NetAddress, nonce: Nonce,
                                         agent: Text, height: u32, noRelay: bool)

  datatype Packet =
    | Version(hello: VersionPacket)
    | Verack
    | Ping(nonce: Nonce)
    | Pong(nonce: Nonce)
    | GetAddr
    | Addr(addresses: seq<NetAddress>)
    | GetHeaders(locator: seq<Hash>, stop: Hash)
    | Headers(headers: seq<BlockHeader>)
    | SendHeaders
    | GetProof(root: Hash, key: Hash)
    | Proof(root: Hash, key: Hash, proof: Bytes)
    | Unknown(packetType: byte, payload: Bytes)

  /** A value read from the front of some octets, and the octets after it. */
  type Parsed<T> = Result<(T, Bytes), P2pError>

  // -------------------------------------------------------------------- text

  predicate IsTail(b: byte) { 0x80 <= b <= 0xbf }

  /** Length of the well-formed character at the front, 0 if there is none. */
  function CharLength(s: Bytes): (n: nat)
    ensures n <= |s|
  {
    if s == [] then 0
    else if s[0] <= 0x7f then 1
    else if 0xc2 <= s[0] <= 0xdf then if |s| >= 2 && IsTail(s[1]) then 2 else 0
    else if 0xe0 <= s[0] <= 0xef then
      if |s| >= 3 && IsTail(s[1]) && IsTail(s[2]) && (s[0] != 0xe0 || s[1] >= 0xa0) && (s[0] != 0xed || s[1] <= 0x9f)
      then 3 else 0
    else if 0xf0 <= s[0] <= 0xf4 then
      if |s| >= 4 && IsTail(s[1]) && IsTail(s[2]) && IsTail(s[3]) &&
         (s[0] != 0xf0 || s[1] >= 0x90) && (s[0] != 0xf4 || s[1] <= 0x8f)
      then 4 else 0
    else 0
  }

  predicate IsUtf8(s: Bytes) {
    s == [] || (CharLength(s) > 0 && IsUtf8(s[CharLength(s)..]))
  }

  // ----------------------------------------------------------------- numbers

  /** The code point that one to four octets spell, six bits to each octet but the first. */
  ghost function CodePoint(s: Bytes): int
    requires 1 <= |s| <= 4
  {
    match |s|
    case 1 => s[0] as int
    case 2 => (s[0] as int - 192) * 64 + (s[1] as int - 128)
    case 3 => (s[0] as int - 224) * 4096 + (s[1] as int - 128) * 64 + (s[2] as int - 128)
    case _ =>
      (s[0] as int - 240) * 0x4_0000 + (s[1] as int - 128) * 4096 + (s[2] as int - 128) * 64 + (s[3] as int - 128)
  }

  /** A character: octets behind the first from 128 to 191, as few of them as its code point needs, and no surrogate. */
  ghost predicate IsChar(s: Bytes) {
    && 1 <= |s| <= 4 && (forall i :: 1 <= i < |s| ==> 128 <= s[i] <= 191)
    && var n := CodePoint(s);
       match |s|
       case 1 => 0 <= n <= 0x7f
       case 2 => 0x80 <= n <= 0x7ff
       case 3 => 0x800 <= n <= 0xffff && !(0xd800 <= n <= 0xdfff)
       case _ => 0x1_0000 <= n <= 0x10_ffff
  }

  lemma CharLengthIff(s: Bytes, n: nat)
    requires 1 <= n <= |s|
    ensures CharLength(s) == n <==> n <= 4 && IsChar(s[..n])
  {
  }

  function Little32(n: u32): (s: Bytes)
    ensures |s| == 4
  {
    LittleEndian16(n % 0x1_0000) + LittleEndian16(n / 0x1_0000)
  }

  /** Eight octets; service bits are written as these same two halves. */
  function Little64(n: u64): (s: Bytes)
    ensures |s| == 8
  {
    Little32(n % 0x1_0000_0000) + Little32(n / 0x1_0000_0000)
  }

  function Number16(s: Bytes): u16
    requires |s| == 2
  {
    s[0] as int + 256 * (s[1] as int)
  }

  function Number32(s: Bytes): u32
    requires |s| == 4
  {
    Number16(s[..2]) + 0x1_0000 * Number16(s[2..])
  }

  function Number64(s: Bytes): u64
    requires |s| == 8
  {
    Number32(s[..4]) + 0x1_0000_0000 * Number32(s[4..])
  }

  lemma Number32OfLittle(n: u32)
    ensures Number32(Little32(n)) == n
  {
    var low, high := LittleEndian16(n % 0x1_0000), LittleEndian16(n / 0x1_0000);
    assert (low + high)[..2] == low && (low + high)[2..] == high;
  }

  lemma Number64OfLittle(n: u64)
    ensures Number64(Little64(n)) == n
  {
    var low, high := Little32(n % 0x1_0000_0000), Little32(n / 0x1_0000_0000);
    assert (low + high)[..4] == low && (low + high)[4..] == high;
    Number32OfLittle(n % 0x1_0000_0000);
    Number32OfLittle(n / 0x1_0000_0000);
  }

  lemma LittleOfNumber16(s: Bytes)
    requires |s| == 2
    ensures LittleEndian16(Number16(s)) == s
  {
  }

  lemma Halves(low: u16, high: u16)
    ensures (low + 0x1_0000 * high) % 0x1_0000 == low && (low + 0x1_0000 * high) / 0x1_0000 == high
  {
  }

  lemma LittleOfNumber32(s: Bytes)
    requires |s| == 4
    ensures Little32(Number32(s)) == s
  {
    hide Number16, LittleEndian16;
    LittleOfNumber16(s[..2]);
    LittleOfNumber16(s[2..]);
    Halves(Number16(s[..2]), Number16(s[2..]));
    assert s == s[..2] + s[2..];
  }

  lemma LittleOfNumber64(s: Bytes)
    requires |s| == 8
    ensures Little64(Number64(s)) == s
  {
    hide Little32, Number32;
    LittleOfNumber32(s[..4]);
    LittleOfNumber32(s[4..]);
    assert s == s[..4] + s[4..];
  }

  // ------------------------------------------------------------ reading specs

  function TakeBytes(s: Bytes, n: nat): Parsed<Bytes> {
    if n > |s| then Err(Parse(UnexpectedEof)) else Ok((s[..n], s[n..]))
  }

  function Take8(s: Bytes): Parsed<byte> {
    var (b, s) :- TakeBytes(s, 1);
    Ok((b[0], s))
  }

  function Take16(s: Bytes): Parsed<u16> {
    var (b, s) :- TakeBytes(s, 2);
    Ok((Number16(b), s))
  }

  function Take32(s: Bytes): Parsed<u32> {
    var (b, s) :- TakeBytes(s, 4);
    Ok((Number32(b), s))
  }

  function Take64(s: Bytes): Parsed<u64> {
    var (b, s) :- TakeBytes(s, 8);
    Ok((Number64(b), s))
  }

  function TakeHash(s: Bytes): Parsed<Hash> {
    var (b, s) :- TakeBytes(s, 32);
    Ok((b, s))
  }

  function TakeNonce(s: Bytes): Parsed<Nonce> {
    var (b, s) :- TakeBytes(s, 8);
    Ok((b, s))
  }

  function ParseVarint(s: Bytes): Parsed<u64> {
    var (first, s) :- Take8(s);
    if first <= 0xfc then Ok((first as int, s))
    else if first == 0xfd then
      var (value, s) :- Take16(s);
      if value < 0xfd then Err(NonCanonicalVarint) else Ok((value, s))
    else if first == 0xfe then
      var (value, s) :- Take32(s);
      if value <= 0xffff then Err(NonCanonicalVarint) else Ok((value, s))
    else
      var (value, s) :- Take64(s);
      if value <= 0xffff_ffff then Err(NonCanonicalVarint) else Ok((value, s))
  }

  function WriteVarint(n: u64): Bytes {
    if n <= 0xfc then [n]
    else if n <= 0xffff then [0xfd] + LittleEndian16(n)
    else if n <= 0xffff_ffff then [0xfe] + Little32(n)
    else [0xff] + Little64(n)
  }

  const MAPPED_PREFIX: Bytes := [0, 0, 0, 0, 0, 0, 0, 0, 0, 0, 0xff, 0xff]

  /** An IPv6 address of the block that stands for IPv4 addresses. */
  predicate IsMapped(octets: Ipv6) { octets[..12] == MAPPED_PREFIX }

  function AddressOf(raw: Ipv6): IpAddr {
    if IsMapped(raw) then V4(raw[12..]) else V6(raw)
  }

  function RawAddress(a: IpAddr): (raw: Ipv6) {
    match a
    case V4(quad) => MAPPED_PREFIX + quad
    case V6(octets) => octets
  }

  /** Sixteen octets of address and twenty to skip, or thirty-six to skip. */
  function ParseRaw(s: Bytes): Parsed<Ipv6> {
    var (kind, s) :- Take8(s);
    if kind == 0 then
      var (raw, s) :- TakeBytes(s, 16);
      var (_, s) :- TakeBytes(s, 20);
      Ok((raw, s))
    else
      var (_, s) :- TakeBytes(s, 36);
      Ok((Zeros(16), s))
  }

  function ParseAddress(s: Bytes): Parsed<NetAddress> {
    var (time, s) :- Take64(s);
    var (services, s) :- Take64(s);
    var (raw, s) :- ParseRaw(s);
    var (port, s) :- Take16(s);
    var (_, s) :- TakeBytes(s, 33);
    Ok((NetAddress(time, services, AddressOf(raw), port), s))
  }

  function ParseVersion(s: Bytes): Parsed<VersionPacket> {
    var (version, s) :- Take32(s);
    var (services, s) :- Take64(s);
    var (time, s) :- Take64(s);
    var (remote, s) :- ParseAddress(s);
    var (nonce, s) :- TakeNonce(s);
    var (agentLen, s) :- Take8(s);
    if agentLen as int > MAX_AGENT_LEN then Err(AgentTooLong)
    else
      var (agent, s) :- TakeBytes(s, agentLen as int);
      if !IsUtf8(agent) then Err(Parse(InvalidDnsLabel))
      else
        var (height, s) :- Take32(s);
        var (flag, s) :- Take8(s);
        Ok((VersionPacket(version, services, time, remote, nonce, agent, height, flag == 1), s))
  }

  function ParseHeaderFields(s: Bytes): Parsed<BlockHeader> {
    var (nonce, s) :- Take32(s);
    var (time, s) :- Take64(s);
    var (prevBlock, s) :- TakeHash(s);
    var (treeRoot, s) :- TakeHash(s);
    var (extraNonce, s) :- TakeBytes(s, 24);
    var (reservedRoot, s) :- TakeHash(s);
    var (witnessRoot, s) :- TakeHash(s);
    var (merkleRoot, s) :- TakeHash(s);
    var (version, s) :- Take32(s);
    var (bits, s) :- Take32(s);
    var (mask, s) :- TakeHash(s);
    Ok((BlockHeader(nonce, time, prevBlock, treeRoot, extraNonce, reservedRoot, witnessRoot, merkleRoot, version,
                    bits, mask), s))
  }

  /** A header is read from exactly 236 octets. */
  function ParseHeader(data: Bytes): Result<BlockHeader, P2pError> {
    if |data| != HEADER_SIZE then Err(Parse(UnexpectedEof))
    else
      var (header, rest) :- ParseHeaderFields(data);
      if rest != [] then Err(Parse(TrailingBytes)) else Ok(header)
  }

  function TakeHeader(s: Bytes): Parsed<BlockHeader> {
    var (data, s) :- TakeBytes(s, HEADER_SIZE);
    var header :- ParseHeader(data);
    Ok((header, s))
  }

  /** `n` more items after those in `done`. */
  function ParseMany<T>(item: Bytes -> Parsed<T>, n: nat, done: seq<T>, s: Bytes): Parsed<seq<T>>
    decreases n
  {
    if n == 0 then Ok((done, s))
    else
      var (x, s) :- item(s);
      ParseMany(item, n - 1, done + [x], s)
  }

  /** A count within its limit, then that many items. */
  function ParseCounted<T>(item: Bytes -> Parsed<T>, limit: nat, s: Bytes): Parsed<seq<T>> {
    var (count, s) :- ParseVarint(s);
    if count > limit then Err(CountLimit) else ParseMany(item, count, [], s)
  }

  function ParseBody(packetType: byte, s: Bytes): Parsed<Packet> {
    if packetType == 0 then
      var (hello, s) :- ParseVersion(s);
      Ok((Version(hello), s))
    else if packetType == 1 then Ok((Verack, s))
    else if packetType == 2 then
      var (nonce, s) :- TakeNonce(s);
      Ok((Ping(nonce), s))
    else if packetType == 3 then
      var (nonce, s) :- TakeNonce(s);
      Ok((Pong(nonce), s))
    else if packetType == 4 then Ok((GetAddr, s))
    else if packetType == 5 then
      var (items, s) :- ParseCounted(ParseAddress, MAX_ADDR, s);
      Ok((Addr(items), s))
    else if packetType == 10 then
      var (locator, s) :- ParseCounted(TakeHash, MAX_INV, s);
      var (stop, s) :- TakeHash(s);
      Ok((GetHeaders(locator, stop), s))
    else if packetType == 11 then
      var (items, s) :- ParseCounted(TakeHeader, MAX_HEADERS, s);
      Ok((Headers(items), s))
    else if packetType == 12 then Ok((SendHeaders, s))
    else if packetType == 26 then
      var (root, s) :- TakeHash(s);
      var (key, s) :- TakeHash(s);
      Ok((GetProof(root, key), s))
    else if packetType == 27 then
      var (root, s) :- TakeHash(s);
      var (key, s) :- TakeHash(s);
      Ok((Proof(root, key, s), []))
    else Ok((Unknown(packetType, s), s))
  }

  function DecodePayload(packetType: byte, payload: Bytes): Result<Packet, P2pError> {
    var (packet, rest) :- ParseBody(packetType, payload);
    if !packet.Unknown? && rest != [] then Err(TrailingPayload) else Ok(packet)
  }

  // ------------------------------------------------------------ writing specs

  function EncodeAddress(a: NetAddress): Bytes {
    Little64(a.time) + Little64(a.services) + [0] + RawAddress(a.address) + Zeros(20) + LittleEndian16(a.port) +
    Zeros(33)
  }

  function EncodeVersion(v: VersionPacket): Bytes
    requires |v.agent| <= MAX_AGENT_LEN
  {
    Little32(v.version) + Little64(v.services) + Little64(v.time) + EncodeAddress(v.remote) + v.nonce +
    [|v.agent|] + v.agent + Little32(v.height) + [if v.noRelay then 1 else 0]
  }

  function EncodeHeader(h: BlockHeader): Bytes {
    Little32(h.nonce) + Little64(h.time) + h.prevBlock + h.treeRoot + h.extraNonce + h.reservedRoot +
    h.witnessRoot + h.merkleRoot + Little32(h.version) + Little32(h.bits) + h.mask
  }

  function HashOctets(h: Hash): Bytes { h }

  function Flat<T>(put: T -> Bytes, items: seq<T>): Bytes {
    if items == [] then [] else put(items[0]) + Flat(put, items[1..])
  }

  function EncodeCounted<T>(put: T -> Bytes, limit: u32, items: seq<T>): Result<Bytes, P2pError> {
    if |items| > limit then Err(CountLimit) else Ok(WriteVarint(|items|) + Flat(put, items))
  }

  function Code(p: Packet): byte {
    match p
    case Version(_) => 0
    case Verack => 1
    case Ping(_) => 2
    case Pong(_) => 3
    case GetAddr => 4
    case Addr(_) => 5
    case GetHeaders(_, _) => 10
    case Headers(_) => 11
    case SendHeaders => 12
    case GetProof(_, _) => 26
    case Proof(_, _, _) => 27
    case Unknown(_, _) => UNKNOWN_PACKET
  }

  function EncodePayload(p: Packet): Result<Bytes, P2pError> {
    match p
    case Version(v) => if |v.agent| > MAX_AGENT_LEN then Err(AgentTooLong) else Ok(EncodeVersion(v))
    case Verack | GetAddr | SendHeaders => Ok([])
    case Ping(nonce) => Ok(nonce)
    case Pong(nonce) => Ok(nonce)
    case Addr(items) => EncodeCounted(EncodeAddress, MAX_ADDR, items)
    case GetHeaders(locator, stop) =>
      var out :- EncodeCounted(HashOctets, MAX_INV, locator);
      Ok(out + stop)
    case Headers(items) => EncodeCounted(EncodeHeader, MAX_HEADERS, items)
    case GetProof(root, key) => Ok(root + key)
    case Proof(root, key, proof) => Ok(root + key + proof)
    case Unknown(_, payload) => Ok(payload)
  }

  // ------------------------------------------------------- what survives a trip

  function NormalAddress(a: NetAddress): NetAddress {
    a.(address := AddressOf(RawAddress(a.address)))
  }

  function Same<T>(x: T): T { x }

  function Mapped<T>(norm: T -> T, items: seq<T>): (r: seq<T>) {
    if items == [] then [] else [norm(items[0])] + Mapped(norm, items[1..])
  }

  /** The packet a peer sees: mapped addresses turn into IPv4, and every unknown packet has type 30. */
  function Normal(p: Packet): Packet {
    match p
    case Version(v) => Version(v.(remote := NormalAddress(v.remote)))
    case Addr(items) => Addr(Mapped(NormalAddress, items))
    case Unknown(_, payload) => Unknown(UNKNOWN_PACKET, payload)
    case _ => p
  }

  predicate CanonicalAddress(a: NetAddress) {
    a.address.V6? ==> !IsMapped(a.address.octets)
  }

  /** No address in the IPv4-mapped block, no unknown type but 30. */
  predicate Canonical(p: Packet) {
    match p
    case Version(v) => CanonicalAddress(v.remote)
    case Addr(items) => forall a :: a in items ==> CanonicalAddress(a)
    case Unknown(packetType, _) => packetType == UNKNOWN_PACKET
    case _ => true
  }

  lemma NormalAddressIff(a: NetAddress)
    ensures NormalAddress(a) == a <==> CanonicalAddress(a)
    ensures CanonicalAddress(NormalAddress(a))
  {
    if a.address.V4? {
      var raw := RawAddress(a.address);
      assert raw[..12] == MAPPED_PREFIX && raw[12..] == a.address.quad;
    }
  }

  lemma {:induction false} MappedIsSameIff(items: seq<NetAddress>)
    ensures Mapped(NormalAddress, items) == items <==> forall a :: a in items ==> CanonicalAddress(a)
  {
    hide NormalAddress, CanonicalAddress;
    if items != [] {
      MappedIsSameIff(items[1..]);
      NormalAddressIff(items[0]);
      assert items == [items[0]] + items[1..];
    }
  }

  /** Exactly the canonical packets are their own normal form. */
  lemma NormalIffCanonical(p: Packet)
    ensures Normal(p) == p <==> Canonical(p)
  {
    match p
    case Version(v) => NormalAddressIff(v.remote);
    case Addr(items) => MappedIsSameIff(items);
    case _ =>
  }

  // ------------------------------------------------------------- round trips

  lemma Assoc(a: Bytes, b: Bytes, c: Bytes)
    ensures (a + b) + c == a + (b + c)
  {
  }

  lemma TookBytes(x: Bytes, rest: Bytes)
    ensures TakeBytes(x + rest, |x|) == Ok((x, rest))
  {
    assert (x + rest)[..|x|] == x && (x + rest)[|x|..] == rest;
  }

  lemma TookHash(h: Hash, rest: Bytes)
    ensures TakeHash(h + rest) == Ok((h, rest))
  {
    TookBytes(h, rest);
  }

  lemma TookNonce(nonce: Nonce)
    ensures TakeNonce(nonce) == Ok((nonce, []))
  {
    TookBytes(nonce, []);
    assert nonce + [] == nonce;
  }

  lemma Took16(n: u16, rest: Bytes)
    ensures Take16(LittleEndian16(n) + rest) == Ok((n, rest))
  {
    TookBytes(LittleEndian16(n), rest);
  }

  lemma Took32(n: u32, rest: Bytes)
    ensures Take32(Little32(n) + rest) == Ok((n, rest))
  {
    TookBytes(Little32(n), rest);
    Number32OfLittle(n);
  }

  lemma Took64(n: u64, rest: Bytes)
    ensures Take64(Little64(n) + rest) == Ok((n, rest))
  {
    TookBytes(Little64(n), rest);
    Number64OfLittle(n);
  }

  /** A number written as a varint is read back, whatever follows it. */
  lemma VarintRoundTrip(n: u64, rest: Bytes)
    ensures ParseVarint(WriteVarint(n) + rest) == Ok((n, rest))
  {
    hide Little32, Little64, Number32, Number64, Number16;
    if n <= 0xfc {
      TookBytes([n], rest);
    } else if n <= 0xffff {
      Assoc([0xfd], LittleEndian16(n), rest);
      TookBytes([0xfd], LittleEndian16(n) + rest);
      Took16(n, rest);
    } else if n <= 0xffff_ffff {
      Assoc([0xfe], Little32(n), rest);
      TookBytes([0xfe], Little32(n) + rest);
      Took32(n, rest);
    } else {
      Assoc([0xff], Little64(n), rest);
      TookBytes([0xff], Little64(n) + rest);
      Took64(n, rest);
    }
  }

  /** A varint that is read is the one the value is written as. */
  lemma ReadVarintIsWritten(s: Bytes)
    requires ParseVarint(s).Ok?
    ensures s == WriteVarint(ParseVarint(s).value.0) + ParseVarint(s).value.1
  {
    hide Little32, Little64, Number32, Number64, Number16;
    assert s == [s[0]] + s[1..];
    var t := s[1..];
    if s[0] == 0xfd {
      LittleOfNumber16(t[..2]);
      assert t == t[..2] + t[2..];
      Assoc([s[0]], t[..2], t[2..]);
    } else if s[0] == 0xfe {
      LittleOfNumber32(t[..4]);
      assert t == t[..4] + t[4..];
      Assoc([s[0]], t[..4], t[4..]);
    } else if s[0] == 0xff {
      LittleOfNumber64(t[..8]);
      assert t == t[..8] + t[8..];
      Assoc([s[0]], t[..8], t[8..]);
    }
  }

  /** Concatenation of seven pieces and a tail, regrouped to the right. */
  lemma Regroup7(a: Bytes, b: Bytes, c: Bytes, d: Bytes, e: Bytes, f: Bytes, g: Bytes, tail: Bytes)
    ensures a + b + c + d + e + f + g + tail == a + (b + (c + (d + (e + (f + (g + tail))))))
  {
    Assoc(a + b + c + d + e + f, g, tail);
    Assoc(a + b + c + d + e, f, g + tail);
    Regroup5(a, b, c, d, e, f + (g + tail));
  }

  lemma Regroup5(a: Bytes, b: Bytes, c: Bytes, d: Bytes, e: Bytes, tail: Bytes)
    ensures a + b + c + d + e + tail == a + (b + (c + (d + (e + tail))))
  {
    Assoc(a + b + c + d, e, tail);
    Assoc(a + b + c, d, e + tail);
    Assoc(a + b, c, d + (e + tail));
    Assoc(a, b, c + (d + (e + tail)));
  }

  lemma RawRoundTrip(a: IpAddr, rest: Bytes)
    ensures ParseRaw([0] + (RawAddress(a) + (Zeros(20) + rest))) == Ok((RawAddress(a), rest))
  {
    hide RawAddress;
    TookBytes([0], RawAddress(a) + (Zeros(20) + rest));
    TookBytes(RawAddress(a), Zeros(20) + rest);
    TookBytes(Zeros(20), rest);
  }

  lemma AddressRoundTrip(a: NetAddress, rest: Bytes)
    ensures ParseAddress(EncodeAddress(a) + rest) == Ok((NormalAddress(a), rest))
  {
    hide Little64, Number64, Number16, Zeros, RawAddress, ParseRaw, Take64, Take16;
    var tail2 := LittleEndian16(a.port) + (Zeros(33) + rest);
    var tail1 := [0] + (RawAddress(a.address) + (Zeros(20) + tail2));
    Regroup7(Little64(a.time), Little64(a.services), [0], RawAddress(a.address), Zeros(20), LittleEndian16(a.port),
             Zeros(33), rest);
    Took64(a.time, Little64(a.services) + tail1);
    Took64(a.services, tail1);
    RawRoundTrip(a.address, tail2);
    Took16(a.port, Zeros(33) + rest);
    TookBytes(Zeros(33), rest);
  }

  lemma VersionRoundTrip(v: VersionPacket, rest: Bytes)
    requires |v.agent| <= MAX_AGENT_LEN
    ensures ParseVersion(EncodeVersion(v) + rest) == Ok((v.(remote := NormalAddress(v.remote)), rest))
  {
    hide Little32, Little64, Number32, Number64, NormalAddress, EncodeAddress, ParseAddress, Take32, Take64, IsUtf8;
    var flag: Bytes := [if v.noRelay then 1 else 0];
    var len: Bytes := [|v.agent|];
    var tail3 := Little32(v.height) + (flag + rest);
    var tail2 := len + (v.agent + tail3);
    var tail1 := EncodeAddress(v.remote) + (v.nonce + tail2);
    VersionLayout(v, rest);
    Took32(v.version, Little64(v.services) + (Little64(v.time) + tail1));
    Took64(v.services, Little64(v.time) + tail1);
    Took64(v.time, tail1);
    AddressRoundTrip(v.remote, v.nonce + tail2);
    TookBytes(v.nonce, tail2);
    TookBytes(len, v.agent + tail3);
    TookBytes(v.agent, tail3);
    Took32(v.height, flag + rest);
    TookBytes(flag, rest);
  }

  lemma VersionLayout(v: VersionPacket, rest: Bytes)
    requires |v.agent| <= MAX_AGENT_LEN
    ensures EncodeVersion(v) + rest ==
      Little32(v.version) + (Little64(v.services) + (Little64(v.time) + (EncodeAddress(v.remote) + (v.nonce +
      ([|v.agent|] + (v.agent + (Little32(v.height) + ([if v.noRelay then 1 else 0] + rest))))))))
  {
    hide Little32, Little64, EncodeAddress, IsUtf8;
    var flag: Bytes := [if v.noRelay then 1 else 0];
    var len: Bytes := [|v.agent|];
    var tail3 := Little32(v.height) + (flag + rest);
    var front := Little32(v.version) + Little64(v.services) + Little64(v.time) + EncodeAddress(v.remote) + v.nonce;
    Assoc(front + len + v.agent + Little32(v.height), flag, rest);
    Assoc(front + len + v.agent, Little32(v.height), flag + rest);
    Assoc(front + len, v.agent, tail3);
    Assoc(front, len, v.agent + tail3);
    Regroup5(Little32(v.version), Little64(v.services), Little64(v.time), EncodeAddress(v.remote), v.nonce,
             len + (v.agent + tail3));
  }

  lemma HeaderLayout(h: BlockHeader, rest: Bytes)
    ensures |EncodeHeader(h)| == HEADER_SIZE
    ensures EncodeHeader(h) + rest ==
      Little32(h.nonce) + (Little64(h.time) + (h.prevBlock + (h.treeRoot + (h.extraNonce + (h.reservedRoot +
      (h.witnessRoot + (h.merkleRoot + (Little32(h.version) + (Little32(h.bits) + (h.mask + rest))))))))))
  {
    hide Little32, Little64;
    var front := Little32(h.nonce) + Little64(h.time) + h.prevBlock + h.treeRoot + h.extraNonce;
    var back := h.witnessRoot + (h.merkleRoot + (Little32(h.version) + (Little32(h.bits) + (h.mask + rest))));
    Regroup7(front, h.reservedRoot, h.witnessRoot, h.merkleRoot, Little32(h.version), Little32(h.bits), h.mask, rest);
    Regroup5(Little32(h.nonce), Little64(h.time), h.prevBlock, h.treeRoot, h.extraNonce, h.reservedRoot + back);
  }

  lemma HeaderFieldsRoundTrip(h: BlockHeader)
    ensures ParseHeader(EncodeHeader(h)) == Ok(h)
  {
    hide Little32, Little64, Number32, Number64, Take32, Take64, EncodeHeader;
    HeaderLayout(h, []);
    assert EncodeHeader(h) + [] == EncodeHeader(h);
    var back := Little32(h.version) + (Little32(h.bits) + (h.mask + []));
    var middle := h.extraNonce + (h.reservedRoot + (h.witnessRoot + (h.merkleRoot + back)));
    Took32(h.nonce, Little64(h.time) + (h.prevBlock + (h.treeRoot + middle)));
    Took64(h.time, h.prevBlock + (h.treeRoot + middle));
    TookBytes(h.prevBlock, h.treeRoot + middle);
    TookBytes(h.treeRoot, middle);
    TookBytes(h.extraNonce, h.reservedRoot + (h.witnessRoot + (h.merkleRoot + back)));
    TookBytes(h.reservedRoot, h.witnessRoot + (h.merkleRoot + back));
    TookBytes(h.witnessRoot, h.merkleRoot + back);
    TookBytes(h.merkleRoot, back);
    Took32(h.version, Little32(h.bits) + (h.mask + []));
    Took32(h.bits, h.mask + []);
    TookBytes(h.mask, []);
  }

  lemma HeaderRoundTrip(h: BlockHeader, rest: Bytes)
    ensures TakeHeader(EncodeHeader(h) + rest) == Ok((h, rest))
  {
    hide EncodeHeader, ParseHeader;
    HeaderLayout(h, []);
    TookBytes(EncodeHeader(h), rest);
    HeaderFieldsRoundTrip(h);
  }

  /** Reading one item undoes writing it, up to `norm`. */
  ghost predicate Undoes<T(!new)>(item: Bytes -> Parsed<T>, put: T -> Bytes, norm: T -> T) {
    forall x, rest :: UndoesAt(item, put, norm, x, rest)
  }

  ghost predicate UndoesAt<T>(item: Bytes -> Parsed<T>, put: T -> Bytes, norm: T -> T, x: T, rest: Bytes) {
    item(put(x) + rest) == Ok((norm(x), rest))
  }

  lemma {:induction false} ManyRoundTrip<T(!new)>(item: Bytes -> Parsed<T>, put: T -> Bytes, norm: T -> T,
                                                  items: seq<T>, done: seq<T>, rest: Bytes)
    requires Undoes(item, put, norm)
    ensures ParseMany(item, |items|, done, Flat(put, items) + rest) == Ok((done + Mapped(norm, items), rest))
    decreases |items|
  {
    if items == [] {
      assert Flat(put, items) + rest == rest && done + Mapped(norm, items) == done;
    } else {
      Assoc(put(items[0]), Flat(put, items[1..]), rest);
      assert UndoesAt(item, put, norm, items[0], Flat(put, items[1..]) + rest);
      ManyRoundTrip(item, put, norm, items[1..], done + [norm(items[0])], rest);
      assert done + [norm(items[0])] + Mapped(norm, items[1..]) == done + Mapped(norm, items);
    }
  }

  lemma CountedRoundTrip<T(!new)>(item: Bytes -> Parsed<T>, put: T -> Bytes, norm: T -> T, limit: u32, items: seq<T>,
                                  rest: Bytes)
    requires Undoes(item, put, norm) && |items| <= limit
    ensures ParseCounted(item, limit, EncodeCounted(put, limit, items).value + rest) == Ok((Mapped(norm, items), rest))
  {
    hide ParseVarint, WriteVarint, Undoes;
    Assoc(WriteVarint(|items|), Flat(put, items), rest);
    VarintRoundTrip(|items|, Flat(put, items) + rest);
    ManyRoundTrip(item, put, norm, items, [], rest);
    assert [] + Mapped(norm, items) == Mapped(norm, items);
  }

  lemma {:induction false} MappedSame<T>(items: seq<T>)
    ensures Mapped(Same, items) == items
  {
    if items != [] { MappedSame(items[1..]); }
  }

  /** What is read back from a written payload is the packet in normal form: the packet itself exactly if canonical. */
  lemma PayloadRoundTrip(p: Packet)
    requires EncodePayload(p).Ok?
    ensures DecodePayload(Code(p), EncodePayload(p).value) == Ok(Normal(p))
    ensures DecodePayload(Code(p), EncodePayload(p).value) == Ok(p) <==> Canonical(p)
  {
    hide EncodeVersion, ParseVersion, ParseCounted, WriteVarint, NormalAddress, Mapped, Canonical, TakeHash, TakeNonce;
    NormalIffCanonical(p);
    var out := EncodePayload(p).value;
    match p
    case Version(v) =>
      VersionRoundTrip(v, []);
      assert out + [] == out;
    case Ping(nonce) => TookNonce(nonce);
    case Pong(nonce) => TookNonce(nonce);
    case Addr(items) => AddrRoundTrip(items);
    case GetHeaders(locator, stop) => LocatorRoundTrip(locator, stop);
    case Headers(items) => HeadersRoundTrip(items);
    case GetProof(root, key) =>
      TookHash(root, key);
      TookHash(key, []);
      assert key + [] == key;
    case Proof(root, key, proof) =>
      Assoc(root, key, proof);
      TookHash(root, key + proof);
      TookHash(key, proof);
    case _ =>
  }

  lemma AddrRoundTrip(items: seq<NetAddress>)
    requires |items| <= MAX_ADDR
    ensures ParseCounted(ParseAddress, MAX_ADDR, EncodeCounted(EncodeAddress, MAX_ADDR, items).value) ==
            Ok((Mapped(NormalAddress, items), []))
  {
    hide ParseAddress, EncodeAddress, NormalAddress, ParseVarint, WriteVarint;
    forall a: NetAddress, rest: Bytes ensures UndoesAt(ParseAddress, EncodeAddress, NormalAddress, a, rest) {
      AddressRoundTrip(a, rest);
    }
    CountedRoundTrip(ParseAddress, EncodeAddress, NormalAddress, MAX_ADDR, items, []);
    var out := EncodeCounted(EncodeAddress, MAX_ADDR, items).value;
    assert out + [] == out;
  }

  lemma LocatorRoundTrip(locator: seq<Hash>, stop: Hash)
    requires |locator| <= MAX_INV
    ensures ParseCounted(TakeHash, MAX_INV, EncodeCounted(HashOctets, MAX_INV, locator).value + stop) ==
            Ok((locator, stop))
    ensures TakeHash(stop) == Ok((stop, []))
  {
    hide ParseVarint, WriteVarint;
    forall h: Hash, rest: Bytes ensures UndoesAt(TakeHash, HashOctets, Same, h, rest) {
      TookBytes(h, rest);
    }
    CountedRoundTrip(TakeHash, HashOctets, Same, MAX_INV, locator, stop);
    MappedSame(locator);
    TookBytes(stop, []);
    assert stop + [] == stop;
  }

  lemma HeadersRoundTrip(items: seq<BlockHeader>)
    requires |items| <= MAX_HEADERS
    ensures ParseCounted(TakeHeader, MAX_HEADERS, EncodeCounted(EncodeHeader, MAX_HEADERS, items).value) ==
            Ok((items, []))
  {
    hide TakeHeader, EncodeHeader, ParseVarint, WriteVarint;
    forall h: BlockHeader, rest: Bytes ensures UndoesAt(TakeHeader, EncodeHeader, Same, h, rest) {
      HeaderRoundTrip(h, rest);
    }
    CountedRoundTrip(TakeHeader, EncodeHeader, Same, MAX_HEADERS, items, []);
    MappedSame(items);
    var out := EncodeCounted(EncodeHeader, MAX_HEADERS, items).value;
    assert out + [] == out;
  }

  lemma {:induction false} ParsedManyCount<T>(item: Bytes -> Parsed<T>, n: nat, done: seq<T>, s: Bytes)
    requires ParseMany(item, n, done, s).Ok?
    ensures |ParseMany(item, n, done, s).value.0| == |done| + n
    decreases n
  {
    if n > 0 {
      var (x, rest) := item(s).value;
      ParsedManyCount(item, n - 1, done + [x], rest);
    }
  }

  lemma {:induction false} ParsedAddressesAreCanonical(n: nat, done: seq<NetAddress>, s: Bytes)
    requires ParseMany(ParseAddress, n, done, s).Ok?
    requires forall a :: a in done ==> CanonicalAddress(a)
    ensures forall a :: a in ParseMany(ParseAddress, n, done, s).value.0 ==> CanonicalAddress(a)
    decreases n
  {
    if n > 0 {
      ParsedAddressIsCanonical(s);
      hide ParseAddress, CanonicalAddress;
      var (x, rest) := ParseAddress(s).value;
      ParsedAddressesAreCanonical(n - 1, done + [x], rest);
    }
  }

  lemma ParsedAddressIsCanonical(s: Bytes)
    requires ParseAddress(s).Ok?
    ensures CanonicalAddress(ParseAddress(s).value.0)
  {
    hide Take64, Take16, Number64, Number16;
  }

  lemma DecodedCounts(packetType: byte, payload: Bytes)
    requires DecodePayload(packetType, payload).Ok?
    ensures EncodePayload(DecodePayload(packetType, payload).value).Ok?
  {
    hide ParseAddress, TakeHeader, EncodeVersion, EncodeHeader, EncodeAddress, WriteVarint, Flat, IsUtf8, ParseVarint;
    if packetType == 5 {
      var (count, s) := ParseVarint(payload).value;
      ParsedManyCount(ParseAddress, count, [], s);
    } else if packetType == 10 {
      var (count, s) := ParseVarint(payload).value;
      ParsedManyCount(TakeHash, count, [], s);
    } else if packetType == 11 {
      var (count, s) := ParseVarint(payload).value;
      ParsedManyCount(TakeHeader, count, [], s);
    }
  }

  /**
   Whatever payload was accepted, the packet read from it can be written
   again, and reading that gives the packet back; only an unknown type other
   than 30 is lost.
   */
  lemma DecodedPacketReencodes(packetType: byte, payload: Bytes)
    requires DecodePayload(packetType, payload).Ok?
    ensures var p := DecodePayload(packetType, payload).value;
      && EncodePayload(p).Ok?
      && (Code(p) == packetType || p == Unknown(packetType, payload))
      && (DecodePayload(Code(p), EncodePayload(p).value) == Ok(p) <==> Code(p) == packetType)
  {
    hide ParseVersion, ParseCounted, EncodePayload;
    DecodedCounts(packetType, payload);
    var p := DecodePayload(packetType, payload).value;
    PayloadRoundTrip(p);
    if p.Version? {
      DecodedVersionIsCanonical(payload);
    } else if p.Addr? {
      DecodedAddrIsCanonical(payload);
    }
  }

  lemma DecodedVersionIsCanonical(s: Bytes)
    requires ParseVersion(s).Ok?
    ensures CanonicalAddress(ParseVersion(s).value.0.remote)
  {
    hide Take64, Take32, ParseAddress, IsUtf8, CanonicalAddress;
    var (_, s1) := Take32(s).value;
    var (_, s2) := Take64(s1).value;
    var (_, s3) := Take64(s2).value;
    ParsedAddressIsCanonical(s3);
  }

  lemma DecodedAddrIsCanonical(s: Bytes)
    requires ParseCounted(ParseAddress, MAX_ADDR, s).Ok?
    ensures forall a :: a in ParseCounted(ParseAddress, MAX_ADDR, s).value.0 ==> CanonicalAddress(a)
  {
    hide ParseVarint, ParseAddress, CanonicalAddress;
    var (count, rest) := ParseVarint(s).value;
    ParsedAddressesAreCanonical(count, [], rest);
  }
}
