/** The peer protocol's codec as it runs: a reader that advances over a payload, and writers that push to an output. */
module PacketCodec {
  import opened Bytes
  import opened BlockHeaders
  import opened Packets

  /** The outcome of one reading step: the value the front of the octets stands for, and the octets left. */
  ghost predicate Reads<T>(parsed: Parsed<T>, r: Result<T, P2pError>, rest: Bytes) {
    match parsed
    case Err(e) => r == Err(e)
    case Ok((x, s)) => r == Ok(x) && rest == s
  }

  class Reader {
    const data: Bytes
    var offset: nat

    ghost predicate Valid() reads this {
      offset <= |data|
    }

    ghost function Rest(): Bytes
      requires Valid()
      reads this
    {
      data[offset..]
    }

    constructor (data: Bytes)
      ensures Valid() && Rest() == data
    {
      this.data := data;
      offset := 0;
    }

    predicate IsFinished()
      requires Valid()
      reads this
      ensures IsFinished() <==> Rest() == []
    {
      offset == |data|
    }

    method ReadBytes(len: nat) returns (r: Result<Bytes, P2pError>)
      requires Valid()
      modifies this`offset
      ensures Valid() && Reads(TakeBytes(old(Rest()), len), r, Rest())
    {
      var end := offset + len;
      if end > |data| {
        return Err(Parse(UnexpectedEof));
      }
      r := Ok(data[offset..end]);
      assert data[offset..end] == Rest()[..len];
      offset := end;
    }

    method ReadU8() returns (r: Result<byte, P2pError>)
      requires Valid()
      modifies this`offset
      ensures Valid() && Reads(Take8(old(Rest())), r, Rest())
    {
      var bytes :- ReadBytes(1);
      r := Ok(bytes[0]);
    }

    method ReadU16() returns (r: Result<u16, P2pError>)
      requires Valid()
      modifies this`offset
      ensures Valid() && Reads(Take16(old(Rest())), r, Rest())
    {
      var bytes :- ReadBytes(2);
      r := Ok(Number16(bytes));
    }

    method ReadU32() returns (r: Result<u32, P2pError>)
      requires Valid()
      modifies this`offset
      ensures Valid() && Reads(Take32(old(Rest())), r, Rest())
    {
      var bytes :- ReadBytes(4);
      r := Ok(Number32(bytes));
    }

    method ReadU64() returns (r: Result<u64, P2pError>)
      requires Valid()
      modifies this`offset
      ensures Valid() && Reads(Take64(old(Rest())), r, Rest())
    {
      var bytes :- ReadBytes(8);
      r := Ok(Number64(bytes));
    }

    method ReadHash() returns (r: Result<Hash, P2pError>)
      requires Valid()
      modifies this`offset
      ensures Valid() && Reads(TakeHash(old(Rest())), r, Rest())
    {
      var bytes :- ReadBytes(32);
      r := Ok(bytes);
    }

    method ReadNonce() returns (r: Result<Nonce, P2pError>)
      requires Valid()
      modifies this`offset
      ensures Valid() && Reads(TakeNonce(old(Rest())), r, Rest())
    {
      var bytes :- ReadBytes(8);
      r := Ok(bytes);
    }

    method ReadVarint() returns (r: Result<u64, P2pError>)
      requires Valid()
      modifies this`offset
      ensures Valid() && Reads(ParseVarint(old(Rest())), r, Rest())
    {
      hide Number16, Number32, Number64;
      var first :- ReadU8();
      if first <= 0xfc {
        return Ok(first as int);
      }
      if first == 0xfd {
        var value :- ReadU16();
        return if value < 0xfd then Err(NonCanonicalVarint) else Ok(value);
      }
      if first == 0xfe {
        var value :- ReadU32();
        return if value <= 0xffff then Err(NonCanonicalVarint) else Ok(value);
      }
      var value :- ReadU64();
      r := if value <= 0xffff_ffff then Err(NonCanonicalVarint) else Ok(value);
    }

    method ReadRaw() returns (r: Result<Ipv6, P2pError>)
      requires Valid()
      modifies this`offset
      ensures Valid() && Reads(ParseRaw(old(Rest())), r, Rest())
    {
      var kind :- ReadU8();
      if kind == 0 {
        var raw :- ReadBytes(16);
        var _ :- ReadBytes(20);
        return Ok(raw);
      }
      var _ :- ReadBytes(36);
      r := Ok(Zeros(16));
    }

    method ReadAddress() returns (r: Result<NetAddress, P2pError>)
      requires Valid()
      modifies this`offset
      ensures Valid() && Reads(ParseAddress(old(Rest())), r, Rest())
    {
      hide Take64, ParseRaw, Take16, AddressOf;
      var time :- ReadU64();
      var services :- ReadU64();
      var raw :- ReadRaw();
      var port :- ReadU16();
      var _ :- ReadBytes(33);
      r := Ok(NetAddress(time, services, AddressOf(raw), port));
    }

    method ReadVersion() returns (r: Result<VersionPacket, P2pError>)
      requires Valid()
      modifies this`offset
      ensures Valid() && Reads(ParseVersion(old(Rest())), r, Rest())
    {
      hide Take64, Take32, ParseAddress, IsUtf8;
      var version :- ReadU32();
      var services :- ReadU64();
      var time :- ReadU64();
      var remote :- ReadAddress();
      var nonce :- ReadNonce();
      var agentLen :- ReadU8();
      if agentLen as int > MAX_AGENT_LEN {
        return Err(AgentTooLong);
      }
      var agent :- ReadBytes(agentLen as int);
      if !IsUtf8(agent) {
        return Err(Parse(InvalidDnsLabel));
      }
      var height :- ReadU32();
      var flag :- ReadU8();
      r := Ok(VersionPacket(version, services, time, remote, nonce, agent, height, flag == 1));
    }

    method ReadHeader() returns (r: Result<BlockHeader, P2pError>)
      requires Valid()
      modifies this`offset
      ensures Valid() && Reads(TakeHeader(old(Rest())), r, Rest())
    {
      hide ParseHeader;
      var data :- ReadBytes(HEADER_SIZE);
      var header :- ParseHeader(data);
      r := Ok(header);
    }

    method ReadAddressList() returns (r: Result<seq<NetAddress>, P2pError>)
      requires Valid()
      modifies this`offset
      ensures Valid() && Reads(ParseCounted(ParseAddress, MAX_ADDR, old(Rest())), r, Rest())
    {
      hide ParseVarint, ParseAddress;
      var count :- ReadVarint();
      if count > MAX_ADDR {
        return Err(CountLimit);
      }
      ghost var start := Rest();
      var items: seq<NetAddress> := [];
      for k := 0 to count
        invariant Valid()
        invariant ParseMany(ParseAddress, count, [], start) == ParseMany(ParseAddress, count - k, items, Rest())
      {
        var item :- ReadAddress();
        items := items + [item];
      }
      r := Ok(items);
    }

    method ReadHashList() returns (r: Result<seq<Hash>, P2pError>)
      requires Valid()
      modifies this`offset
      ensures Valid() && Reads(ParseCounted(TakeHash, MAX_INV, old(Rest())), r, Rest())
    {
      hide ParseVarint, TakeHash;
      var count :- ReadVarint();
      if count > MAX_INV {
        return Err(CountLimit);
      }
      ghost var start := Rest();
      var items: seq<Hash> := [];
      for k := 0 to count
        invariant Valid()
        invariant ParseMany(TakeHash, count, [], start) == ParseMany(TakeHash, count - k, items, Rest())
      {
        var item :- ReadHash();
        items := items + [item];
      }
      r := Ok(items);
    }

    method ReadHeaderList() returns (r: Result<seq<BlockHeader>, P2pError>)
      requires Valid()
      modifies this`offset
      ensures Valid() && Reads(ParseCounted(TakeHeader, MAX_HEADERS, old(Rest())), r, Rest())
    {
      hide ParseVarint, TakeHeader;
      var count :- ReadVarint();
      if count > MAX_HEADERS {
        return Err(CountLimit);
      }
      ghost var start := Rest();
      var items: seq<BlockHeader> := [];
      for k := 0 to count
        invariant Valid()
        invariant ParseMany(TakeHeader, count, [], start) == ParseMany(TakeHeader, count - k, items, Rest())
      {
        var item :- ReadHeader();
        items := items + [item];
      }
      r := Ok(items);
    }

    method ReadBody(packetType: byte) returns (r: Result<Packet, P2pError>)
      requires Valid()
      modifies this`offset
      ensures Valid() && Reads(ParseBody(packetType, old(Rest())), r, Rest())
    {
      hide ParseVersion, ParseCounted;
      match packetType {
        case 0 =>
          var hello :- ReadVersion();
          return Ok(Version(hello));
        case 1 => return Ok(Verack);
        case 2 =>
          var nonce :- ReadNonce();
          return Ok(Ping(nonce));
        case 3 =>
          var nonce :- ReadNonce();
          return Ok(Pong(nonce));
        case 4 => return Ok(GetAddr);
        case 5 =>
          var items :- ReadAddressList();
          return Ok(Addr(items));
        case 10 =>
          var locator :- ReadHashList();
          var stop :- ReadHash();
          return Ok(GetHeaders(locator, stop));
        case 11 =>
          var items :- ReadHeaderList();
          return Ok(Headers(items));
        case 12 => return Ok(SendHeaders);
        case 26 =>
          var root :- ReadHash();
          var key :- ReadHash();
          return Ok(GetProof(root, key));
        case 27 =>
          var root :- ReadHash();
          var key :- ReadHash();
          ghost var left := Rest();
          assert left[..|left|] == left && left[|left|..] == [];
          var proof := ReadBytes(|data| - offset);
          return match proof case Err(e) => Err(e) case Ok(octets) => Ok(Proof(root, key, octets));
        case _ => return Ok(Unknown(packetType, data[offset..]));
      }
    }
  }

  /** Reads a whole payload; only an unknown packet may leave octets unread. */
  method ReadPayload(packetType: byte, payload: Bytes) returns (r: Result<Packet, P2pError>)
    ensures r == DecodePayload(packetType, payload)
  {
    hide ParseBody;
    var reader := new Reader(payload);
    var packet :- reader.ReadBody(packetType);
    r := if !packet.Unknown? && !reader.IsFinished() then Err(TrailingPayload) else Ok(packet);
  }

  /** Pushes a count, then every item. */
  method WriteCounted<T>(put: T -> Bytes, limit: u32, items: seq<T>) returns (r: Result<Bytes, P2pError>)
    ensures r == EncodeCounted(put, limit, items)
  {
    if |items| > limit {
      return Err(CountLimit);
    }
    var out := WriteVarint(|items|);
    ghost var count := out;
    assert items[0..] == items;
    for k := 0 to |items|
      invariant out + Flat(put, items[k..]) == count + Flat(put, items)
    {
      assert items[k..][1..] == items[k + 1..];
      Assoc(out, put(items[k]), Flat(put, items[k + 1..]));
      out := out + put(items[k]);
    }
    assert out + [] == out;
    r := Ok(out);
  }

  method WritePayload(p: Packet) returns (r: Result<Bytes, P2pError>)
    ensures r == EncodePayload(p)
  {
    hide EncodeVersion, EncodeCounted;
    match p {
      case Version(v) =>
        return if |v.agent| > MAX_AGENT_LEN then Err(AgentTooLong) else Ok(EncodeVersion(v));
      case Verack | GetAddr | SendHeaders => return Ok([]);
      case Ping(nonce) => return Ok(nonce);
      case Pong(nonce) => return Ok(nonce);
      case Addr(items) => r := WriteCounted(EncodeAddress, MAX_ADDR, items);
      case GetHeaders(locator, stop) =>
        var out :- WriteCounted(HashOctets, MAX_INV, locator);
        r := Ok(out + stop);
      case Headers(items) => r := WriteCounted(EncodeHeader, MAX_HEADERS, items);
      case GetProof(root, key) => return Ok(root + key);
      case Proof(root, key, proof) => return Ok(root + key + proof);
      case Unknown(_, payload) => return Ok(payload);
    }
  }
}
