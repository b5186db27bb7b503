/**
 Why a packet or a frame is refused: from the sizes and counts in its octets,
 every error and no other.
 */
module PacketFaults {
  import opened Bytes
  import opened Packets
  import opened Frames
  import opened PacketLayout

  /** The octets end before the number does, or the number has a shorter form. */
  ghost predicate VarintFails(s: Bytes, e: P2pError) {
    if s == [] then e == Parse(UnexpectedEof)
    else if s[0] <= 252 then false
    else
      var size := if s[0] == 253 then 3 else if s[0] == 254 then 5 else 9;
      if |s| < size then e == Parse(UnexpectedEof)
      else
        && e == NonCanonicalVarint
        && (s[0] == 253 ==> Little16At(s, 1) < 253) && (s[0] == 254 ==> Little32At(s, 1) < 0x1_0000)
        && (s[0] == 255 ==> Little64At(s, 1) < 0x1_0000_0000)
  }

  /** A payload that must be of one size is not. */
  ghost predicate SizeFails(s: Bytes, size: nat, e: P2pError) {
    (|s| < size && e == Parse(UnexpectedEof)) || (|s| > size && e == TrailingPayload)
  }

  /** The count fails, or it is over the limit, or the items it announces and what follows them are not all there is. */
  ghost predicate ListFails(s: Bytes, limit: nat, each: nat, more: nat, e: P2pError) {
    || VarintFails(s, e)
    || exists n: nat, start: nat ::
         && VarintStands(s, n, start)
         && if n > limit then e == CountLimit else SizeFails(s, start + each * n + more, e)
  }

  ghost predicate HelloFails(s: Bytes, e: P2pError) {
    if |s| < 117 || |s| < 117 + s[116] as int then e == Parse(UnexpectedEof)
    else if !IsUtf8(s[117..117 + s[116] as int]) then e == Parse(InvalidDnsLabel)
    else SizeFails(s, 122 + s[116] as int, e)
  }

  ghost predicate PayloadFails(packetType: byte, s: Bytes, e: P2pError) {
    match packetType
    case 0 => HelloFails(s, e)
    case 1 => SizeFails(s, 0, e)
    case 2 => SizeFails(s, 8, e)
    case 3 => SizeFails(s, 8, e)
    case 4 => SizeFails(s, 0, e)
    case 5 => ListFails(s, 1_000, 88, 0, e)
    case 10 => ListFails(s, 50_000, 32, 32, e)
    case 11 => ListFails(s, 2_000, 236, 0, e)
    case 12 => SizeFails(s, 0, e)
    case 26 => SizeFails(s, 64, e)
    case 27 => |s| < 64 && e == Parse(UnexpectedEof)
    case other => false
  }

  lemma VarintFailsIff(s: Bytes, e: P2pError)
    ensures ParseVarint(s) == Err(e) <==> VarintFails(s, e)
  {
    hide Take8, Take16, Take32, Take64, Little16At, Little32At, Little64At;
    assert s[0..] == s;
    NumbersAt(s, 0);
    if s != [] { NumbersAt(s, 1); }
  }

  /** What a counted list gives when its number can be read, and that this is the only way for the number to stand. */
  lemma ListRead<T>(item: Bytes -> Parsed<T>, limit: nat, s: Bytes) returns (n: nat, start: nat)
    requires ParseVarint(s).Ok?
    ensures start <= |s| && VarintStands(s, n, start)
    ensures forall m: nat, at: nat :: VarintStands(s, m, at) ==> m == n && at == start
    ensures ParseCounted(item, limit, s) == if n > limit then Err(CountLimit) else ParseMany(item, n, [], s[start..])
  {
    hide ParseVarint, VarintStands, ParseMany;
    VarintRest(s);
    n, start := ParseVarint(s).value.0, |s| - |ParseVarint(s).value.1|;
    VarintIff(s, n, start);
    forall m: nat, at: nat | VarintStands(s, m, at) ensures m == n && at == start {
      VarintFits(s, m, at);
      VarintIff(s, m, at);
      assert |s[at..]| == |s[start..]|;
    }
  }

  lemma VarintDoesOne(s: Bytes)
    ensures ParseVarint(s).Err? ==> forall m: nat, at: nat :: !VarintStands(s, m, at)
  {
    hide ParseVarint, VarintStands;
    forall m: nat, at: nat | VarintStands(s, m, at) ensures ParseVarint(s).Ok? {
      VarintFits(s, m, at);
      VarintIff(s, m, at);
    }
  }

  lemma AddrFailsIff(s: Bytes, e: P2pError)
    ensures DecodePayload(5, s) == Err(e) <==> ListFails(s, 1_000, 88, 0, e)
  {
    hide ParseVarint, VarintStands, VarintFails, ParseAddress, AddressesIn, ParseMany, ParseCounted;
    VarintFailsIff(s, e);
    VarintDoesOne(s);
    if ParseVarint(s).Ok? {
      var n, start := ListRead(ParseAddress, MAX_ADDR, s);
      AddressesAt(s, start, n, []);
      if start + 88 * n <= |s| { assert s[start + 88 * n..] == [] <==> |s| == start + 88 * n; }
    } else {
      CountFails(ParseAddress, MAX_ADDR, s);
    }
  }

  lemma CountFails<T>(item: Bytes -> Parsed<T>, limit: nat, s: Bytes)
    requires ParseVarint(s).Err?
    ensures ParseCounted(item, limit, s) == Err(ParseVarint(s).error)
  {
  }

  lemma HeadersFailIff(s: Bytes, e: P2pError)
    ensures DecodePayload(11, s) == Err(e) <==> ListFails(s, 2_000, 236, 0, e)
  {
    hide ParseVarint, VarintStands, VarintFails, TakeHeader, HeadersIn, ParseMany, ParseCounted;
    VarintFailsIff(s, e);
    VarintDoesOne(s);
    if ParseVarint(s).Ok? {
      var n, start := ListRead(TakeHeader, MAX_HEADERS, s);
      HeadersAt(s, start, n, []);
      if start + 236 * n <= |s| { assert s[start + 236 * n..] == [] <==> |s| == start + 236 * n; }
    } else {
      CountFails(TakeHeader, MAX_HEADERS, s);
    }
  }

  lemma GetHeadersFailsIff(s: Bytes, e: P2pError)
    ensures DecodePayload(10, s) == Err(e) <==> ListFails(s, 50_000, 32, 32, e)
  {
    hide ParseVarint, VarintStands, VarintFails, TakeHash, HashesIn, ParseMany, ParseCounted;
    VarintFailsIff(s, e);
    VarintDoesOne(s);
    if ParseVarint(s).Ok? {
      var n, start := ListRead(TakeHash, MAX_INV, s);
      HashesAt(s, start, n, []);
      var at := start + 32 * n;
      if at <= |s| {
        HashAt(s, at);
        if at + 32 <= |s| { assert s[at + 32..] == [] <==> |s| == at + 32; }
      }
    } else {
      CountFails(TakeHash, MAX_INV, s);
    }
  }

  lemma HelloFailsIff(s: Bytes, e: P2pError)
    ensures DecodePayload(0, s) == Err(e) <==> HelloFails(s, e)
  {
    hide ParseVersion, IsUtf8, VersionIn;
    if |s| < 117 || |s| < 122 + s[116] as int {
      VersionIsShort(s);
    } else {
      var n := s[116] as int;
      VersionRead(s, n);
      assert s[122 + n..] == [] <==> |s| == 122 + n;
    }
  }

  lemma FixedFailsIff(packetType: byte, s: Bytes, e: P2pError)
    requires packetType !in {0, 5, 10, 11}
    ensures DecodePayload(packetType, s) == Err(e) <==> PayloadFails(packetType, s, e)
  {
    hide ParseVersion, TakeHash, TakeNonce, HelloFails, ListFails;
    assert s[0..] == s;
    NonceAt(s, 0);
    HashAt(s, 0);
    if |s| >= 8 { assert s[8..] == [] <==> |s| == 8; }
    if |s| >= 32 { HashAt(s, 32); }
    if |s| >= 64 { assert s[64..] == [] <==> |s| == 64; }
  }

  /** A payload is refused exactly for these reasons. */
  lemma PayloadFailsIff(packetType: byte, s: Bytes, e: P2pError)
    ensures DecodePayload(packetType, s) == Err(e) <==> PayloadFails(packetType, s, e)
  {
    hide DecodePayload, HelloFails, ListFails;
    if packetType == 0 {
      HelloFailsIff(s, e);
    } else if packetType == 5 {
      AddrFailsIff(s, e);
    } else if packetType == 10 {
      GetHeadersFailsIff(s, e);
    } else if packetType == 11 {
      HeadersFailIff(s, e);
    } else {
      FixedFailsIff(packetType, s, e);
    }
  }

  // -------------------------------------------------------------------- frames

  /** Wrong magic, or too great a length, or a whole payload that is refused. */
  ghost predicate FrameFails(magic: u32, data: Bytes, e: P2pError) {
    && |data| >= 9
    && if Little32At(data, 0) != magic then e == InvalidMagic
       else if Little32At(data, 5) > 8_000_000 then e == MessageTooLarge
       else |data| >= 9 + Little32At(data, 5) && PayloadFails(data[4], data[9..9 + Little32At(data, 5)], e)
  }

  lemma FrameFailsIff(magic: u32, data: Bytes, e: P2pError)
    ensures DecodeFrame(magic, data) == Err(e) <==> FrameFails(magic, data, e)
  {
    hide DecodePayload, PayloadFails, Number32;
    if |data| >= 9 {
      Number32Is(data[..4]);
      Number32Is(data[5..9]);
      assert Little32At(data[..4], 0) == Little32At(data, 0) && Little32At(data[5..9], 0) == Little32At(data, 5);
      var length := Little32At(data, 5);
      if 9 + length <= |data| { PayloadFailsIff(data[4], data[9..9 + length], e); }
    }
  }

  /** A packet with too long a text or too many items is not written. */
  ghost predicate WriteFails(p: Packet, e: P2pError) {
    match p
    case Version(v) => |v.agent| > 255 && e == AgentTooLong
    case Addr(items) => |items| > 1_000 && e == CountLimit
    case GetHeaders(locator, _) => |locator| > 50_000 && e == CountLimit
    case Headers(items) => |items| > 2_000 && e == CountLimit
    case _ => false
  }

  lemma WriteFailsIff(magic: u32, p: Packet, e: P2pError)
    ensures EncodePayload(p) == Err(e) <==> WriteFails(p, e)
    ensures EncodeFrame(magic, p) == Err(e) <==>
      || WriteFails(p, e)
      || (EncodePayload(p).Ok? && |EncodePayload(p).value| > 8_000_000 && e == MessageTooLarge)
  {
    hide EncodeVersion, Flat, FrameHeader;
  }

  /** Good frames one behind the other, and behind them one that fails. */
  ghost predicate FramesFail(magic: u32, data: Bytes, packets: seq<Packet>, e: P2pError)
    decreases |packets|
  {
    if packets == [] then FrameFails(magic, data, e)
    else
      exists used: nat ::
        && FrameStands(magic, data, packets[0], used) && used <= |data|
        && FramesFail(magic, data[used..], packets[1..], e)
  }

  lemma {:induction false} FailingFramesFound(magic: u32, data: Bytes) returns (packets: seq<Packet>)
    requires Drain(magic, data).Err?
    ensures FramesFail(magic, data, packets, Drain(magic, data).error)
    decreases |data|
  {
    hide DecodeFrame, FrameStands, FrameFails;
    packets := [];
    if DecodeFrame(magic, data).Err? {
      FrameFailsIff(magic, data, DecodeFrame(magic, data).error);
    } else {
      var (packet, used) := DecodeFrame(magic, data).value.value;
      FrameIff(magic, data, packet, used);
      var later := FailingFramesFound(magic, data[used..]);
      packets := [packet] + later;
      assert packets[1..] == later;
    }
  }

  lemma {:induction false} FailingFramesFail(magic: u32, data: Bytes, packets: seq<Packet>, e: P2pError)
    requires FramesFail(magic, data, packets, e)
    ensures Drain(magic, data) == Err(e)
    decreases |packets|
  {
    hide DecodeFrame, FrameStands, FrameFails;
    if packets == [] {
      FrameFailsIff(magic, data, e);
    } else {
      var used: nat :| FrameStands(magic, data, packets[0], used) && used <= |data| &&
                       FramesFail(magic, data[used..], packets[1..], e);
      FrameIff(magic, data, packets[0], used);
      FailingFramesFail(magic, data[used..], packets[1..], e);
    }
  }

  /**
   Feeding fails exactly if there would be too much to keep, and then nothing
   changes, or if a frame fails behind good ones, and then all octets stay.
   */
  lemma FeedFailsIff(magic: u32, buffer: Bytes, data: Bytes, e: P2pError)
    ensures FeedOutcome(magic, buffer, data).0 == Err(e) <==>
      || (|buffer| + |data| > 8_000_009 && e == MessageTooLarge)
      || (|buffer| + |data| <= 8_000_009 && exists packets :: FramesFail(magic, buffer + data, packets, e))
    ensures FeedOutcome(magic, buffer, data).0.Err? ==>
      FeedOutcome(magic, buffer, data).1 == if |buffer| + |data| > 8_000_009 then buffer else buffer + data
  {
    hide Drain, FramesFail;
    if Drain(magic, buffer + data) == Err(e) { var packets := FailingFramesFound(magic, buffer + data); }
    if packets :| FramesFail(magic, buffer + data, packets, e) {
      FailingFramesFail(magic, buffer + data, packets, e);
    }
  }
}
