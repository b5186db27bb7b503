/**
 Frames of the peer protocol and the decoder that takes them from a stream
 cut anywhere.
 */
module Frames {
  import opened Bytes
  import opened Packets
  import PacketCodec

  const FRAME_HEADER_SIZE := 9
  const MAX_MESSAGE := 8_000_000

  /** The most the decoder holds: one frame of the largest size. */
  const BUFFER_CAP := MAX_MESSAGE + FRAME_HEADER_SIZE

  function FrameHeader(magic: u32, code: byte, length: u32): (s: Bytes)
    ensures |s| == FRAME_HEADER_SIZE
  {
    Little32(magic) + [code] + Little32(length)
  }

  function EncodeFrame(magic: u32, p: Packet): Result<Bytes, P2pError> {
    var payload :- EncodePayload(p);
    if |payload| > MAX_MESSAGE then Err(MessageTooLarge)
    else Ok(FrameHeader(magic, Code(p), |payload|) + payload)
  }

  function DecodeFrame(magic: u32, data: Bytes): (r: Result<Option<(Packet, nat)>, P2pError>)
    ensures r.Ok? && r.value.Some? ==> FRAME_HEADER_SIZE <= r.value.value.1 <= |data|
  {
    if |data| < FRAME_HEADER_SIZE then Ok(None)
    else if Number32(data[..4]) != magic then Err(InvalidMagic)
    else
      var length := Number32(data[5..9]);
      if length > MAX_MESSAGE then Err(MessageTooLarge)
      else if |data| < FRAME_HEADER_SIZE + length then Ok(None)
      else
        var packet :- DecodePayload(data[4], data[FRAME_HEADER_SIZE..FRAME_HEADER_SIZE + length]);
        Ok(Some((packet, FRAME_HEADER_SIZE + length)))
  }

  /** Every complete frame at the front of `data`, and the octets that are left. */
  function Drain(magic: u32, data: Bytes): Result<(seq<Packet>, Bytes), P2pError>
    decreases |data|
  {
    var step :- DecodeFrame(magic, data);
    match step
    case None => Ok(([], data))
    case Some((packet, used)) =>
      var (packets, rest) :- Drain(magic, data[used..]);
      Ok(([packet] + packets, rest))
  }

  /**
   One feed: what it returns and what it leaves in the buffer. Over the cap
   nothing changes; after an undecodable frame the octets stay, and so does
   every complete frame before them.
   */
  function FeedOutcome(magic: u32, buffer: Bytes, data: Bytes): (Result<seq<Packet>, P2pError>, Bytes) {
    if |buffer| + |data| > BUFFER_CAP then (Err(MessageTooLarge), buffer)
    else
      match Drain(magic, buffer + data)
      case Err(e) => (Err(e), buffer + data)
      case Ok((packets, rest)) => (Ok(packets), rest)
  }

  class FrameDecoder {
    const magic: u32
    var buffer: Bytes

    constructor (magic: u32)
      ensures this.magic == magic && buffer == []
    {
      this.magic := magic;
      buffer := [];
    }

    method ReadFrame(data: Bytes) returns (r: Result<Option<(Packet, nat)>, P2pError>)
      ensures r == DecodeFrame(magic, data)
    {
      if |data| < FRAME_HEADER_SIZE {
        return Ok(None);
      }
      if Number32(data[..4]) != magic {
        return Err(InvalidMagic);
      }
      var length := Number32(data[5..9]);
      if length > MAX_MESSAGE {
        return Err(MessageTooLarge);
      }
      if |data| < FRAME_HEADER_SIZE + length {
        return Ok(None);
      }
      var packet :- PacketCodec.ReadPayload(data[4], data[FRAME_HEADER_SIZE..FRAME_HEADER_SIZE + length]);
      r := Ok(Some((packet, FRAME_HEADER_SIZE + length)));
    }

    method Feed(data: Bytes) returns (r: Result<seq<Packet>, P2pError>)
      modifies this`buffer
      ensures (r, buffer) == FeedOutcome(magic, old(buffer), data)
    {
      if |buffer| + |data| > BUFFER_CAP {
        return Err(MessageTooLarge);
      }
      hide DecodeFrame;
      buffer := buffer + data;
      var packets: seq<Packet> := [];
      var consumed := 0;
      assert buffer[0..] == buffer;
      OntoNone(Drain(magic, buffer));
      while true
        invariant consumed <= |buffer| && buffer == old(buffer) + data
        invariant Drain(magic, buffer) == Onto(packets, Drain(magic, buffer[consumed..]))
        decreases |buffer| - consumed
      {
        var step :- ReadFrame(buffer[consumed..]);
        if step.None? {
          break;
        }
        var (packet, used) := step.value;
        assert buffer[consumed..][used..] == buffer[consumed + used..];
        OntoOne(packets, packet, Drain(magic, buffer[consumed + used..]));
        consumed := consumed + used;
        packets := packets + [packet];
        if consumed == |buffer| {
          assert buffer[consumed..] == [];
          NothingDrained(magic);
          break;
        }
      }
      assert Drain(magic, buffer[consumed..]) == Ok(([], buffer[consumed..]));
      assert packets + [] == packets;
      if consumed > 0 {
        buffer := buffer[consumed..];
      }
      r := Ok(packets);
    }
  }

  lemma NothingDrained(magic: u32)
    ensures Drain(magic, []) == Ok(([], []))
  {
  }

  lemma OntoNone(r: Result<(seq<Packet>, Bytes), P2pError>)
    ensures Onto([], r) == r
  {
    if r.Ok? {
      assert [] + r.value.0 == r.value.0;
    }
  }

  /** An outcome of draining, with packets decoded before it put in front. */
  ghost function Onto(packets: seq<Packet>, r: Result<(seq<Packet>, Bytes), P2pError>)
    : Result<(seq<Packet>, Bytes), P2pError>
  {
    match r
    case Err(e) => Err(e)
    case Ok((more, rest)) => Ok((packets + more, rest))
  }

  lemma OntoOne(packets: seq<Packet>, p: Packet, r: Result<(seq<Packet>, Bytes), P2pError>)
    ensures Onto(packets, Onto([p], r)) == Onto(packets + [p], r)
  {
    if r.Ok? {
      assert packets + ([p] + r.value.0) == packets + [p] + r.value.0;
    }
  }
}
