/** Arbitrary octets on a stream: feeding them in pieces, feeding them at once, and what one bad frame does. */
module FrameFaults {
  import opened Bytes
  import opened Packets
  import opened Frames
  import opened FrameStream

  /** Once the octets so far settle what the first frame is, or that it is bad, more octets change nothing. */
  lemma DecisionStands(magic: u32, data: Bytes, more: Bytes)
    requires DecodeFrame(magic, data) != Ok(None)
    ensures DecodeFrame(magic, data + more) == DecodeFrame(magic, data)
  {
    hide DecodePayload, Number32;
    var all := data + more;
    assert all[..4] == data[..4] && all[4] == data[4] && all[5..9] == data[5..9];
    var length := Number32(data[5..9]);
    if FRAME_HEADER_SIZE + length <= |data| {
      assert all[FRAME_HEADER_SIZE..FRAME_HEADER_SIZE + length] == data[FRAME_HEADER_SIZE..FRAME_HEADER_SIZE + length];
    }
  }

  /** Draining more octets goes on where draining fewer stopped, and stops at the same bad frame. */
  lemma {:induction false} DrainGoesOn(magic: u32, data: Bytes, more: Bytes)
    ensures Drain(magic, data + more) ==
      match Drain(magic, data)
      case Err(e) => Err(e)
      case Ok((packets, rest)) => Onto(packets, Drain(magic, rest + more))
    decreases |data|
  {
    hide DecodeFrame;
    var step := DecodeFrame(magic, data);
    if step == Ok(None) {
      OntoNone(Drain(magic, data + more));
    } else {
      DecisionStands(magic, data, more);
      if step.Ok? {
        var (packet, used) := step.value.value;
        assert (data + more)[used..] == data[used..] + more;
        DrainGoesOn(magic, data[used..], more);
        if Drain(magic, data[used..]).Ok? {
          var (packets, rest) := Drain(magic, data[used..]).value;
          OntoMore(packet, packets, Drain(magic, rest + more));
        }
      }
    }
  }

  lemma OntoMore(p: Packet, packets: seq<Packet>, r: Result<(seq<Packet>, Bytes), P2pError>)
    ensures Onto([p] + packets, r) == Onto([p], Onto(packets, r))
  {
    if r.Ok? { assert [p] + packets + r.value.0 == [p] + (packets + r.value.0); }
  }

  /** No frame can be taken from these octets yet: what a decoder holds between feeds. */
  ghost predicate Settled(magic: u32, buffer: Bytes) {
    Drain(magic, buffer) == Ok(([], buffer))
  }

  lemma {:induction false} DrainedIsSettled(magic: u32, data: Bytes)
    ensures Drain(magic, data).Ok? ==> Settled(magic, Drain(magic, data).value.1)
    decreases |data|
  {
    hide DecodeFrame;
    var step := DecodeFrame(magic, data);
    if step.Ok? && step.value.Some? {
      DrainedIsSettled(magic, data[step.value.value.1..]);
    }
  }

  /** No feed in turn, up to the first that fails, is over the cap. */
  ghost predicate NeverOverCap(magic: u32, buffer: Bytes, pieces: seq<Bytes>)
    decreases |pieces|
  {
    pieces == [] ||
    (|buffer| + |pieces[0]| <= BUFFER_CAP &&
     match FeedOutcome(magic, buffer, pieces[0])
     case (Err(_), _) => true
     case (Ok(_), left) => NeverOverCap(magic, left, pieces[1..]))
  }

  /**
   Any octets at all, cut anywhere: as long as no feed is over the cap, feeding
   the pieces ends as feeding them at once would, with the same packets and the
   same octets left over, or with the fault of the same first bad frame.
   */
  lemma {:induction false} PiecesAreAsWhole(magic: u32, buffer: Bytes, pieces: seq<Bytes>)
    requires Settled(magic, buffer) && NeverOverCap(magic, buffer, pieces)
    ensures FeedAll(magic, buffer, pieces) == Drain(magic, buffer + Join(pieces))
    decreases |pieces|
  {
    hide Drain;
    if pieces == [] {
      assert buffer + [] == buffer;
    } else {
      var later := Join(pieces[1..]);
      Assoc(buffer, pieces[0], later);
      DrainGoesOn(magic, buffer + pieces[0], later);
      DrainedIsSettled(magic, buffer + pieces[0]);
      if Drain(magic, buffer + pieces[0]).Ok? {
        PiecesAreAsWhole(magic, Drain(magic, buffer + pieces[0]).value.1, pieces[1..]);
      }
    }
  }

  /** The packets a caller has in hand when the feeding ends, well or badly. */
  ghost function Delivered(magic: u32, buffer: Bytes, pieces: seq<Bytes>): seq<Packet>
    decreases |pieces|
  {
    if pieces == [] then []
    else
      match FeedOutcome(magic, buffer, pieces[0])
      case (Err(_), _) => []
      case (Ok(packets), left) => packets + Delivered(magic, left, pieces[1..])
  }

  /** The packets before the first bad or incomplete frame. */
  ghost function GoodFrames(magic: u32, data: Bytes): seq<Packet>
    decreases |data|
  {
    match DecodeFrame(magic, data)
    case Err(_) => []
    case Ok(None) => []
    case Ok(Some((packet, used))) => [packet] + GoodFrames(magic, data[used..])
  }

  lemma {:induction false} GoodFramesGoOn(magic: u32, data: Bytes, more: Bytes)
    ensures match Drain(magic, data)
            case Err(_) => true
            case Ok((packets, rest)) => GoodFrames(magic, data + more) == packets + GoodFrames(magic, rest + more)
    decreases |data|
  {
    hide DecodeFrame;
    var step := DecodeFrame(magic, data);
    if step.Ok? && step.value.Some? {
      DecisionStands(magic, data, more);
      var (packet, used) := step.value.value;
      assert (data + more)[used..] == data[used..] + more;
      GoodFramesGoOn(magic, data[used..], more);
    }
  }

  /** Before a fault a caller gets a beginning of the good frames, in order; without one, all of them. */
  lemma {:induction false} DeliveredIsGood(magic: u32, buffer: Bytes, pieces: seq<Bytes>)
    ensures Delivered(magic, buffer, pieces) <= GoodFrames(magic, buffer + Join(pieces))
    ensures Settled(magic, buffer) && FeedAll(magic, buffer, pieces).Ok? ==>
      Delivered(magic, buffer, pieces) == GoodFrames(magic, buffer + Join(pieces))
    decreases |pieces|
  {
    hide Drain, GoodFrames;
    if pieces == [] {
      if Settled(magic, buffer) { SettledHasNoFrames(magic, buffer); }
      assert buffer + [] == buffer;
    } else {
      var later := Join(pieces[1..]);
      Assoc(buffer, pieces[0], later);
      GoodFramesGoOn(magic, buffer + pieces[0], later);
      DrainedIsSettled(magic, buffer + pieces[0]);
      if FeedOutcome(magic, buffer, pieces[0]).0.Ok? {
        DeliveredIsGood(magic, Drain(magic, buffer + pieces[0]).value.1, pieces[1..]);
      }
    }
  }

  lemma SettledHasNoFrames(magic: u32, buffer: Bytes)
    requires Settled(magic, buffer)
    ensures GoodFrames(magic, buffer) == []
  {
    hide DecodeFrame;
  }

  /** The buffer holds a bad frame after nothing but whole ones. */
  ghost predicate Stuck(magic: u32, buffer: Bytes, fault: P2pError) {
    Drain(magic, buffer) == Err(fault)
  }

  /** A bad frame stays: from the feed that meets it on, every feed fails, and the decoder never gets past it. */
  lemma BadFrameSticks(magic: u32, buffer: Bytes, data: Bytes)
    ensures var (r, left) := FeedOutcome(magic, buffer, data);
      && (r.Err? && |buffer| + |data| <= BUFFER_CAP ==> Stuck(magic, left, r.error))
      && (forall fault :: Stuck(magic, buffer, fault) ==>
            Stuck(magic, left, fault) && (r == Err(fault) || r == Err(MessageTooLarge)))
  {
    hide Drain;
    DrainGoesOn(magic, buffer, data);
  }
}
