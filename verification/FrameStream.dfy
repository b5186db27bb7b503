/**
 A stream of frames cut anywhere: what the decoder delivers, and exactly
 when it delivers everything.
 */
module FrameStream {
  import opened Bytes
  import opened Packets
  import opened Frames

  // ------------------------------------------------------------------ a frame

  ghost predicate Framed(magic: u32, p: Packet) { EncodeFrame(magic, p).Ok? }

  ghost function Frame(magic: u32, p: Packet): Bytes {
    if Framed(magic, p) then EncodeFrame(magic, p).value else []
  }

  lemma HeaderParts(magic: u32, code: byte, length: u32, rest: Bytes)
    ensures var s := FrameHeader(magic, code, length) + rest;
      && Number32(s[..4]) == magic && s[4] == code && Number32(s[5..9]) == length && s[9..] == rest
  {
    hide Little32, Number32;
    var s := FrameHeader(magic, code, length) + rest;
    assert s[..4] == Little32(magic) && s[5..9] == Little32(length);
    Number32OfLittle(magic);
    Number32OfLittle(length);
  }

  /** A frame is decoded, whatever follows it, to the packet a peer sees. */
  lemma FrameIsRead(magic: u32, p: Packet, rest: Bytes)
    requires Framed(magic, p)
    ensures DecodeFrame(magic, Frame(magic, p) + rest) == Ok(Some((Normal(p), |Frame(magic, p)|)))
  {
    hide FrameHeader, Number32, Code, EncodePayload, DecodePayload, Normal;
    var payload := EncodePayload(p).value;
    var s := FrameHeader(magic, Code(p), |payload|) + payload + rest;
    Assoc(FrameHeader(magic, Code(p), |payload|), payload, rest);
    HeaderParts(magic, Code(p), |payload|, payload + rest);
    assert s[9..9 + |payload|] == s[9..][..|payload|] == payload;
    PayloadRoundTrip(p);
  }

  /** Less than a whole frame is kept for later. */
  lemma FrameIsAwaited(magic: u32, p: Packet, n: nat)
    requires Framed(magic, p) && n < |Frame(magic, p)|
    ensures DecodeFrame(magic, Frame(magic, p)[..n]) == Ok(None)
  {
    hide FrameHeader, Number32, Code, EncodePayload, DecodePayload;
    var payload := EncodePayload(p).value;
    var s := FrameHeader(magic, Code(p), |payload|) + payload;
    HeaderParts(magic, Code(p), |payload|, payload);
    if n >= FRAME_HEADER_SIZE {
      assert s[..n][..4] == s[..4] && s[..n][5..9] == s[5..9];
    }
  }

  lemma FrameLength(magic: u32, p: Packet)
    requires Framed(magic, p)
    ensures FRAME_HEADER_SIZE <= |Frame(magic, p)| <= BUFFER_CAP
  {
  }

  // ----------------------------------------------------------------- a stream

  ghost predicate AllFramed(magic: u32, packets: seq<Packet>) {
    forall p :: p in packets ==> Framed(magic, p)
  }

  ghost function Stream(magic: u32, packets: seq<Packet>): Bytes {
    if packets == [] then [] else Frame(magic, packets[0]) + Stream(magic, packets[1..])
  }

  /** How many frames lie within the first `n` octets. */
  ghost function Whole(magic: u32, packets: seq<Packet>, n: nat): (k: nat)
    ensures k <= |packets|
  {
    if packets == [] || n < |Frame(magic, packets[0])| then 0
    else 1 + Whole(magic, packets[1..], n - |Frame(magic, packets[0])|)
  }

  /** How many of the first `n` octets belong to a frame not yet complete. */
  ghost function Pending(magic: u32, packets: seq<Packet>, n: nat): (m: nat)
    ensures m <= n
  {
    if packets == [] || n < |Frame(magic, packets[0])| then n
    else Pending(magic, packets[1..], n - |Frame(magic, packets[0])|)
  }

  /** The octets of the incomplete frame at the end of the first `n`. */
  ghost function Held(magic: u32, packets: seq<Packet>, n: nat): Bytes
    requires n <= |Stream(magic, packets)|
  {
    Stream(magic, packets)[n - Pending(magic, packets, n)..n]
  }

  lemma HeldLater(magic: u32, packets: seq<Packet>, n: nat)
    requires packets != [] && |Frame(magic, packets[0])| <= n <= |Stream(magic, packets)|
    ensures Held(magic, packets, n) == Held(magic, packets[1..], n - |Frame(magic, packets[0])|)
  {
    hide Frame;
  }

  /** The first `n` octets of a stream drain to their whole frames and leave the rest. */
  lemma {:induction false} DrainStart(magic: u32, packets: seq<Packet>, n: nat)
    requires AllFramed(magic, packets) && n <= |Stream(magic, packets)|
    ensures Drain(magic, Stream(magic, packets)[..n]) ==
            Ok((Mapped(Normal, packets[..Whole(magic, packets, n)]), Held(magic, packets, n)))
    decreases |packets|
  {
    hide DecodeFrame, Frame, Framed, Normal;
    var all := Stream(magic, packets);
    if packets == [] {
      NothingDrained(magic);
      assert all[..n] == [];
    } else {
      var first, later, k := Frame(magic, packets[0]), Stream(magic, packets[1..]), Whole(magic, packets, n);
      assert packets[0] in packets;
      FrameLength(magic, packets[0]);
      if n < |first| {
        assert all[..n] == first[..n] == Held(magic, packets, n);
        FrameIsAwaited(magic, packets[0], n);
        assert packets[..0] == [];
      } else {
        var m := n - |first|;
        assert all[..n] == first + later[..m];
        FrameIsRead(magic, packets[0], later[..m]);
        assert (first + later[..m])[|first|..] == later[..m];
        DrainStart(magic, packets[1..], m);
        assert packets[..k][0] == packets[0] && packets[..k][1..] == packets[1..][..k - 1];
        HeldLater(magic, packets, n);
      }
    }
  }

  /**
   The buffer after `m` octets, extended to `n` octets, drains to the frames
   completed in between and leaves the buffer that `n` octets leave.
   */
  lemma {:induction false} DrainBetween(magic: u32, packets: seq<Packet>, m: nat, n: nat)
    requires AllFramed(magic, packets) && m <= n <= |Stream(magic, packets)|
    ensures Whole(magic, packets, m) <= Whole(magic, packets, n)
    ensures Drain(magic, Stream(magic, packets)[m - Pending(magic, packets, m)..n]) ==
            Ok((Mapped(Normal, packets[Whole(magic, packets, m)..Whole(magic, packets, n)]), Held(magic, packets, n)))
    decreases |packets|
  {
    hide DecodeFrame, Frame, Framed, Normal, Drain, Mapped, Held, Stream, Whole, Pending;
    var all := Stream(magic, packets);
    if packets == [] || m < |Frame(magic, packets[0])| {
      NothingWhole(magic, packets, m);
      assert all[0..n] == all[..n];
      DrainStart(magic, packets, n);
      assert packets[0..Whole(magic, packets, n)] == packets[..Whole(magic, packets, n)];
    } else {
      FirstIsWhole(magic, packets, m);
      FirstIsWhole(magic, packets, n);
      var first, later := Frame(magic, packets[0]), Stream(magic, packets[1..]);
      var i, j := Whole(magic, packets, m), Whole(magic, packets, n);
      DrainBetween(magic, packets[1..], m - |first|, n - |first|);
      SliceLater(first, later, m - Pending(magic, packets, m), n);
      SliceLater([packets[0]], packets[1..], i, j);
      assert packets == [packets[0]] + packets[1..];
      HeldLater(magic, packets, n);
    }
  }

  lemma NothingWhole(magic: u32, packets: seq<Packet>, m: nat)
    requires packets == [] || m < |Frame(magic, packets[0])|
    ensures Whole(magic, packets, m) == 0 && Pending(magic, packets, m) == m
  {
    hide Frame;
  }

  lemma FirstIsWhole(magic: u32, packets: seq<Packet>, n: nat)
    requires packets != [] && |Frame(magic, packets[0])| <= n
    ensures Stream(magic, packets) == Frame(magic, packets[0]) + Stream(magic, packets[1..])
    ensures Whole(magic, packets, n) == 1 + Whole(magic, packets[1..], n - |Frame(magic, packets[0])|)
    ensures Pending(magic, packets, n) == Pending(magic, packets[1..], n - |Frame(magic, packets[0])|)
  {
    hide Frame;
  }

  lemma SliceLater<T>(first: seq<T>, later: seq<T>, i: nat, j: nat)
    requires |first| <= i <= j <= |first| + |later|
    ensures (first + later)[i..j] == later[i - |first|..j - |first|]
  {
  }

  // ---------------------------------------------------------- any cut of it

  ghost function Join(pieces: seq<Bytes>): Bytes {
    if pieces == [] then [] else pieces[0] + Join(pieces[1..])
  }

  /** Feeding the pieces in turn to a decoder, until one feed fails. */
  ghost function FeedAll(magic: u32, buffer: Bytes, pieces: seq<Bytes>): Result<(seq<Packet>, Bytes), P2pError>
    decreases |pieces|
  {
    if pieces == [] then Ok(([], buffer))
    else
      match FeedOutcome(magic, buffer, pieces[0])
      case (Err(e), _) => Err(e)
      case (Ok(packets), left) => Onto(packets, FeedAll(magic, left, pieces[1..]))
  }

  /** No piece meets a buffer it would push over the cap. */
  ghost predicate Fits(magic: u32, packets: seq<Packet>, sent: nat, pieces: seq<Bytes>)
    decreases |pieces|
  {
    pieces == [] ||
    (&& Pending(magic, packets, sent) + |pieces[0]| <= BUFFER_CAP
     && Fits(magic, packets, sent + |pieces[0]|, pieces[1..]))
  }

  lemma {:induction false} FeedFrom(magic: u32, packets: seq<Packet>, sent: nat, pieces: seq<Bytes>)
    requires AllFramed(magic, packets) && sent <= |Stream(magic, packets)|
    requires Stream(magic, packets)[sent..] == Join(pieces)
    ensures FeedAll(magic, Held(magic, packets, sent), pieces) ==
      if Fits(magic, packets, sent, pieces) then Ok((Mapped(Normal, packets[Whole(magic, packets, sent)..]), []))
      else Err(MessageTooLarge)
    decreases |pieces|
  {
    hide AllFramed, Normal, Stream, Whole, Pending, Held, FeedOutcome;
    var all := Stream(magic, packets);
    if pieces == [] {
      assert sent == |all|;
      NothingHeld(magic, packets);
    } else {
      var next := sent + |pieces[0]|;
      assert all[sent..][..|pieces[0]|] == pieces[0] && all[sent..][|pieces[0]|..] == all[next..] == Join(pieces[1..]);
      FeedStep(magic, packets, sent, pieces[0]);
      if Pending(magic, packets, sent) + |pieces[0]| <= BUFFER_CAP {
        FeedFrom(magic, packets, next, pieces[1..]);
        var i, j := Whole(magic, packets, sent), Whole(magic, packets, next);
        assert packets[i..] == packets[i..j] + packets[j..];
        MappedConcat(packets[i..j], packets[j..]);
      }
    }
  }

  lemma NothingHeld(magic: u32, packets: seq<Packet>)
    ensures var n := |Stream(magic, packets)|;
      Held(magic, packets, n) == [] && Mapped(Normal, packets[Whole(magic, packets, n)..]) == []
  {
    WholeStream(magic, packets);
  }

  /** One feed in the middle of a stream. */
  lemma FeedStep(magic: u32, packets: seq<Packet>, sent: nat, data: Bytes)
    requires AllFramed(magic, packets) && sent + |data| <= |Stream(magic, packets)|
    requires Stream(magic, packets)[sent..sent + |data|] == data
    ensures Whole(magic, packets, sent) <= Whole(magic, packets, sent + |data|)
    ensures Pending(magic, packets, sent) + |data| > BUFFER_CAP ==>
      FeedOutcome(magic, Held(magic, packets, sent), data) == (Err(MessageTooLarge), Held(magic, packets, sent))
    ensures Pending(magic, packets, sent) + |data| <= BUFFER_CAP ==>
      FeedOutcome(magic, Held(magic, packets, sent), data) ==
        (Ok(Mapped(Normal, packets[Whole(magic, packets, sent)..Whole(magic, packets, sent + |data|)])),
         Held(magic, packets, sent + |data|))
  {
    hide AllFramed, Normal, Drain, Stream, Whole, Pending, Mapped;
    var all := Stream(magic, packets);
    DrainBetween(magic, packets, sent, sent + |data|);
    assert Held(magic, packets, sent) + data == all[sent - Pending(magic, packets, sent)..sent + |data|];
  }

  lemma {:induction false} WholeStream(magic: u32, packets: seq<Packet>)
    ensures Whole(magic, packets, |Stream(magic, packets)|) == |packets|
    ensures Pending(magic, packets, |Stream(magic, packets)|) == 0
  {
    hide Frame;
    if packets != [] { WholeStream(magic, packets[1..]); }
  }

  lemma {:induction false} MappedConcat(a: seq<Packet>, b: seq<Packet>)
    ensures Mapped(Normal, a + b) == Mapped(Normal, a) + Mapped(Normal, b)
  {
    hide Normal;
    if a == [] {
      assert a + b == b;
    } else {
      MappedConcat(a[1..], b);
      assert (a + b)[1..] == a[1..] + b;
    }
  }

  lemma {:induction false} MappedNormalIff(packets: seq<Packet>)
    ensures Mapped(Normal, packets) == packets <==> forall p :: p in packets ==> Canonical(p)
  {
    hide Normal, Canonical;
    if packets != [] {
      MappedNormalIff(packets[1..]);
      NormalIffCanonical(packets[0]);
      assert packets == [packets[0]] + packets[1..];
    }
  }

  /**
   A stream of frames, cut anywhere and fed piece by piece, delivers the
   packets as a peer sees them and leaves nothing behind, unless some feed
   goes over the cap: that one is refused.
   */
  lemma StreamIsDelivered(magic: u32, packets: seq<Packet>, pieces: seq<Bytes>)
    requires AllFramed(magic, packets) && Join(pieces) == Stream(magic, packets)
    ensures FeedAll(magic, [], pieces) ==
      if Fits(magic, packets, 0, pieces) then Ok((Mapped(Normal, packets), [])) else Err(MessageTooLarge)
    ensures FeedAll(magic, [], pieces) == Ok((packets, [])) <==>
      Fits(magic, packets, 0, pieces) && forall p :: p in packets ==> Canonical(p)
  {
    hide Normal, Canonical, Frame, Framed;
    if packets != [] {
      assert packets[0] in packets;
      FrameLength(magic, packets[0]);
    }
    assert Stream(magic, packets)[0..] == Join(pieces);
    assert Held(magic, packets, 0) == [] && packets[0..] == packets;
    FeedFrom(magic, packets, 0, pieces);
    MappedNormalIff(packets);
  }

  lemma {:induction false} PendingIsPartial(magic: u32, packets: seq<Packet>, n: nat, longest: nat)
    requires n <= |Stream(magic, packets)|
    requires forall p :: p in packets ==> 0 < |Frame(magic, p)| <= longest
    ensures Pending(magic, packets, n) == 0 || Pending(magic, packets, n) < longest
    decreases |packets|
  {
    hide Frame;
    if packets != [] && n >= |Frame(magic, packets[0])| {
      PendingIsPartial(magic, packets[1..], n - |Frame(magic, packets[0])|, longest);
    }
  }

  /** Pieces that leave room for all but the last octet of the longest frame are never refused. */
  lemma {:induction false} SmallPiecesFit(magic: u32, packets: seq<Packet>, sent: nat, pieces: seq<Bytes>, longest: nat)
    requires sent + |Join(pieces)| <= |Stream(magic, packets)|
    requires forall p :: p in packets ==> 0 < |Frame(magic, p)| <= longest
    requires longest > 0 && forall d :: d in pieces ==> |d| + longest <= BUFFER_CAP + 1
    ensures Fits(magic, packets, sent, pieces)
    decreases |pieces|
  {
    hide Frame;
    if pieces != [] {
      assert pieces[0] in pieces;
      PendingIsPartial(magic, packets, sent, longest);
      SmallPiecesFit(magic, packets, sent + |pieces[0]|, pieces[1..], longest);
    }
  }

  /**
   The cap refuses some honest streams: the longest frame but one octet, and
   then that octet together with the frame after it.
   */
  lemma HonestStreamRefused(magic: u32)
    ensures var packets := [Unknown(UNKNOWN_PACKET, Zeros(MAX_MESSAGE)), Verack];
      var all := Stream(magic, packets);
      && AllFramed(magic, packets) && (forall p :: p in packets ==> Canonical(p))
      && FeedAll(magic, [], [all[..BUFFER_CAP - 1], all[BUFFER_CAP - 1..]]) == Err(MessageTooLarge)
  {
    var packets := [Unknown(UNKNOWN_PACKET, Zeros(MAX_MESSAGE)), Verack];
    var all := Stream(magic, packets);
    assert packets[1..] == [Verack] && packets[1..][1..] == [];
    assert |Frame(magic, packets[0])| == BUFFER_CAP && |Frame(magic, Verack)| == FRAME_HEADER_SIZE;
    var a, b := all[..BUFFER_CAP - 1], all[BUFFER_CAP - 1..];
    var pieces: seq<Bytes> := [a, b];
    assert pieces[1..][1..] == [] && pieces[1..][0] == b;
    assert Join(pieces[1..]) == b + [] == b;
    assert Join(pieces) == a + b == all;
    StreamIsDelivered(magic, packets, pieces);
    assert !Fits(magic, packets, |a|, pieces[1..]);
  }
}
