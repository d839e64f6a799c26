/** Packetizing encoded frames into RTP packets and rebuilding frames from them. */
module RtpHandling {
  import opened Common
  import opened Serial
  import opened Rtp
  import opened AnnexB
  import opened Media
  import opened H264Payload

  const DEFAULT_MAX_RTP_PAYLOAD: nat := 1200

  // ---- Sending: specification ----------------------------------------------------

  function PacketOf(payloadType: u8, ssrc: u32, timestamp: u32, sequenceNumber: u16, marker: bool,
                    payload: seq<u8>): RtpPacket {
    RtpPacket(VERSION, false, false, marker, payloadType, sequenceNumber, timestamp, ssrc, [], payload)
  }

  /** Payloads as the consecutive packets of one unit, the last one marked. */
  function Stamp(payloadType: u8, ssrc: u32, timestamp: u32, first: u16, payloads: seq<Bytes>): (ps: seq<RtpPacket>)
    ensures |ps| == |payloads|
    ensures forall k :: 0 <= k < |ps| ==>
              ps[k] == PacketOf(payloadType, ssrc, timestamp, SeqAdd(first, k), k == |payloads| - 1, payloads[k])
  {
    seq(|payloads|, k requires 0 <= k < |payloads| =>
      PacketOf(payloadType, ssrc, timestamp, SeqAdd(first, k), k == |payloads| - 1, payloads[k]))
  }

  lemma NalsAreNonEmpty(data: Bytes)
    ensures NonEmpty(Nals(data))
  {
    FoundUnitsAreNals(data);
  }

  /** What `packetize` returns for a frame when its next sequence number is `first`. */
  function Packetized(frame: EncodedFrame, payloadType: u8, ssrc: u32, maxPayload: nat, first: u16)
    : Result<seq<RtpPacket>>
    requires maxPayload > 0
  {
    if frame.payload == [] then Err(InvalidArgument)
    else if frame.kind == Video then
      if frame.videoCodec != H264 then Err(Unsupported)
      else
        var nals := Nals(frame.payload);
        NalsAreNonEmpty(frame.payload);
        if nals == [] then Err(Protocol)
        else Ok(Stamp(payloadType, ssrc, frame.rtpTimestamp, first, AllPayloads(nals, maxPayload)))
    else if frame.audioCodec != Opus then Err(Unsupported)
    else Ok(Stamp(payloadType, ssrc, frame.rtpTimestamp, first, [frame.payload]))
  }

  // ---- Sending: the handler ------------------------------------------------------

  ghost predicate Stamped(packets: seq<RtpPacket>, payloadType: u8, ssrc: u32, timestamp: u32, first: u16,
                          payloads: seq<Bytes>) {
    && |packets| == |payloads|
    && forall k :: 0 <= k < |packets| ==>
         packets[k] == PacketOf(payloadType, ssrc, timestamp, SeqAdd(first, k), false, payloads[k])
  }

  /** The packets made so far and the number the next one gets. */
  ghost predicate Emitted(packets: seq<RtpPacket>, payloadType: u8, ssrc: u32, timestamp: u32, first: u16,
                          payloads: seq<Bytes>, next: u16) {
    Stamped(packets, payloadType, ssrc, timestamp, first, payloads) && next == SeqAdd(first, |payloads|)
  }

  lemma MarkLast(packets: seq<RtpPacket>, payloadType: u8, ssrc: u32, timestamp: u32, first: u16,
                 payloads: seq<Bytes>)
    requires packets != [] && Stamped(packets, payloadType, ssrc, timestamp, first, payloads)
    ensures var n := |packets| - 1;
            packets[n := packets[n].(marker := true)] == Stamp(payloadType, ssrc, timestamp, first, payloads)
  {
  }

  lemma FragmentTaken(nal: Bytes, pos: nat, chunk: nat, isFirst: bool)
    requires 0 < pos < |nal| && chunk > 0
    ensures var take := Min(chunk, |nal| - pos);
            var isLast := pos + take >= |nal|;
            Fragments(nal[0], nal[pos..], chunk, isFirst)
            == [FragmentPayload(nal[0], isFirst, isLast, nal[pos..pos + take])]
               + (if isLast then [] else Fragments(nal[0], nal[pos + take..], chunk, false))
  {
    var take := Min(chunk, |nal| - pos);
    assert nal[pos..][take..] == nal[pos + take..] && nal[pos..][..take] == nal[pos..pos + take];
    if pos + take >= |nal| {
      var last := FragmentPayload(nal[0], isFirst, true, nal[pos..pos + take]);
      assert nal[pos..] == nal[pos..pos + take] && [last] + [] == [last];
    }
  }

  /** What is left to emit of a unit once `all` has been, from position `pos` on. */
  ghost predicate GoesOn(total: seq<Bytes>, all: seq<Bytes>, nal: Bytes, pos: nat, chunk: nat, isFirst: bool)
    requires 0 < pos <= |nal| && chunk > 0
  {
    total == all + if pos < |nal| then Fragments(nal[0], nal[pos..], chunk, isFirst) else []
  }

  lemma FragmentsBegin(sent: seq<Bytes>, nal: Bytes, maxPayload: nat)
    requires 0 < maxPayload < |nal|
    ensures GoesOn(sent + Payloads(nal, maxPayload), sent, nal, 1, if maxPayload > 2 then maxPayload - 2 else 1, true)
  {
  }

  lemma NothingGoesOn(total: seq<Bytes>, all: seq<Bytes>, nal: Bytes, chunk: nat, isFirst: bool)
    requires nal != [] && chunk > 0 && GoesOn(total, all, nal, |nal|, chunk, isFirst)
    ensures total == all
  {
    assert all + [] == all;
  }

  lemma FragmentSent(total: seq<Bytes>, all: seq<Bytes>, nal: Bytes, pos: nat, chunk: nat, isFirst: bool)
    requires 0 < pos < |nal| && chunk > 0 && GoesOn(total, all, nal, pos, chunk, isFirst)
    ensures var take := Min(chunk, |nal| - pos);
            var isLast := pos + take >= |nal|;
            var payload := FragmentPayload(nal[0], isFirst, isLast, nal[pos..pos + take]);
            GoesOn(total, all + [payload], nal, pos + take, chunk, false)
  {
    var take := Min(chunk, |nal| - pos);
    var isLast := pos + take >= |nal|;
    FragmentTaken(nal, pos, chunk, isFirst);
    Associate(all, [FragmentPayload(nal[0], isFirst, isLast, nal[pos..pos + take])],
              if isLast then [] else Fragments(nal[0], nal[pos + take..], chunk, false));
  }

  lemma UnitTaken(nals: seq<Bytes>, n: nat, maxPayload: nat, sent: seq<Bytes>)
    requires n < |nals| && NonEmpty(nals) && maxPayload > 0
    ensures sent + AllPayloads(nals[n..], maxPayload)
         == sent + Payloads(nals[n], maxPayload) + AllPayloads(nals[n + 1..], maxPayload)
  {
    assert nals[n..][0] == nals[n] && nals[n..][1..] == nals[n + 1..];
    Associate(sent, Payloads(nals[n], maxPayload), AllPayloads(nals[n + 1..], maxPayload));
  }

  /** One outbound stream: its identity and its rolling sequence number. */
  class RtpHandler {
    const payloadType: u8
    const ssrc: u32
    const clockRateHz: u32
    const maxPayload: nat
    var nextSeq: u16

    ghost predicate Valid() {
      maxPayload > 0
    }

    constructor (payloadType: u8, ssrc: u32, clockRateHz: u32, maxPayload: nat)
      ensures Valid() && nextSeq == 0
      ensures this.payloadType == payloadType && this.ssrc == ssrc && this.clockRateHz == clockRateHz
      ensures this.maxPayload == if maxPayload == 0 then 1200 else maxPayload
    {
      this.payloadType := payloadType;
      this.ssrc := ssrc;
      this.clockRateHz := clockRateHz;
      this.maxPayload := if maxPayload == 0 then DEFAULT_MAX_RTP_PAYLOAD else maxPayload;
      nextSeq := 0;
    }

    method Packetize(frame: EncodedFrame) returns (r: Result<seq<RtpPacket>>)
      requires Valid()
      modifies this`nextSeq
      ensures r == Packetized(frame, payloadType, ssrc, maxPayload, old(nextSeq))
      ensures nextSeq == if r.Ok? then SeqAdd(old(nextSeq), |r.value|) else old(nextSeq)
    {
      if frame.payload == [] { return Err(InvalidArgument); }
      if frame.kind == Video {
        if frame.videoCodec != H264 { return Err(Unsupported); }
        r := PacketizeH264(frame);
        return;
      }
      if frame.audioCodec != Opus { return Err(Unsupported); }
      r := PacketizeOpus(frame);
    }

    method PacketizeOpus(frame: EncodedFrame) returns (r: Result<seq<RtpPacket>>)
      modifies this`nextSeq
      ensures r == Ok(Stamp(payloadType, ssrc, frame.rtpTimestamp, old(nextSeq), [frame.payload]))
      ensures nextSeq == SeqAdd(old(nextSeq), 1)
    {
      var p := PacketOf(payloadType, ssrc, frame.rtpTimestamp, nextSeq, true, frame.payload);
      nextSeq := SeqAdd(nextSeq, 1);
      assert [p] == Stamp(payloadType, ssrc, frame.rtpTimestamp, old(nextSeq), [frame.payload]);
      return Ok([p]);
    }

    /** Append one packet; the program's `seq_++` and `packets.push_back`. */
    method Emit(packets: seq<RtpPacket>, timestamp: u32, payload: Bytes, ghost first: u16, ghost sent: seq<Bytes>)
      returns (out: seq<RtpPacket>)
      requires Emitted(packets, payloadType, ssrc, timestamp, first, sent, nextSeq)
      modifies this`nextSeq
      ensures Emitted(out, payloadType, ssrc, timestamp, first, sent + [payload], nextSeq)
    {
      out := packets + [PacketOf(payloadType, ssrc, timestamp, nextSeq, false, payload)];
      nextSeq := SeqAdd(nextSeq, 1);
    }

    /** One turn of the fragmenting loop: the next `take` bytes behind the two FU header bytes. */
    method EmitFragment(packets: seq<RtpPacket>, timestamp: u32, nal: Bytes, pos: nat, take: nat, isFirst: bool,
                        chunk: nat, ghost first: u16, ghost all: seq<Bytes>, ghost total: seq<Bytes>)
      returns (out: seq<RtpPacket>, ghost more: seq<Bytes>)
      requires 0 < pos < |nal| && chunk > 0 && take == Min(chunk, |nal| - pos)
      requires Emitted(packets, payloadType, ssrc, timestamp, first, all, nextSeq)
      requires GoesOn(total, all, nal, pos, chunk, isFirst)
      modifies this`nextSeq
      ensures Emitted(out, payloadType, ssrc, timestamp, first, more, nextSeq)
      ensures GoesOn(total, more, nal, pos + take, chunk, false)
    {
      var isLast := pos + take >= |nal|;
      var payload := [FuIndicator(nal[0]), FuHeader(nal[0], isFirst, isLast)] + nal[pos..pos + take];
      FragmentSent(total, all, nal, pos, chunk, isFirst);
      out := Emit(packets, timestamp, payload, first, all);
      more := all + [payload];
    }

    method EmitFragments(packets: seq<RtpPacket>, timestamp: u32, nal: Bytes, ghost first: u16, ghost sent: seq<Bytes>)
      returns (out: seq<RtpPacket>, ghost all: seq<Bytes>)
      requires Valid() && |nal| > maxPayload
      requires Emitted(packets, payloadType, ssrc, timestamp, first, sent, nextSeq)
      modifies this`nextSeq
      ensures all == sent + Payloads(nal, maxPayload)
      ensures Emitted(out, payloadType, ssrc, timestamp, first, all, nextSeq)
    {
      var chunk := if maxPayload > 2 then maxPayload - 2 else 1;
      var pos := 1;
      var isFirst := true;
      out, all := packets, sent;
      ghost var total := sent + Payloads(nal, maxPayload);
      FragmentsBegin(sent, nal, maxPayload);
      while pos < |nal|
        invariant 1 <= pos <= |nal| && (isFirst <==> pos == 1)
        invariant Emitted(out, payloadType, ssrc, timestamp, first, all, nextSeq)
        invariant GoesOn(total, all, nal, pos, chunk, isFirst)
      {
        var take := Min(chunk, |nal| - pos);
        out, all := EmitFragment(out, timestamp, nal, pos, take, isFirst, chunk, first, all, total);
        pos := pos + take;
        isFirst := false;
      }
      NothingGoesOn(total, all, nal, chunk, isFirst);
    }

    method PacketizeUnits(data: Bytes, ranges: seq<Range>, timestamp: u32, ghost nals: seq<Bytes>)
      returns (packets: seq<RtpPacket>)
      requires Valid() && ranges != [] && ValidRanges(data, ranges)
      requires nals == Slices(data, ranges) && NonEmpty(nals)
      modifies this`nextSeq
      ensures packets == Stamp(payloadType, ssrc, timestamp, old(nextSeq), AllPayloads(nals, maxPayload))
      ensures nextSeq == SeqAdd(old(nextSeq), |packets|)
    {
      ghost var first := nextSeq;
      ghost var sent: seq<Bytes> := [];
      packets := [];
      assert nals[0..] == nals;
      for n := 0 to |ranges|
        invariant Stamped(packets, payloadType, ssrc, timestamp, first, sent)
        invariant nextSeq == SeqAdd(first, |sent|) && (n > 0 ==> sent != [])
        invariant AllPayloads(nals, maxPayload) == sent + AllPayloads(nals[n..], maxPayload)
      {
        var nal := data[ranges[n].begin..ranges[n].end];
        SliceAt(data, ranges, n);
        UnitTaken(nals, n, maxPayload, sent);
        if |nal| <= maxPayload {
          packets := Emit(packets, timestamp, nal, first, sent);
          sent := sent + [nal];
        } else {
          packets, sent := EmitFragments(packets, timestamp, nal, first, sent);
        }
      }
      MarkLast(packets, payloadType, ssrc, timestamp, first, sent);
      packets := packets[|packets| - 1 := packets[|packets| - 1].(marker := true)];
    }

    method PacketizeH264(frame: EncodedFrame) returns (r: Result<seq<RtpPacket>>)
      requires Valid() && frame.payload != [] && frame.kind == Video && frame.videoCodec == H264
      modifies this`nextSeq
      ensures r == Packetized(frame, payloadType, ssrc, maxPayload, old(nextSeq))
      ensures nextSeq == if r.Ok? then SeqAdd(old(nextSeq), |r.value|) else old(nextSeq)
    {
      var ranges := FindNalUnits(frame.payload);
      if ranges == [] { return Err(Protocol); }
      NalsAreNonEmpty(frame.payload);
      var packets := PacketizeUnits(frame.payload, ranges, frame.rtpTimestamp, Nals(frame.payload));
      return Ok(packets);
    }
  }

  // ---- Sending: whole runs -------------------------------------------------------

  /** A run of `packetize` calls: everything sent and the next sequence number. */
  function SentBy(frames: seq<EncodedFrame>, payloadType: u8, ssrc: u32, maxPayload: nat, first: u16)
    : (run: (seq<RtpPacket>, u16))
    requires maxPayload > 0
  {
    if frames == [] then ([], first)
    else
      var (sent, next) := SentBy(frames[..|frames| - 1], payloadType, ssrc, maxPayload, first);
      match Packetized(frames[|frames| - 1], payloadType, ssrc, maxPayload, next)
      case Err(_) => (sent, next)
      case Ok(packets) => (sent + packets, SeqAdd(next, |packets|))
  }

  ghost predicate Consecutive(packets: seq<RtpPacket>, first: u16) {
    forall k :: 0 <= k < |packets| ==> packets[k].sequenceNumber == SeqAdd(first, k)
  }

  lemma ConsecutiveAppended(a: seq<RtpPacket>, b: seq<RtpPacket>, first: u16)
    requires Consecutive(a, first) && Consecutive(b, SeqAdd(first, |a|))
    ensures Consecutive(a + b, first) && SeqAdd(SeqAdd(first, |a|), |b|) == SeqAdd(first, |a + b|)
  {
    forall k | 0 <= k < |a + b| ensures (a + b)[k].sequenceNumber == SeqAdd(first, k) {
      if k >= |a| {
        SeqAddAdd(first, |a|, k - |a|);
      }
    }
    SeqAddAdd(first, |a|, |b|);
  }

  /** Over any run of calls, failed ones included, the packets are numbered one after
      the other modulo 2^16. */
  lemma {:induction false} RunIsConsecutive(frames: seq<EncodedFrame>, payloadType: u8, ssrc: u32, maxPayload: nat,
                                           first: u16)
    requires maxPayload > 0
    ensures var (sent, next) := SentBy(frames, payloadType, ssrc, maxPayload, first);
            && next == SeqAdd(first, |sent|)
            && Consecutive(sent, first)
  {
    if frames != [] {
      var n := |frames| - 1;
      RunIsConsecutive(frames[..n], payloadType, ssrc, maxPayload, first);
      var (sent, next) := SentBy(frames[..n], payloadType, ssrc, maxPayload, first);
      match Packetized(frames[n], payloadType, ssrc, maxPayload, next)
      case Err(_) =>
      case Ok(packets) => ConsecutiveAppended(sent, packets, first);
    }
  }

  /** The packets of one unit share its timestamp, and exactly the last is marked. */
  lemma MarkerOnExactlyTheLast(frame: EncodedFrame, payloadType: u8, ssrc: u32, maxPayload: nat, first: u16, k: nat)
    requires maxPayload > 0
    requires Packetized(frame, payloadType, ssrc, maxPayload, first).Ok?
    requires k < |Packetized(frame, payloadType, ssrc, maxPayload, first).value|
    ensures var packets := Packetized(frame, payloadType, ssrc, maxPayload, first).value;
            && (packets[k].marker <==> k == |packets| - 1)
            && packets[k].timestamp == frame.rtpTimestamp
            && packets[k].sequenceNumber == SeqAdd(first, k)
  {
  }

  /** Every packet sent has the handler's identity: version 2, its payload type and SSRC,
      and neither padding, extension nor contributors. The peer reads it as it was sent if
      and only if the payload type fits its seven bits, and otherwise with the rest of it. */
  lemma SentHeader(frame: EncodedFrame, payloadType: u8, ssrc: u32, maxPayload: nat, first: u16, k: nat)
    requires maxPayload > 0
    requires Packetized(frame, payloadType, ssrc, maxPayload, first).Ok?
    requires k < |Packetized(frame, payloadType, ssrc, maxPayload, first).value|
    ensures var p := Packetized(frame, payloadType, ssrc, maxPayload, first).value[k];
            && p.version == 2 && !p.padding && !p.extension && p.csrcs == []
            && p.payloadType == payloadType && p.ssrc == ssrc
            && (Decode(Datagram(p)) == Ok(p) <==> payloadType < 128)
            && Decode(Datagram(p)) == Ok(p.(payloadType := payloadType % 128))
  {
    ReadAsSent(Packetized(frame, payloadType, ssrc, maxPayload, first).value[k]);
  }

  lemma ReadAsSent(p: RtpPacket)
    requires p.version == 2 && !p.padding && !p.extension && p.csrcs == []
    ensures Decode(Datagram(p)) == Ok(p) <==> p.payloadType < 128
    ensures Decode(Datagram(p)) == Ok(p.(payloadType := p.payloadType % 128))
  {
    PlainIsRead(p);
    assert p.payloadType % 128 == p.payloadType <==> p.payloadType < 128;
  }

  // ---- Receiving -------------------------------------------------------------------

  function PayloadsOf(packets: seq<RtpPacket>): (ps: seq<Bytes>)
    ensures |ps| == |packets|
    ensures forall k :: 0 <= k < |ps| ==> ps[k] == packets[k].payload
  {
    seq(|packets|, k requires 0 <= k < |packets| => packets[k].payload)
  }

  /** IDR slices and parameter sets mark a keyframe. */
  predicate IsKeyType(t: u8) {
    t == 5 || t == 7 || t == 8
  }

  predicate HasKeyUnit(nals: seq<Bytes>) {
    exists k :: 0 <= k < |nals| && nals[k] != [] && IsKeyType(NalType(nals[k][0]))
  }

  function VideoFrameOf(timestamp: u32, codec: VideoCodec, nals: seq<Bytes>): EncodedFrame {
    EncodedFrame(Video, codec, UnknownAudio, HasKeyUnit(nals), timestamp, Canonical(nals))
  }

  function Depacketized(packets: seq<RtpPacket>, kind: MediaKind, videoCodec: VideoCodec, audioCodec: AudioCodec)
    : Result<EncodedFrame>
  {
    if packets == [] then Err(InvalidArgument)
    else if kind == Audio then
      Ok(EncodedFrame(Audio, UnknownVideo, audioCodec, false, packets[0].timestamp, packets[0].payload))
    else
      match Units(None, PayloadsOf(packets))
      case None => Err(Protocol)
      case Some(nals) => Ok(VideoFrameOf(packets[0].timestamp, videoCodec, nals))
  }

  ghost function Resume(done: seq<Bytes>, rest: Option<seq<Bytes>>): Option<seq<Bytes>> {
    if rest.None? then None else Some(done + rest.value)
  }

  /** The loop state after some packets: output bytes, open fragment, keyframe flag. */
  ghost predicate Rebuilt(done: seq<Bytes>, fu: Option<Bytes>, out: Bytes, sawKeyframe: bool,
                          ps: seq<Bytes>, i: nat)
    requires i <= |ps|
  {
    && out == Canonical(done)
    && sawKeyframe == HasKeyUnit(done)
    && fu != Some([])
    && Units(None, ps) == Resume(done, Units(fu, ps[i..]))
  }

  lemma NothingRebuilt(ps: seq<Bytes>)
    ensures Rebuilt([], None, [], false, ps, 0)
  {
    assert ps[0..] == ps;
    var units := Units(None, ps);
    assert units.Some? ==> [] + units.value == units.value;
  }

  lemma UnitRebuilt(done: seq<Bytes>, nal: Bytes, all: Option<seq<Bytes>>, rest: Option<seq<Bytes>>)
    requires all == Resume(done, Prepend(nal, rest))
    ensures all == Resume(done + [nal], rest)
  {
    if rest.Some? {
      Associate(done, [nal], rest.value);
    }
  }

  lemma FeedStep(done: seq<Bytes>, fu: Option<Bytes>, out: Bytes, sawKeyframe: bool, ps: seq<Bytes>, i: nat)
    requires i < |ps| && Rebuilt(done, fu, out, sawKeyframe, ps, i)
    ensures match Feed(fu, ps[i])
            case Rejected => Units(None, ps) == None
            case Pending(accum) => accum != [] && Rebuilt(done, Some(accum), out, sawKeyframe, ps, i + 1)
            case Completed(nal) =>
              nal != [] &&
              Rebuilt(
                done + [nal], None, out + ([0, 0, 0, 1] + nal), sawKeyframe || IsKeyType(NalType(nal[0])), ps, i + 1)
  {
    assert ps[i..][0] == ps[i] && ps[i..][1..] == ps[i + 1..];
    match Feed(fu, ps[i])
    case Rejected =>
    case Pending(accum) =>
    case Completed(nal) =>
      CanonicalExtended(done, nal);
      KeyUnitAdded(done, nal);
      UnitRebuilt(done, nal, Units(None, ps), Units(None, ps[i + 1..]));
  }

  lemma KeyUnitAdded(nals: seq<Bytes>, nal: Bytes)
    requires nal != []
    ensures HasKeyUnit(nals + [nal]) == (HasKeyUnit(nals) || IsKeyType(NalType(nal[0])))
  {
    var all := nals + [nal];
    assert all[|nals|] == nal;
    if HasKeyUnit(nals) {
      var k :| 0 <= k < |nals| && nals[k] != [] && IsKeyType(NalType(nals[k][0]));
      assert all[k] == nals[k];
    }
  }

  method Depacketize(packets: seq<RtpPacket>, kind: MediaKind, videoCodec: VideoCodec, audioCodec: AudioCodec)
    returns (r: Result<EncodedFrame>)
    ensures r == Depacketized(packets, kind, videoCodec, audioCodec)
  {
    if packets == [] { return Err(InvalidArgument); }
    if kind == Audio {
      return Ok(EncodedFrame(Audio, UnknownVideo, audioCodec, false, packets[0].timestamp, packets[0].payload));
    }

    var startCode: Bytes := [0, 0, 0, 1];
    var out: Bytes := [];
    var fuAccum: Bytes := [];
    var inFu := false;
    var sawKeyframe := false;
    ghost var ps, done: seq<Bytes> := PayloadsOf(packets), [];
    NothingRebuilt(ps);

    for i := 0 to |packets|
      invariant Rebuilt(done, if inFu then Some(fuAccum) else None, out, sawKeyframe, ps, i)
    {
      var payload := packets[i].payload;
      FeedStep(done, if inFu then Some(fuAccum) else None, out, sawKeyframe, ps, i);
      if payload == [] { return Err(Protocol); }
      if NalType(payload[0]) == FU_A {
        if |payload| < 2 { return Err(Protocol); }
        var start, end := StartBit(payload[1]), EndBit(payload[1]);
        if start {
          if inFu { return Err(Protocol); }
          inFu := true;
          fuAccum := [OriginalHeader(payload[0], payload[1])];
        } else if !inFu {
          return Err(Protocol);
        }
        fuAccum := fuAccum + payload[2..];
        if end {
          sawKeyframe := sawKeyframe || IsKeyType(NalType(fuAccum[0]));
          out := out + (startCode + fuAccum);
          done := done + [fuAccum];
          inFu := false;
          fuAccum := [];
        }
      } else {
        if inFu { return Err(Protocol); }
        sawKeyframe := sawKeyframe || IsKeyType(NalType(payload[0]));
        out := out + (startCode + payload);
        done := done + [payload];
      }
    }
    if inFu { return Err(Protocol); }
    assert done + [] == done;
    return Ok(EncodedFrame(Video, videoCodec, UnknownAudio, sawKeyframe, packets[0].timestamp, out));
  }

  // ---- The round trip ----------------------------------------------------------------

  /** For every access unit the packetizer accepts and every payload budget, the
      depacketizer rebuilds the canonical form of its NAL units if and only if none of
      type 28 was small enough to be sent whole. */
  lemma PacketizeRoundTripExactly(frame: EncodedFrame, payloadType: u8, ssrc: u32, maxPayload: nat, first: u16)
    requires maxPayload > 0 && frame.kind == Video
    requires Packetized(frame, payloadType, ssrc, maxPayload, first).Ok?
    ensures var packets := Packetized(frame, payloadType, ssrc, maxPayload, first).value;
            var nals := Nals(frame.payload);
            NonEmpty(nals) &&
            (Depacketized(packets, Video, H264, Opus) == Ok(VideoFrameOf(frame.rtpTimestamp, H264, nals))
             <==> AllSurvive(nals, maxPayload))
  {
    var packets := Packetized(frame, payloadType, ssrc, maxPayload, first).value;
    var nals := Nals(frame.payload);
    NalsAreNonEmpty(frame.payload);
    assert PayloadsOf(packets) == AllPayloads(nals, maxPayload);
    ReassemblyExactly(nals, maxPayload);
    if AllSurvive(nals, maxPayload) {
      AllPayloadsReassemble(nals, maxPayload);
    }
  }

  /** An Opus frame comes back unchanged. */
  lemma OpusRoundTrip(frame: EncodedFrame, payloadType: u8, ssrc: u32, maxPayload: nat, first: u16)
    requires maxPayload > 0 && frame.kind == Audio
    requires Packetized(frame, payloadType, ssrc, maxPayload, first).Ok?
    ensures var packets := Packetized(frame, payloadType, ssrc, maxPayload, first).value;
            Depacketized(packets, Audio, H264, Opus)
            == Ok(EncodedFrame(Audio, UnknownVideo, Opus, false, frame.rtpTimestamp, frame.payload))
  {
  }

  /** A video frame rebuilt: its timestamp is that of the first packet, its bytes are the
      canonical form, and it is a keyframe exactly if some unit is a slice of an IDR
      picture, a sequence parameter set or a picture parameter set (5, 7 and 8 in table 7-1
      of the H.264 standard). */
  lemma RebuiltExactly(packets: seq<RtpPacket>, codec: VideoCodec, other: AudioCodec)
    requires Depacketized(packets, Video, codec, other).Ok?
    ensures packets != [] && Units(None, PayloadsOf(packets)).Some?
    ensures var f, nals := Depacketized(packets, Video, codec, other).value, Units(None, PayloadsOf(packets)).value;
            && f.kind == Video && f.videoCodec == codec && f.audioCodec == UnknownAudio
            && f.rtpTimestamp == packets[0].timestamp && f.payload == Canonical(nals)
            && (f.keyframe <==> exists k :: 0 <= k < |nals| && nals[k] != [] && nals[k][0] % 32 in [5, 7, 8])
  {
    var nals := Units(None, PayloadsOf(packets)).value;
    forall k | 0 <= k < |nals| && nals[k] != []
      ensures IsKeyType(NalType(nals[k][0])) <==> nals[k][0] % 32 in [5, 7, 8]
    {
    }
  }
}
