/** The jitter buffer, fed with the packets of one H.264 stream through a channel that
    loses, reorders and duplicates them, refines the reference receiver. */
module EndToEnd {
  import opened Common
  import opened Serial
  import opened Rtp
  import opened Media
  import opened AnnexB
  import opened H264Payload
  import opened RtpHandling
  import opened JitterFrame
  import opened JitterBuffering
  import opened Receiver
  import Run = JitterRun

  /** The 32-bit timestamp of an instant on the clock that does not wrap. */
  function Wrap(time: int): u32 { time % 0x1_0000_0000 }

  lemma WrapDistance(a: int, b: int)
    ensures 0 <= b - a < 0x1_0000_0000 ==> TsDistance(Wrap(a), Wrap(b)) == b - a
    ensures -0x1_0000_0000 < b - a < 0 ==> TsDistance(Wrap(a), Wrap(b)) == b - a + 0x1_0000_0000
  {
  }

  lemma WrapOrder(a: int, b: int)
    requires -0x8000_0000 < b - a < 0x8000_0000
    ensures Wrap(a) == Wrap(b) <==> a == b
    ensures TsLess(Wrap(a), Wrap(b)) <==> a < b
  {
    WrapDistance(a, b);
  }

  // ---- The packets of the stream ------------------------------------------------------

  /** The packets of a unit as they arrive: with a payload type of seven bits. */
  ghost function PacketsOf(s: Stream, j: nat): (ps: seq<RtpPacket>)
    requires ValidStream(s) && j < |s.units|
    ensures |ps| == PacketCount(s.units[j], s.maxPayload)
  {
    var u := s.units[j];
    assert ValidUnit(u, s.maxPayload);
    Stamp(s.payloadType % 128, s.ssrc, Wrap(u.time), u.first, AllPayloads(u.nals, s.maxPayload))
  }

  /** The packets as they are sent. */
  ghost function SentPackets(s: Stream, j: nat): (ps: seq<RtpPacket>)
    requires ValidStream(s) && j < |s.units|
    ensures |ps| == PacketCount(s.units[j], s.maxPayload)
  {
    var u := s.units[j];
    assert ValidUnit(u, s.maxPayload);
    Stamp(s.payloadType, s.ssrc, Wrap(u.time), u.first, AllPayloads(u.nals, s.maxPayload))
  }

  /** Written as a datagram and parsed, a packet arrives. */
  lemma ArrivesOverTheWire(s: Stream, j: nat, i: nat)
    requires ValidStream(s) && j < |s.units| && i < PacketCount(s.units[j], s.maxPayload)
    ensures Decode(Datagram(SentPackets(s, j)[i])) == Ok(PacketsOf(s, j)[i])
  {
    PlainIsRead(SentPackets(s, j)[i]);
  }

  /** What is sent is what the packetizer returns for the access unit. */
  lemma PacketsAreThePacketizers(s: Stream, j: nat, frame: EncodedFrame)
    requires ValidStream(s) && j < |s.units|
    requires frame.kind == Video && frame.videoCodec == H264 && frame.rtpTimestamp == Wrap(s.units[j].time)
    requires frame.payload != [] && Nals(frame.payload) == s.units[j].nals
    ensures Packetized(frame, s.payloadType, s.ssrc, s.maxPayload, s.units[j].first) == Ok(SentPackets(s, j))
  {
    assert ValidUnit(s.units[j], s.maxPayload);
  }

  ghost function FrameOf(s: Stream, p: Pick): EncodedFrame
    requires ValidPick(s, p)
  {
    VideoFrameOf(Wrap(s.units[p.unit].time), H264, s.units[p.unit].nals[p.from..])
  }

  // ---- One frame -------------------------------------------------------------------------

  ghost predicate FrameMatches(s: Stream, j: nat, h: Held, f: PendingFrame)
    requires ValidStream(s) && HoldsUnit(s, j, h)
  {
    var first := s.units[j].first;
    && f.timestamp == Wrap(s.units[j].time) && f.firstArrival == h.firstArrival
    && (forall i: nat :: i in h.indices ==>
          SeqAdd(first, i) in f.packets && f.packets[SeqAdd(first, i)] == PacketsOf(s, j)[i])
    && (forall q: u16 {:trigger HeldAt(h, first, q)} :: q in f.packets ==> HeldAt(h, first, q))
  }

  ghost predicate HeldAt(h: Held, first: u16, q: u16) {
    SeqDistance(first, q) in h.indices
  }

  lemma HeldIffStored(s: Stream, j: nat, h: Held, f: PendingFrame, i: nat)
    requires ValidStream(s) && HoldsUnit(s, j, h) && FrameMatches(s, j, h, f)
    requires i < PacketCount(s.units[j], s.maxPayload)
    ensures i in h.indices <==> SeqAdd(s.units[j].first, i) in f.packets
  {
    SeqAddIs(s.units[j].first, i);
    assert SeqAdd(s.units[j].first, i) in f.packets ==> HeldAt(h, s.units[j].first, SeqAdd(s.units[j].first, i));
  }

  lemma StoredIsHeld(s: Stream, j: nat, h: Held, f: PendingFrame, q: u16)
    requires ValidStream(s) && HoldsUnit(s, j, h) && FrameMatches(s, j, h, f) && q in f.packets
    ensures var i := SeqDistance(s.units[j].first, q);
            i in h.indices && q == SeqAdd(s.units[j].first, i) && f.packets[q] == PacketsOf(s, j)[i]
  {
    SeqAddDistance(s.units[j].first, q);
    assert HeldAt(h, s.units[j].first, q);
  }

  lemma AdmitMatches(s: Stream, j: nat, h: Held, f: PendingFrame, i: nat)
    requires ValidStream(s) && HoldsUnit(s, j, h) && FrameMatches(s, j, h, f)
    requires i < PacketCount(s.units[j], s.maxPayload)
    ensures FrameMatches(s, j, h.(indices := h.indices + {i}), Admit(f, PacketsOf(s, j)[i]))
  {
    var p, g, first := PacketsOf(s, j)[i], Admit(f, PacketsOf(s, j)[i]), s.units[j].first;
    assert p.sequenceNumber == SeqAdd(first, i);
    SeqAddIs(first, i);
    forall k: nat | k in h.indices + {i}
      ensures SeqAdd(first, k) in g.packets && g.packets[SeqAdd(first, k)] == PacketsOf(s, j)[k]
    {
      if k != i {
        SeqAddIs(first, k);
      }
    }
    forall q: u16 | q in g.packets ensures HeldAt(h.(indices := h.indices + {i}), first, q) {
      assert q in f.packets ==> HeldAt(h, first, q);
    }
  }

  lemma FirstMatches(s: Stream, j: nat, i: nat, at: int)
    requires ValidStream(s) && j < |s.units| && i < PacketCount(s.units[j], s.maxPayload)
    ensures FrameMatches(s, j, Held(at, {i}), Admit(NewFrame(Wrap(s.units[j].time), at), PacketsOf(s, j)[i]))
  {
    SeqAddIs(s.units[j].first, i);
  }

  lemma KeysAreInWindow(s: Stream, j: nat, h: Held, f: PendingFrame)
    requires ValidStream(s) && HoldsUnit(s, j, h) && FrameMatches(s, j, h, f)
    ensures InSeqWindow(f.packets.Keys)
  {
    forall q | q in f.packets.Keys ensures SeqDistance(s.units[j].first, q) < 0x8000 {
      assert q in f.packets;
      StoredIsHeld(s, j, h, f, q);
      assert ValidUnit(s.units[j], s.maxPayload);
    }
    assert SeqWindow(s.units[j].first, f.packets.Keys);
  }

  lemma MarkerIffLastHeld(s: Stream, j: nat, h: Held, f: PendingFrame)
    requires ValidStream(s) && HoldsUnit(s, j, h) && FrameMatches(s, j, h, f)
    ensures PacketCount(s.units[j], s.maxPayload) > 0
    ensures MarkerSeen(f) <==> PacketCount(s.units[j], s.maxPayload) - 1 in h.indices
  {
    var n, first := PacketCount(s.units[j], s.maxPayload), s.units[j].first;
    var k :| k in h.indices;
    assert k < n;
    if MarkerSeen(f) {
      var q :| q in f.packets && f.packets[q].marker;
      StoredIsHeld(s, j, h, f, q);
    }
    if n - 1 in h.indices {
      assert f.packets[SeqAdd(first, n - 1)].marker;
    }
  }

  /** In a valid frame of the stream, the extremes are the lowest and the highest
      positions held. */
  lemma ExtremePositions(s: Stream, j: nat, h: Held, f: PendingFrame) returns (lo: nat, hi: nat)
    requires ValidStream(s) && HoldsUnit(s, j, h) && FrameMatches(s, j, h, f) && ValidFrame(f)
    ensures Between(h.indices, lo, hi)
    ensures f.minSeq == SeqAdd(s.units[j].first, lo) && SeqDistance(f.minSeq, f.maxSeq) == hi - lo
  {
    var first := s.units[j].first;
    KeysAreInWindow(s, j, h, f);
    StoredIsHeld(s, j, h, f, f.minSeq);
    StoredIsHeld(s, j, h, f, f.maxSeq);
    lo, hi := SeqDistance(first, f.minSeq), SeqDistance(first, f.maxSeq);
    assert ValidUnit(s.units[j], s.maxPayload);
    forall i: nat | i in h.indices ensures lo <= i <= hi {
      SeqAddIs(first, i);
      var q := SeqAdd(first, i);
      assert SeqDistance(f.minSeq, q) <= SeqDistance(f.minSeq, f.maxSeq);
      BetweenInWindow(first, f.minSeq, f.maxSeq, q);
    }
    SeqLessInWindow(first, f.minSeq, f.maxSeq);
  }

  ghost predicate Contiguous(indices: set<nat>, lo: nat, hi: nat) {
    forall i: nat :: lo <= i <= hi ==> i in indices
  }

  /** Only positions from the lowest to the highest. */
  ghost predicate Between(indices: set<nat>, lo: nat, hi: nat) {
    lo in indices && hi in indices && forall i: nat :: i in indices ==> lo <= i <= hi
  }

  lemma NoGapIffAllHeld(s: Stream, j: nat, h: Held, f: PendingFrame, lo: nat, hi: nat)
    requires ValidStream(s) && HoldsUnit(s, j, h) && FrameMatches(s, j, h, f)
    requires lo in h.indices && hi in h.indices && lo <= hi
    requires f.minSeq == SeqAdd(s.units[j].first, lo) && SeqDistance(f.minSeq, f.maxSeq) == hi - lo
    ensures NoGap(f) <==> Contiguous(h.indices, lo, hi)
  {
    forall i | 0 <= i <= hi - lo ensures SeqAdd(f.minSeq, i) in f.packets <==> lo + i in h.indices {
      SeqAddAdd(s.units[j].first, lo, i);
      HeldIffStored(s, j, h, f, lo + i);
    }
    if NoGap(f) {
      forall i: nat | lo <= i <= hi ensures i in h.indices {
        assert SeqAdd(f.minSeq, i - lo) in f.packets;
      }
    }
  }

  lemma TailIffContiguous(indices: set<nat>, n: nat, lo: nat, hi: nat)
    requires Between(indices, lo, hi) && hi < n
    ensures (n - 1 in indices && Contiguous(indices, lo, hi)) <==> |indices| <= n && indices == Tail(n - |indices|, n)
    ensures |indices| <= n && indices == Tail(n - |indices|, n) ==> n - |indices| == lo && hi == n - 1
  {
    if n - 1 in indices && Contiguous(indices, lo, hi) {
      forall i: nat ensures i in indices <==> i in Tail(lo, n) {
        TailMember(lo, n, i);
      }
      assert indices == Tail(lo, n);
      TailSize(lo, n);
    }
    if |indices| <= n && indices == Tail(n - |indices|, n) {
      var a := n - |indices|;
      assert |indices| > 0;
      TailMember(a, n, n - 1);
      TailMember(a, n, a);
      TailMember(a, n, lo);
      forall i: nat | lo <= i <= hi ensures i in indices {
        TailMember(a, n, i);
      }
    }
  }

  lemma CompleteIffContiguous(s: Stream, j: nat, h: Held, f: PendingFrame, lo: nat, hi: nat)
    requires ValidStream(s) && HoldsUnit(s, j, h) && FrameMatches(s, j, h, f) && ValidFrame(f)
    requires lo in h.indices && hi in h.indices && lo <= hi
    requires f.minSeq == SeqAdd(s.units[j].first, lo) && SeqDistance(f.minSeq, f.maxSeq) == hi - lo
    ensures CompleteVideo(f) <==> MarkerSeen(f) && NoGap(f)
    ensures PacketCount(s.units[j], s.maxPayload) > 0
    ensures CompleteVideo(f) <==>
            PacketCount(s.units[j], s.maxPayload) - 1 in h.indices && Contiguous(h.indices, lo, hi)
  {
    KeysAreInWindow(s, j, h, f);
    CompleteExactly(f);
    MarkerIffLastHeld(s, j, h, f);
    NoGapIffAllHeld(s, j, h, f, lo, hi);
  }

  /** A frame is complete exactly when its unit's last packets are there, and then holds
      these in order. */
  ghost predicate CompleteByTail(s: Stream, j: nat, h: Held, f: PendingFrame)
    requires ValidStream(s) && HoldsUnit(s, j, h)
  {
    var n := PacketCount(s.units[j], s.maxPayload);
    && (CompleteVideo(f) <==> |h.indices| <= n && h.indices == Tail(n - |h.indices|, n))
    && (CompleteVideo(f) ==> InOrder(f) == PacketsOf(s, j)[n - |h.indices|..])
  }

  /** The buffer finds a frame complete exactly when its unit's last packets are there. */
  lemma CompleteIffTail(s: Stream, j: nat, h: Held, f: PendingFrame)
    requires ValidStream(s) && HoldsUnit(s, j, h) && FrameMatches(s, j, h, f) && ValidFrame(f)
    ensures CompleteByTail(s, j, h, f)
  {
    var lo, hi := ExtremePositions(s, j, h, f);
    CompleteIffContiguous(s, j, h, f, lo, hi);
    LastIffTail(CompleteVideo(f), h.indices, PacketCount(s.units[j], s.maxPayload), lo, hi);
    if CompleteVideo(f) {
      WalkedInOrder(s, j, h, f, lo);
    }
  }

  lemma LastIffTail(complete: bool, indices: set<nat>, n: nat, lo: nat, hi: nat)
    requires Between(indices, lo, hi) && hi < n
    requires complete <==> n - 1 in indices && Contiguous(indices, lo, hi)
    ensures complete <==> |indices| <= n && indices == Tail(n - |indices|, n)
    ensures complete ==> n - |indices| == lo && hi == n - 1
  {
    TailIffContiguous(indices, n, lo, hi);
  }

  lemma WalkedInOrder(s: Stream, j: nat, h: Held, f: PendingFrame, lo: nat)
    requires ValidStream(s) && HoldsUnit(s, j, h) && FrameMatches(s, j, h, f) && NoGap(f)
    requires f.minSeq == SeqAdd(s.units[j].first, lo)
    requires lo + SeqDistance(f.minSeq, f.maxSeq) + 1 == PacketCount(s.units[j], s.maxPayload)
    ensures InOrder(f) == PacketsOf(s, j)[lo..]
  {
    WalkWithoutGap(f.packets, f.minSeq, f.maxSeq);
    var ordered, packets := InOrder(f), PacketsOf(s, j);
    forall i | 0 <= i < |ordered| ensures ordered[i] == packets[lo + i] {
      SeqAddAdd(s.units[j].first, lo, i);
      SeqAddIs(s.units[j].first, lo + i);
      StoredIsHeld(s, j, h, f, SeqAdd(f.minSeq, i));
    }
  }

  /** Depacketizing the last packets of a unit. */
  lemma DepacketizedTail(s: Stream, j: nat, a: nat)
    requires ValidStream(s) && j < |s.units| && a < PacketCount(s.units[j], s.maxPayload)
    ensures var from := StartsAt(s.units[j].nals, s.maxPayload, a);
            && (from.Some? ==> ValidPick(s, Pick(j, from.value)))
            && Depacketized(PacketsOf(s, j)[a..], Video, H264, Opus)
               == if from.None? then Err(Protocol) else Ok(FrameOf(s, Pick(j, from.value)))
  {
    var u, packets := s.units[j], PacketsOf(s, j);
    assert ValidUnit(u, s.maxPayload);
    assert PayloadsOf(packets[a..]) == AllPayloads(u.nals, s.maxPayload)[a..];
    SuffixReassembles(u.nals, s.maxPayload, a);
  }

  ghost predicate ForVideo(cfg: Config) {
    cfg.kind == Video && cfg.videoCodec == H264 && cfg.audioCodec == Opus
  }

  lemma PlayoutOfTail(s: Stream, cfg: Config, j: nat, f: PendingFrame, a: nat)
    requires ValidStream(s) && j < |s.units| && ValidUnit(s.units[j], s.maxPayload)
    requires a < PacketCount(s.units[j], s.maxPayload)
    requires ForVideo(cfg) && CompleteVideo(f) && InOrder(f) == PacketsOf(s, j)[a..]
    ensures var from := StartsAt(s.units[j].nals, s.maxPayload, a);
            && (from.Some? ==> ValidPick(s, Pick(j, from.value)))
            && Playout(cfg, f) == if from.None? then None else Some(FrameOf(s, Pick(j, from.value)))
  {
    DepacketizedTail(s, j, a);
    var from := StartsAt(s.units[j].nals, s.maxPayload, a);
    PlayoutIs(cfg, f, if from.None? then Err(Protocol) else Ok(FrameOf(s, Pick(j, from.value))));
  }

  lemma PlayoutOfIncomplete(cfg: Config, f: PendingFrame)
    requires ForVideo(cfg) && !CompleteVideo(f)
    ensures Playout(cfg, f) == None
  {
  }

  /** Playing a frame out yields what the reference picks. */
  lemma PlayoutRefines(s: Stream, cfg: Config, j: nat, h: Held, f: PendingFrame)
    requires ValidStream(s) && HoldsUnit(s, j, h) && FrameMatches(s, j, h, f) && ValidFrame(f) && ForVideo(cfg)
    ensures PlaysOut(s, cfg, f, PickOf(s.units[j], s.maxPayload, j, h.indices))
  {
    CompleteIffTail(s, j, h, f);
    CountRefines(s, cfg, j, h, f);
  }

  lemma CountRefines(s: Stream, cfg: Config, j: nat, h: Held, f: PendingFrame)
    requires ValidStream(s) && HoldsUnit(s, j, h) && ForVideo(cfg)
    requires CompleteByTail(s, j, h, f)
    ensures PlaysOut(s, cfg, f, PickOf(s.units[j], s.maxPayload, j, h.indices))
  {
    if CompleteVideo(f) {
      TailRefines(s, cfg, j, h, f, PacketCount(s.units[j], s.maxPayload) - |h.indices|);
    } else {
      IncompleteRefines(s, cfg, j, h, f);
    }
  }

  /** Playing the frame out yields what was picked. */
  ghost predicate PlaysOut(s: Stream, cfg: Config, f: PendingFrame, pick: Option<Pick>)
    requires ValidStream(s)
  {
    && (pick.Some? ==> ValidPick(s, pick.value))
    && Playout(cfg, f) == if pick.None? then None else Some(FrameOf(s, pick.value))
  }

  lemma IncompleteRefines(s: Stream, cfg: Config, j: nat, h: Held, f: PendingFrame)
    requires ValidStream(s) && HoldsUnit(s, j, h) && ForVideo(cfg) && !CompleteVideo(f)
    requires var n := PacketCount(s.units[j], s.maxPayload); |h.indices| > n || h.indices != Tail(n - |h.indices|, n)
    ensures PlaysOut(s, cfg, f, PickOf(s.units[j], s.maxPayload, j, h.indices))
  {
    PlayoutOfIncomplete(cfg, f);
    NoPick(s.units[j], s.maxPayload, j, h.indices);
  }

  lemma TailRefines(s: Stream, cfg: Config, j: nat, h: Held, f: PendingFrame, a: nat)
    requires ValidStream(s) && HoldsUnit(s, j, h) && ForVideo(cfg) && CompleteVideo(f)
    requires var n := PacketCount(s.units[j], s.maxPayload); a + |h.indices| == n && h.indices == Tail(a, n)
    requires InOrder(f) == PacketsOf(s, j)[a..]
    ensures PlaysOut(s, cfg, f, PickOf(s.units[j], s.maxPayload, j, h.indices))
  {
    assert |h.indices| > 0;
    PlayoutOfTail(s, cfg, j, f, a);
    PickOfTail(s.units[j], s.maxPayload, j, h.indices, a);
  }

  // ---- The whole buffer -----------------------------------------------------------------

  /** The units in memory are close enough for their timestamps to tell them apart. */
  ghost predicate Close(s: Stream, r: Memory)
    requires Holds(s, r)
  {
    if r.last >= 0 then
      forall j :: j in r.held ==> 0 < s.units[j].time - s.units[r.last].time <= 0x8000_0000
    else
      forall j, k :: j in r.held && k in r.held ==> s.units[k].time - s.units[j].time < 0x8000_0000
  }

  ghost predicate Stores(s: Stream, r: Memory, frames: Frames, j: nat)
    requires Holds(s, r) && j in r.held
  {
    var ts := Wrap(s.units[j].time);
    ts in frames && FrameMatches(s, j, r.held[j], frames[ts])
  }

  /** Some unit in memory has this timestamp. */
  ghost predicate Remembered(s: Stream, r: Memory, ts: u32)
    requires Holds(s, r)
  {
    exists j: nat :: j in r.held && Wrap(s.units[j].time) == ts
  }

  ghost predicate SameLast(s: Stream, r: Memory, st: State)
    requires Holds(s, r)
  {
    && (st.hasEmitted <==> r.last >= 0)
    && (r.last >= 0 ==> st.lastEmittedTs == Wrap(s.units[r.last].time))
  }

  /** The buffer's state is what the reference remembers. */
  ghost predicate Matches(s: Stream, r: Memory, st: State)
    requires Holds(s, r)
  {
    && ValidState(st) && Close(s, r) && SameLast(s, r, st)
    && (forall j: nat :: j in r.held ==> Stores(s, r, st.frames, j))
    && (forall ts {:trigger Remembered(s, r, ts)} :: ts in st.frames ==> Remembered(s, r, ts))
  }

  lemma HeldAreClose(s: Stream, r: Memory, j: nat, k: nat)
    requires Holds(s, r) && Close(s, r) && j in r.held && k in r.held
    ensures -0x8000_0000 < s.units[k].time - s.units[j].time < 0x8000_0000
  {
  }

  /** A unit that is not late is close to every unit held. */
  lemma ArrivalIsClose(s: Stream, r: Memory, j: nat, k: nat)
    requires Holds(s, r) && Close(s, r) && j < |s.units| && Timely(s, r, j) && r.last < j && k in r.held
    ensures -0x8000_0000 < s.units[j].time - s.units[k].time < 0x8000_0000
  {
    if r.last >= 0 {
      TimeOrder(s, r.last, j);
    }
  }

  lemma LateIffPassed(s: Stream, r: Memory, st: State, j: nat)
    requires Holds(s, r) && SameLast(s, r, st) && j < |s.units| && Timely(s, r, j)
    ensures IsLate(st, Wrap(s.units[j].time)) <==> j <= r.last
  {
    if r.last >= 0 {
      WrapDistance(s.units[r.last].time, s.units[j].time);
      LateExactly(st, Wrap(s.units[j].time));
      TimeOrder(s, r.last, j);
    }
  }

  /** The timestamp of a unit that is not late is pending exactly if the unit is held. */
  lemma PendingIffHeld(s: Stream, r: Memory, st: State, j: nat)
    requires Holds(s, r) && Matches(s, r, st) && j < |s.units| && Timely(s, r, j) && r.last < j
    ensures Wrap(s.units[j].time) in st.frames <==> j in r.held
  {
    var ts := Wrap(s.units[j].time);
    if ts in st.frames {
      assert Remembered(s, r, ts);
      var k: nat :| k in r.held && Wrap(s.units[k].time) == ts;
      ArrivalIsClose(s, r, j, k);
      WrapOrder(s.units[k].time, s.units[j].time);
      TimeOrder(s, j, k);
    }
    if j in r.held {
      assert Stores(s, r, st.frames, j);
    }
  }

  /** The timestamp of an arrival can be ordered among the pending ones, unless it is late. */
  lemma ArrivalIsOrderable(s: Stream, r: Memory, st: State, j: nat)
    requires Holds(s, r) && Matches(s, r, st) && j < |s.units| && Timely(s, r, j)
    ensures var ts := Wrap(s.units[j].time);
            CanPush(st, ts) && (!IsLate(st, ts) ==> Orderable(st.frames.Keys + {ts}))
  {
    if st.hasEmitted {
      LaterPushIsOrdered(st, Wrap(s.units[j].time));
    } else {
      NothingLeftIsOrderable(s, r, st, j);
      StrictWeakExactly(st.frames.Keys + {Wrap(s.units[j].time)});
    }
  }

  lemma NothingLeftIsOrderable(s: Stream, r: Memory, st: State, j: nat)
    requires Holds(s, r) && Matches(s, r, st) && j < |s.units| && Timely(s, r, j) && !st.hasEmitted
    ensures Orderable(st.frames.Keys + {Wrap(s.units[j].time)})
  {
    var t := s.units[j].time;
    var keys := st.frames.Keys + {Wrap(t)};
    var low := t;
    if r.held != map[] {
      var f := First(r.held);
      low := if s.units[f].time < t then s.units[f].time else t;
      forall k | k in r.held ensures 0 <= s.units[k].time - low < 0x8000_0000 {
        TimeOrder(s, f, k);
      }
    }
    forall ts | ts in keys ensures TsDistance(Wrap(low), ts) < 0x8000_0000 {
      if ts == Wrap(t) {
        WrapDistance(low, t);
      } else {
        assert Remembered(s, r, ts);
        var k: nat :| k in r.held && Wrap(s.units[k].time) == ts;
        WrapDistance(low, s.units[k].time);
      }
    }
    assert TsWindow(Wrap(low), keys);
  }

  lemma ArrivalKeepsClose(s: Stream, r: Memory, j: nat, i: nat, at: int)
    requires Holds(s, r) && Close(s, r) && j < |s.units| && i < PacketCount(s.units[j], s.maxPayload)
    requires Timely(s, r, j)
    ensures Holds(s, Arrived(r, j, i, at)) && Close(s, Arrived(r, j, i, at))
  {
    ArrivedHolds(s, r, j, i, at);
    if r.last >= 0 && r.last < j {
      TimeOrder(s, r.last, j);
    }
  }

  /** Frames other than the one that changed still store their units. */
  lemma OthersStillStored(s: Stream, r: Memory, next: Memory, frames: Frames, ts: u32, f: PendingFrame, k: nat, j: nat)
    requires Holds(s, r) && Holds(s, next) && k in r.held && k in next.held && next.held[k] == r.held[k]
    requires Stores(s, r, frames, k) && k != j && j < |s.units| && ts == Wrap(s.units[j].time)
    requires -0x8000_0000 < s.units[j].time - s.units[k].time < 0x8000_0000
    ensures Stores(s, next, frames[ts := f], k)
  {
    WrapOrder(s.units[k].time, s.units[j].time);
    TimeOrder(s, j, k);
  }

  /** A packet that arrives takes the buffer where it takes the reference. */
  lemma ArriveRefines(s: Stream, r: Memory, st: State, j: nat, i: nat, at: int)
    requires Holds(s, r) && Matches(s, r, st)
    requires j < |s.units| && i < PacketCount(s.units[j], s.maxPayload) && Timely(s, r, j)
    ensures Holds(s, Arrived(r, j, i, at))
    ensures var p := PacketsOf(s, j)[i];
            CanPush(st, p.timestamp) && Matches(s, Arrived(r, j, i, at), Pushed(st, p, at).0)
  {
    var p, ts := PacketsOf(s, j)[i], Wrap(s.units[j].time);
    ArrivalKeepsClose(s, r, j, i, at);
    ArrivalIsOrderable(s, r, st, j);
    PushKeepsValid(st, p, at);
    LateIffPassed(s, r, st, j);
    if r.last < j {
      PendingIffHeld(s, r, st, j);
      if j in r.held && i in r.held[j].indices {
        DuplicateRefines(s, r, st, j, i, at);
      } else {
        NewPacketRefines(s, r, st, j, i, at);
      }
    }
  }

  lemma DuplicateRefines(s: Stream, r: Memory, st: State, j: nat, i: nat, at: int)
    requires Holds(s, r) && Matches(s, r, st) && r.last < j && j in r.held && i in r.held[j].indices
    requires !IsLate(st, Wrap(s.units[j].time))
    ensures Arrived(r, j, i, at) == r
    ensures Pushed(st, PacketsOf(s, j)[i], at).0.(stats := st.stats) == st
  {
    HeldAlready(r, j, i, at);
    DuplicateIsStored(s, r, st, j, i);
    DuplicateChangesNothing(st, PacketsOf(s, j)[i], at);
  }

  lemma HeldAlready(r: Memory, j: nat, i: nat, at: int)
    requires j in r.held && i in r.held[j].indices
    ensures Arrived(r, j, i, at) == r
  {
    var h := r.held[j];
    assert h.indices + {i} == h.indices && r.held[j := h] == r.held;
  }

  lemma DuplicateIsStored(s: Stream, r: Memory, st: State, j: nat, i: nat)
    requires Holds(s, r) && Matches(s, r, st) && j in r.held && i in r.held[j].indices
    ensures var p := PacketsOf(s, j)[i];
            && p.timestamp == Wrap(s.units[j].time) && p.timestamp in st.frames
            && p.sequenceNumber in st.frames[p.timestamp].packets
  {
    assert Stores(s, r, st.frames, j);
    HeldIffStored(s, j, r.held[j], st.frames[Wrap(s.units[j].time)], i);
  }

  lemma NewPacketRefines(s: Stream, r: Memory, st: State, j: nat, i: nat, at: int)
    requires Holds(s, r) && Matches(s, r, st) && r.last < j < |s.units| && Timely(s, r, j)
    requires i < PacketCount(s.units[j], s.maxPayload) && !(j in r.held && i in r.held[j].indices)
    requires !IsLate(st, Wrap(s.units[j].time)) && (Wrap(s.units[j].time) in st.frames <==> j in r.held)
    requires Orderable(st.frames.Keys + {Wrap(s.units[j].time)})
    requires Holds(s, Arrived(r, j, i, at)) && Close(s, Arrived(r, j, i, at))
    requires ValidState(Pushed(st, PacketsOf(s, j)[i], at).0)
    ensures Matches(s, Arrived(r, j, i, at), Pushed(st, PacketsOf(s, j)[i], at).0)
  {
    var p, ts, next := PacketsOf(s, j)[i], Wrap(s.units[j].time), Arrived(r, j, i, at);
    var f := FrameFor(st.frames, ts, at);
    KeyIsOwn(st.frames, ts);
    if j in r.held {
      assert Stores(s, r, st.frames, j);
      HeldIffStored(s, j, r.held[j], f, i);
      AdmitMatches(s, j, r.held[j], f, i);
    } else {
      FirstMatches(s, j, i, at);
    }
    var after := Pushed(st, p, at).0;
    assert after.frames == st.frames[ts := Admit(f, p)];
    assert Stores(s, next, after.frames, j);
    forall k: nat | k in next.held && k != j ensures Stores(s, next, after.frames, k) {
      assert Stores(s, r, st.frames, k);
      ArrivalIsClose(s, r, j, k);
      OthersStillStored(s, r, next, st.frames, ts, Admit(f, p), k, j);
    }
    forall t | t in after.frames ensures Remembered(s, next, t) {
      if t == ts {
        assert j in next.held;
      } else {
        assert Remembered(s, r, t);
        var k: nat :| k in r.held && Wrap(s.units[k].time) == t;
        assert k in next.held;
      }
    }
  }

  // ---- Playing out ------------------------------------------------------------------------

  lemma FirstIsOldest(s: Stream, r: Memory, st: State, j: nat)
    requires Holds(s, r) && Matches(s, r, st) && IsFirst(j, r.held)
    ensures IsOldest(Wrap(s.units[j].time), st.frames.Keys)
  {
    assert Stores(s, r, st.frames, j);
    forall ts | ts in st.frames.Keys
      ensures ts == Wrap(s.units[j].time) || TsLess(Wrap(s.units[j].time), ts)
    {
      assert Remembered(s, r, ts);
      var k: nat :| k in r.held && Wrap(s.units[k].time) == ts;
      HeldAreClose(s, r, j, k);
      WrapOrder(s.units[j].time, s.units[k].time);
      TimeOrder(s, j, k);
    }
  }

  lemma LeftIsClose(s: Stream, r: Memory, j: nat)
    requires Holds(s, r) && Close(s, r) && IsFirst(j, r.held) && Holds(s, Left(r, j))
    ensures Close(s, Left(r, j))
  {
    forall k | k in Left(r, j).held ensures 0 < s.units[k].time - s.units[j].time <= 0x8000_0000 {
      assert k in r.held && j < k;
      HeldAreClose(s, r, j, k);
      TimeOrder(s, j, k);
    }
  }

  lemma OthersStayStored(s: Stream, r: Memory, frames: Frames, j: nat, k: nat)
    requires Holds(s, r) && Close(s, r) && j in r.held && k in r.held && k != j && Stores(s, r, frames, k)
    requires Holds(s, Left(r, j))
    ensures k in Left(r, j).held && Stores(s, Left(r, j), frames - {Wrap(s.units[j].time)}, k)
  {
    HeldAreClose(s, r, j, k);
    WrapOrder(s.units[j].time, s.units[k].time);
    TimeOrder(s, j, k);
  }

  lemma OthersStayRemembered(s: Stream, r: Memory, j: nat, ts: u32)
    requires Holds(s, r) && Holds(s, Left(r, j)) && j in r.held
    requires Remembered(s, r, ts) && ts != Wrap(s.units[j].time)
    ensures Remembered(s, Left(r, j), ts)
  {
    var k: nat :| k in r.held && Wrap(s.units[k].time) == ts;
    assert k in Left(r, j).held;
  }

  lemma LeaveRefines(s: Stream, r: Memory, st: State, j: nat)
    requires Holds(s, r) && Matches(s, r, st) && IsFirst(j, r.held) && Holds(s, Left(r, j))
    requires ValidState(Leave(st, Wrap(s.units[j].time)))
    ensures Matches(s, Left(r, j), Leave(st, Wrap(s.units[j].time)))
  {
    var ts, next := Wrap(s.units[j].time), Left(r, j);
    LeftIsClose(s, r, j);
    var fewer := st.frames - {ts};
    forall k: nat | k in next.held ensures Stores(s, next, fewer, k) {
      assert Stores(s, r, st.frames, k);
      OthersStayStored(s, r, st.frames, j, k);
    }
    forall t | t in fewer ensures Remembered(s, next, t) {
      assert Remembered(s, r, t);
      OthersStayRemembered(s, r, j, t);
    }
  }

  lemma CountingMatches(s: Stream, r: Memory, st: State)
    requires Holds(s, r) && Matches(s, r, st)
    ensures Matches(s, r, CountEmitted(st))
  {
  }

  /** One turn of the pop loop, in the buffer and in the reference. */
  lemma TurnRefines(s: Stream, cfg: Config, r: Memory, st: State, j: nat)
    requires Holds(s, r) && Matches(s, r, st) && ForVideo(cfg) && IsFirst(j, r.held)
    ensures Holds(s, Left(r, j))
    ensures var ts := Wrap(s.units[j].time);
            && IsOldest(ts, st.frames.Keys)
            && st.frames[ts].firstArrival == r.held[j].firstArrival
            && Matches(s, Left(r, j), Leave(st, ts))
            && Matches(s, Left(r, j), CountEmitted(Leave(st, ts)))
    ensures var pick := PickOf(s.units[j], s.maxPayload, j, r.held[j].indices);
            && (pick.Some? ==> ValidPick(s, pick.value))
            && Playout(cfg, st.frames[Wrap(s.units[j].time)]) ==
               if pick.None? then None else Some(FrameOf(s, pick.value))
  {
    var ts := Wrap(s.units[j].time);
    assert Stores(s, r, st.frames, j);
    FirstIsOldest(s, r, st, j);
    LeftHolds(s, r, j);
    assert Matches(s, Left(r, j), Leave(st, ts)) && Matches(s, Left(r, j), CountEmitted(Leave(st, ts))) by {
      LeaveKeepsValid(st, ts);
      LeaveRefines(s, r, st, j);
      CountingMatches(s, Left(r, j), Leave(st, ts));
    }
    PlayoutRefines(s, cfg, j, r.held[j], st.frames[ts]);
  }

  lemma NothingHeldNothingPending(s: Stream, r: Memory, st: State)
    requires Holds(s, r) && Matches(s, r, st) && r.held == map[]
    ensures st.frames == map[]
  {
    assert forall ts :: ts in st.frames ==> Remembered(s, r, ts);
  }

  /** The buffer ends up where the reference does and returns the frame it picked. */
  ghost predicate SameOutcome(s: Stream, next: Memory, pick: Option<Pick>, after: State, frame: Option<EncodedFrame>)
    requires Holds(s, next)
  {
    && Matches(s, next, after)
    && (pick.Some? ==> ValidPick(s, pick.value))
    && frame == if pick.None? then None else Some(FrameOf(s, pick.value))
  }

  lemma TurnOutcome(s: Stream, cfg: Config, r: Memory, st: State, now: int, j: nat)
    requires Holds(s, r) && Matches(s, r, st) && ForVideo(cfg) && IsFirst(j, r.held) && j == First(r.held)
    requires now - r.held[j].firstArrival < cfg.targetDelay
             || PickOf(s.units[j], s.maxPayload, j, r.held[j].indices).Some?
    ensures var (next, pick) := Asked(s, cfg.targetDelay, r, now);
            var (after, frame) := Popped(cfg, st, now);
            SameOutcome(s, next, pick, after, frame)
  {
    TurnRefines(s, cfg, r, st, j);
    PopTurn(cfg, st, now, Wrap(s.units[j].time));
  }

  lemma SkippedTurn(s: Stream, cfg: Config, r: Memory, st: State, now: int, j: nat)
    requires Holds(s, r) && Matches(s, r, st) && ForVideo(cfg) && IsFirst(j, r.held) && j == First(r.held)
    requires now - r.held[j].firstArrival >= cfg.targetDelay
    requires PickOf(s.units[j], s.maxPayload, j, r.held[j].indices).None?
    ensures Holds(s, Left(r, j)) && |Left(r, j).held| < |r.held|
    ensures Matches(s, Left(r, j), Leave(st, Wrap(s.units[j].time)))
    ensures Asked(s, cfg.targetDelay, r, now) == Asked(s, cfg.targetDelay, Left(r, j), now)
    ensures Popped(cfg, st, now) == Popped(cfg, Leave(st, Wrap(s.units[j].time)), now)
  {
    TurnRefines(s, cfg, r, st, j);
    PopTurn(cfg, st, now, Wrap(s.units[j].time));
    LeftHolds(s, r, j);
  }

  /** Asking the buffer for a frame gives the frame that the reference picks. */
  lemma {:induction false} PopRefines(s: Stream, cfg: Config, r: Memory, st: State, now: int)
    requires Holds(s, r) && Matches(s, r, st) && ForVideo(cfg)
    ensures var (next, pick) := Asked(s, cfg.targetDelay, r, now);
            var (after, frame) := Popped(cfg, st, now);
            SameOutcome(s, next, pick, after, frame)
    decreases |r.held|
  {
    if r.held == map[] {
      NothingHeldNothingPending(s, r, st);
    } else {
      var j := First(r.held);
      if now - r.held[j].firstArrival < cfg.targetDelay
         || PickOf(s.units[j], s.maxPayload, j, r.held[j].indices).Some? {
        TurnOutcome(s, cfg, r, st, now, j);
      } else {
        SkippedTurn(s, cfg, r, st, now, j);
        PopRefines(s, cfg, Left(r, j), Leave(st, Wrap(s.units[j].time)), now);
      }
    }
  }

  // ---- Whole runs ---------------------------------------------------------------------------

  /** A packet reaches the buffer as the datagram it was sent in, parsed. */
  ghost function Delivered(s: Stream, e: Event): (d: Run.Event)
    requires ValidStream(s)
    requires e.Arrive? ==> e.unit < |s.units| && e.packet < PacketCount(s.units[e.unit], s.maxPayload)
    ensures e.Arrive? ==> d == Run.Push(PacketsOf(s, e.unit)[e.packet], e.at)
  {
    match e
    case Arrive(j, i, at) =>
      ArrivesOverTheWire(s, j, i);
      Run.Push(Decode(Datagram(SentPackets(s, j)[i])).value, at)
    case Ask(now) => Run.Pop(now)
  }

  /** What the channel delivers to the buffer. */
  ghost function Channel(s: Stream, delay: int, r: Memory, events: seq<Event>): seq<Run.Event>
    requires Holds(s, r) && TimelyRun(s, delay, r, events)
    decreases |events|
  {
    if events == [] then []
    else
      match events[0]
      case Arrive(j, i, at) =>
        ArrivedHolds(s, r, j, i, at);
        [Delivered(s, events[0])] + Channel(s, delay, Arrived(r, j, i, at), events[1..])
      case Ask(now) =>
        [Delivered(s, events[0])] + Channel(s, delay, Asked(s, delay, r, now).0, events[1..])
  }

  ghost function FramesOf(s: Stream, picks: seq<Pick>): seq<EncodedFrame>
    requires forall k :: 0 <= k < |picks| ==> ValidPick(s, picks[k])
  {
    if picks == [] then [] else [FrameOf(s, picks[0])] + FramesOf(s, picks[1..])
  }

  ghost predicate RunMatches(s: Stream, cfg: Config, r: Memory, st: State, events: seq<Event>)
    requires Holds(s, r) && TimelyRun(s, cfg.targetDelay, r, events)
  {
    var delivered := Channel(s, cfg.targetDelay, r, events);
    var picks := Picks(s, cfg.targetDelay, r, events);
    && (forall k :: 0 <= k < |picks| ==> ValidPick(s, picks[k]))
    && Run.Orderly(cfg, st, delivered)
    && Run.Played(cfg, st, delivered).1 == FramesOf(s, picks)
  }

  lemma ArriveStep(s: Stream, cfg: Config, r: Memory, st: State, j: nat, i: nat, at: int, events: seq<Event>)
    requires Holds(s, r) && TimelyRun(s, cfg.targetDelay, r, events)
    requires events != [] && events[0] == Arrive(j, i, at)
    requires ValidState(st) && Holds(s, Arrived(r, j, i, at)) && CanPush(st, PacketsOf(s, j)[i].timestamp)
    requires RunMatches(s, cfg, Arrived(r, j, i, at), Pushed(st, PacketsOf(s, j)[i], at).0, events[1..])
    ensures RunMatches(s, cfg, r, st, events)
  {
    Run.PlayedPush(cfg, st, PacketsOf(s, j)[i], at, Channel(s, cfg.targetDelay, Arrived(r, j, i, at), events[1..]));
  }

  lemma AskStep(s: Stream, cfg: Config, r: Memory, st: State, now: int, events: seq<Event>)
    requires Holds(s, r) && TimelyRun(s, cfg.targetDelay, r, events) && events != [] && events[0] == Ask(now)
    requires ValidState(st)
    requires var (next, pick) := Asked(s, cfg.targetDelay, r, now);
             var (after, frame) := Popped(cfg, st, now);
             SameOutcome(s, next, pick, after, frame) && RunMatches(s, cfg, next, after, events[1..])
    ensures RunMatches(s, cfg, r, st, events)
  {
    var (next, pick) := Asked(s, cfg.targetDelay, r, now);
    Run.PlayedPop(cfg, st, now, Channel(s, cfg.targetDelay, next, events[1..]));
    FramesOfPicks(s, pick, Picks(s, cfg.targetDelay, next, events[1..]));
  }

  /** Every run of the buffer on what the channel delivers is orderly and hands out
      exactly the frames that the reference picks. */
  lemma {:induction false} RunRefines(s: Stream, cfg: Config, r: Memory, st: State, events: seq<Event>)
    requires Holds(s, r) && Matches(s, r, st) && ForVideo(cfg) && TimelyRun(s, cfg.targetDelay, r, events)
    ensures RunMatches(s, cfg, r, st, events)
    decreases |events|
  {
    if events != [] {
      match events[0]
      case Arrive(j, i, at) =>
        ArriveRefines(s, r, st, j, i, at);
        RunRefines(s, cfg, Arrived(r, j, i, at), Pushed(st, PacketsOf(s, j)[i], at).0, events[1..]);
        ArriveStep(s, cfg, r, st, j, i, at, events);
      case Ask(now) =>
        PopRefines(s, cfg, r, st, now);
        RunRefines(s, cfg, Asked(s, cfg.targetDelay, r, now).0, Popped(cfg, st, now).0, events[1..]);
        AskStep(s, cfg, r, st, now, events);
    }
  }

  lemma FramesOfPicks(s: Stream, pick: Option<Pick>, rest: seq<Pick>)
    requires pick.Some? ==> ValidPick(s, pick.value)
    requires forall k :: 0 <= k < |rest| ==> ValidPick(s, rest[k])
    ensures var all := (if pick.None? then [] else [pick.value]) + rest;
            (forall k :: 0 <= k < |all| ==> ValidPick(s, all[k])) &&
            FramesOf(s, all) == (if pick.None? then [] else [FrameOf(s, pick.value)]) + FramesOf(s, rest)
  {
    if pick.Some? {
      assert ([pick.value] + rest)[1..] == rest;
    } else {
      assert [] + rest == rest;
    }
  }

  lemma NothingMatches(s: Stream)
    requires ValidStream(s)
    ensures Holds(s, NOTHING) && Matches(s, NOTHING, EMPTY_STATE)
  {
    EmptyIsOrderable();
  }

  /** What the picks of a whole run owe to what had arrived: each starts at the first NAL
      unit exactly if the first packet of its unit arrived before it was asked for, and a
      unit that arrived completely before its turn is picked whole at its turn. */
  ghost predicate PicksWhatArrived(s: Stream, delay: int, events: seq<Event>)
    requires Holds(s, NOTHING) && TimelyRun(s, delay, NOTHING, events) && InStream(s, events)
  {
    var picks, asks := Picks(s, delay, NOTHING, events), AskedAt(s, delay, NOTHING, events, 0);
    && WholeIffHeadArrived(events, 0, picks, asks)
    && forall m: nat, j: nat {:trigger IsTurn(s, delay, events, m, j)} ::
         m < |events| && j < |s.units| && IsTurn(s, delay, events, m, j) && AllArrived(s, events, m, j) ==>
           PickedAt(picks, asks, m, Pick(j, 0))
  }

  lemma RunPicksWhatArrived(s: Stream, delay: int, events: seq<Event>)
    requires Holds(s, NOTHING) && TimelyRun(s, delay, NOTHING, events)
    ensures InStream(s, events) && PicksWhatArrived(s, delay, events)
  {
    TimelyIsInStream(s, delay, NOTHING, events);
    assert events[0..] == events && MemoryAt(s, delay, events, 0) == NOTHING;
    PicksFollowArrivals(s, delay, events, 0);
    forall m: nat, j: nat
      | m < |events| && j < |s.units| && IsTurn(s, delay, events, m, j) && AllArrived(s, events, m, j)
      ensures PickedAt(Picks(s, delay, NOTHING, events), AskedAt(s, delay, NOTHING, events, 0), m, Pick(j, 0))
    {
      WholeUnitsArePicked(s, delay, events, 0, m, j);
    }
  }

  /** End to end: whatever packets of the stream are lost, repeated or delivered out of
      order, the frames that come out are an order-preserving selection of the access
      units that went in, each at most once, and each in canonical form from one of its
      NAL units to its last. It is the whole unit exactly if the unit's first packet had
      arrived when the frame was asked for, and a unit that arrived completely before its
      turn does come out, and whole. */
  lemma ChannelSafety(s: Stream, cfg: Config, events: seq<Event>)
    requires ValidStream(s) && ForVideo(cfg)
    requires Holds(s, NOTHING) && TimelyRun(s, cfg.targetDelay, NOTHING, events)
    ensures var delivered := Channel(s, cfg.targetDelay, NOTHING, events);
            var picks := Picks(s, cfg.targetDelay, NOTHING, events);
            && InStreamOrder(s, -1, picks)
            && (forall k :: 0 <= k < |picks| ==> ValidPick(s, picks[k]))
            && Run.Orderly(cfg, EMPTY_STATE, delivered)
            && Run.Played(cfg, EMPTY_STATE, delivered).1 == FramesOf(s, picks)
    ensures InStream(s, events) && PicksWhatArrived(s, cfg.targetDelay, events)
  {
    NothingMatches(s);
    RunRefines(s, cfg, NOTHING, EMPTY_STATE, events);
    PicksAreInOrder(s, cfg.targetDelay, NOTHING, events);
    RunPicksWhatArrived(s, cfg.targetDelay, events);
  }
}
