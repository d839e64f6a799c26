/** The jitter buffer: groups RTP packets into access units by timestamp, holds each for
    a target delay and plays the complete ones out in timestamp order. */
module JitterBuffering {
  import opened Common
  import opened Serial
  import opened Rtp
  import opened Media
  import opened RtpHandling
  import opened JitterFrame

  // Instants and durations are integers in nanoseconds.

  datatype Config = Config(targetDelay: int, kind: MediaKind, videoCodec: VideoCodec, audioCodec: AudioCodec)

  datatype Stats = Stats(pushed: nat, duplicates: nat, late: nat, emitted: nat, reordered: nat)

  const NO_STATS := Stats(0, 0, 0, 0, 0)

  type Frames = map<u32, PendingFrame>

  /** Everything the buffer remembers. */
  datatype State = State(frames: Frames, hasEmitted: bool, lastEmittedTs: u32, stats: Stats)

  const EMPTY_STATE := State(map[], false, 0, NO_STATS)

  // ---- Invariant ---------------------------------------------------------------------

  ghost predicate ValidFrames(frames: Frames) {
    forall ts :: ts in frames ==> ValidFrame(frames[ts]) && frames[ts].timestamp == ts
  }

  /** What makes timestamp order sound: every pending timestamp lies in the half of the
      space just after the last one played out. */
  ghost predicate AfterLast(st: State) {
    forall ts :: ts in st.frames ==> 1 <= TsDistance(st.lastEmittedTs, ts) <= 0x8000_0000
  }

  ghost predicate ValidState(st: State) {
    && ValidFrames(st.frames)
    && (st.hasEmitted ==> AfterLast(st))
    && (!st.hasEmitted ==> Orderable(st.frames.Keys))
  }

  lemma AfterLastIsOrderable(st: State)
    requires AfterLast(st)
    ensures Orderable(st.frames.Keys)
  {
    var base: u32 := if st.lastEmittedTs == 0xFFFF_FFFF then 0 else st.lastEmittedTs + 1;
    assert TsWindow(base, st.frames.Keys);
  }

  lemma ValidIsOrderable(st: State)
    requires ValidState(st)
    ensures Orderable(st.frames.Keys)
  {
    if st.hasEmitted {
      AfterLastIsOrderable(st);
    }
  }

  /** In every valid state the timestamp comparison is a strict total order on the
      pending timestamps, so the ordered map of pending frames is well defined. */
  lemma PendingTimestampsAreOrdered(st: State)
    requires ValidState(st)
    ensures StrictTotalOrder(st.frames.Keys)
  {
    ValidIsOrderable(st);
    OrderableExactly(st.frames.Keys);
  }

  // ---- Push -----------------------------------------------------------------------------

  predicate IsLate(st: State, ts: u32) {
    st.hasEmitted && (ts == st.lastEmittedTs || TsLess(ts, st.lastEmittedTs))
  }

  /** What the ordered map demands of its caller when it is consulted at all: a comparison
      that is a strict weak order on the timestamps it holds and the one looked up. */
  ghost predicate CanPush(st: State, ts: u32) {
    IsLate(st, ts) || StrictWeakOrder(st.frames.Keys + {ts})
  }

  /** The key under which the map finds a timestamp: the one it cannot tell from it. */
  function KeyFor(frames: Frames, ts: u32): (key: u32)
    ensures TsEquivalent(key, ts)
  {
    EquivalentExactly(ts, Antipode(ts));
    if ts !in frames && Antipode(ts) in frames then Antipode(ts) else ts
  }

  function FrameFor(frames: Frames, key: u32, arrival: int): PendingFrame {
    if key in frames then frames[key] else NewFrame(key, arrival)
  }

  function Pushed(st: State, p: RtpPacket, arrival: int): (State, bool) {
    var key := KeyFor(st.frames, p.timestamp);
    var f := FrameFor(st.frames, key, arrival);
    if IsLate(st, p.timestamp) then
      (st.(stats := st.stats.(late := st.stats.late + 1)), false)
    else if p.sequenceNumber in f.packets then
      (st.(stats := st.stats.(duplicates := st.stats.duplicates + 1)), false)
    else
      var early := f.seqInit && SeqLess(p.sequenceNumber, f.maxSeq);
      var stats := st.stats.(pushed := st.stats.pushed + 1,
                             reordered := st.stats.reordered + if early then 1 else 0);
      (st.(frames := st.frames[key := Admit(f, p)], stats := stats), true)
  }

  /** The late check puts a timestamp in the half space after the last one played out. */
  lemma LateExactly(st: State, ts: u32)
    requires st.hasEmitted
    ensures IsLate(st, ts) <==> !(1 <= TsDistance(st.lastEmittedTs, ts) <= 0x8000_0000)
  {
  }

  /** Once a frame has left, every push meets the map's demand. */
  lemma LaterPushIsOrdered(st: State, ts: u32)
    requires ValidState(st) && st.hasEmitted
    ensures CanPush(st, ts) && (!IsLate(st, ts) ==> Orderable(st.frames.Keys + {ts}))
  {
    if !IsLate(st, ts) {
      LateExactly(st, ts);
      var base: u32 := if st.lastEmittedTs == 0xFFFF_FFFF then 0 else st.lastEmittedTs + 1;
      assert TsWindow(base, st.frames.Keys + {ts});
      StrictWeakExactly(st.frames.Keys + {ts});
    }
  }

  lemma KeyIsOwn(frames: Frames, ts: u32)
    requires Orderable(frames.Keys + {ts})
    ensures KeyFor(frames, ts) == ts && StrictWeakOrder(frames.Keys + {ts})
  {
    StrictWeakExactly(frames.Keys + {ts});
    var base: u32 :| TsWindow(base, frames.Keys + {ts});
    AntipodeIsOutside(base, frames.Keys + {ts}, ts);
  }

  /** With the map's demand met, a packet goes to the frame of its own timestamp, unless the
      only frame there is lies exactly half the space away. */
  lemma KeyExactly(st: State, ts: u32)
    requires ValidState(st) && StrictWeakOrder(st.frames.Keys + {ts})
    ensures if Orderable(st.frames.Keys + {ts}) then KeyFor(st.frames, ts) == ts
            else KeyFor(st.frames, ts) == Antipode(ts) && st.frames.Keys == {Antipode(ts)}
  {
    var keys := st.frames.Keys + {ts};
    StrictWeakExactly(keys);
    if Orderable(keys) {
      KeyIsOwn(st.frames, ts);
    } else {
      var a: u32 :| keys == {a, Antipode(a)};
      EquivalentExactly(a, ts);
      assert keys == {ts, Antipode(ts)};
      NotAlreadyThere(st, ts);
      assert Antipode(ts) in keys;
    }
  }

  lemma NotAlreadyThere(st: State, ts: u32)
    requires ValidState(st) && !Orderable(st.frames.Keys + {ts})
    ensures ts !in st.frames
  {
    ValidIsOrderable(st);
    assert ts in st.frames ==> st.frames.Keys + {ts} == st.frames.Keys;
  }

  lemma PushKeepsValid(st: State, p: RtpPacket, arrival: int)
    requires ValidState(st) && CanPush(st, p.timestamp)
    ensures ValidState(Pushed(st, p, arrival).0)
  {
    var key := KeyFor(st.frames, p.timestamp);
    var f := FrameFor(st.frames, key, arrival);
    if !IsLate(st, p.timestamp) && p.sequenceNumber !in f.packets {
      KeyExactly(st, p.timestamp);
      if key in st.frames {
        NextPacket(st.frames[key], p);
      } else {
        FirstPacket(key, arrival, p);
      }
      FiledKeepsValid(st, key, Admit(f, p), Pushed(st, p, arrival).0);
    }
  }

  /** A frame filed under a key that is in order. */
  lemma FiledKeepsValid(st: State, key: u32, f: PendingFrame, next: State)
    requires ValidState(st) && ValidFrame(f) && f.timestamp == key
    requires key in st.frames || Orderable(st.frames.Keys + {key})
    requires st.hasEmitted ==> 1 <= TsDistance(st.lastEmittedTs, key) <= 0x8000_0000
    requires next == State(st.frames[key := f], st.hasEmitted, st.lastEmittedTs, next.stats)
    ensures ValidState(next)
  {
    assert next.frames.Keys == st.frames.Keys + {key};
    assert key in st.frames ==> next.frames.Keys == st.frames.Keys;
  }

  /** Every push is counted in exactly one of pushed, duplicates and late; it is accepted
      if it was counted as pushed, and otherwise leaves the frames alone. */
  lemma PushIsCountedOnce(st: State, p: RtpPacket, arrival: int)
    ensures var (next, accepted) := Pushed(st, p, arrival);
            && next.stats.pushed == st.stats.pushed + (if accepted then 1 else 0)
            && next.stats.duplicates + next.stats.late
               == st.stats.duplicates + st.stats.late + (if accepted then 0 else 1)
            && (next.stats.late > st.stats.late <==> IsLate(st, p.timestamp))
            && next.stats.emitted == st.stats.emitted
            && (next.stats.reordered > st.stats.reordered ==> accepted)
            && (!accepted ==> next.frames == st.frames)
            && (accepted ==> var key := KeyFor(st.frames, p.timestamp);
                             && key in next.frames
                             && p.sequenceNumber in next.frames[key].packets
                             && next.frames[key].packets[p.sequenceNumber] == p)
  {
  }

  /** A packet is counted as reordered exactly if it is accepted and its frame holds a packet
      with a later number, as long as the frame's numbers fit in one half of the space. */
  lemma ReorderedExactly(st: State, p: RtpPacket, arrival: int, base: u16)
    requires ValidState(st) && Orderable(st.frames.Keys + {p.timestamp})
    requires p.timestamp in st.frames ==>
               SeqWindow(base, st.frames[p.timestamp].packets.Keys + {p.sequenceNumber})
    ensures var (next, accepted) := Pushed(st, p, arrival);
            && (next.stats.reordered == st.stats.reordered || next.stats.reordered == st.stats.reordered + 1)
            && (next.stats.reordered > st.stats.reordered <==>
                  accepted && p.timestamp in st.frames
                  && exists q :: q in st.frames[p.timestamp].packets && SeqLess(p.sequenceNumber, q))
  {
    KeyIsOwn(st.frames, p.timestamp);
    if p.timestamp in st.frames {
      EarlyExactly(st.frames[p.timestamp], p.sequenceNumber, base);
    }
  }

  lemma EarlyExactly(f: PendingFrame, s: u16, base: u16)
    requires ValidFrame(f) && SeqWindow(base, f.packets.Keys + {s})
    ensures SeqLess(s, f.maxSeq) <==> exists q :: q in f.packets && SeqLess(s, q)
  {
    assert SeqWindow(base, f.packets.Keys);
    SpansIffExtremes(base, f);
    assert s in f.packets.Keys + {s} && f.maxSeq in f.packets.Keys + {s};
    SeqLessInWindow(base, s, f.maxSeq);
    if q :| q in f.packets && SeqLess(s, q) {
      assert q in f.packets.Keys + {s} && q in f.packets.Keys;
      SeqLessInWindow(base, s, q);
    }
  }

  /** A packet that is already there changes nothing but the count of duplicates. */
  lemma DuplicateChangesNothing(st: State, p: RtpPacket, arrival: int)
    requires !IsLate(st, p.timestamp) && p.timestamp in st.frames
    requires p.sequenceNumber in st.frames[p.timestamp].packets
    ensures Pushed(st, p, arrival) == (st.(stats := st.stats.(duplicates := st.stats.duplicates + 1)), false)
  {
  }

  lemma PlayoutIs(cfg: Config, f: PendingFrame, r: Result<EncodedFrame>)
    requires Complete(cfg, f) && Depacketized(InOrder(f), cfg.kind, cfg.videoCodec, cfg.audioCodec) == r
    ensures Playout(cfg, f) == if r.Err? then None else Some(r.value)
  {
  }

  // ---- Pop --------------------------------------------------------------------------------

  predicate Complete(cfg: Config, f: PendingFrame) {
    if cfg.kind == Audio then f.packets != map[] else CompleteVideo(f)
  }

  /** What playing a frame out yields: nothing for an incomplete or malformed one. */
  function Playout(cfg: Config, f: PendingFrame): Option<EncodedFrame> {
    if !Complete(cfg, f) then None
    else
      match Depacketized(InOrder(f), cfg.kind, cfg.videoCodec, cfg.audioCodec)
      case Err(_) => None
      case Ok(frame) => Some(frame)
  }

  predicate Elapsed(cfg: Config, f: PendingFrame, now: int) {
    now - f.firstArrival >= cfg.targetDelay
  }

  /** The state once frame `ts` has left the buffer, played out or abandoned. */
  function Leave(st: State, ts: u32): State {
    st.(frames := st.frames - {ts}, hasEmitted := true, lastEmittedTs := ts)
  }

  function CountEmitted(st: State): State {
    st.(stats := st.stats.(emitted := st.stats.emitted + 1))
  }

  lemma LeaveKeepsValid(st: State, ts: u32)
    requires ValidState(st) && IsOldest(ts, st.frames.Keys)
    ensures ValidState(Leave(st, ts))
  {
    var next := Leave(st, ts);
    forall k | k in next.frames ensures 1 <= TsDistance(ts, k) <= 0x8000_0000 {
      assert k in st.frames.Keys && TsLess(ts, k);
    }
  }

  function Popped(cfg: Config, st: State, now: int): (r: (State, Option<EncodedFrame>))
    requires ValidState(st)
    ensures ValidState(r.0) && |r.0.frames| <= |st.frames|
    ensures r.1.Some? ==> |r.0.frames| < |st.frames|
    decreases |st.frames|
  {
    if st.frames == map[] then (st, None)
    else
      ValidIsOrderable(st);
      var ts := Oldest(st.frames.Keys);
      var f := st.frames[ts];
      if !Elapsed(cfg, f, now) then (st, None)
      else
        LeaveKeepsValid(st, ts);
        RemovedIsSmaller(st.frames, ts);
        match Playout(cfg, f)
        case None => Popped(cfg, Leave(st, ts), now)
        case Some(frame) => (CountEmitted(Leave(st, ts)), Some(frame))
  }

  /** One turn of the pop loop on the oldest frame. */
  lemma PopTurn(cfg: Config, st: State, now: int, ts: u32)
    requires ValidState(st) && IsOldest(ts, st.frames.Keys)
    ensures ValidState(Leave(st, ts)) && |Leave(st, ts).frames| < |st.frames|
    ensures var f := st.frames[ts];
            Popped(cfg, st, now)
            == if !Elapsed(cfg, f, now) then (st, None)
               else match Playout(cfg, f)
                    case None => Popped(cfg, Leave(st, ts), now)
                    case Some(frame) => (CountEmitted(Leave(st, ts)), Some(frame))
  {
    LeaveKeepsValid(st, ts);
    RemovedIsSmaller(st.frames, ts);
    ValidIsOrderable(st);
    OldestIsUnique(st.frames.Keys, ts, Oldest(st.frames.Keys));
  }

  lemma OldestIsUnique(keys: set<u32>, a: u32, b: u32)
    requires Orderable(keys) && IsOldest(a, keys) && IsOldest(b, keys)
    ensures a == b
  {
    OrderableExactly(keys);
  }

  // ---- The buffer -----------------------------------------------------------------------------

  class JitterBuffer {
    const config: Config
    var frames: Frames
    var hasEmitted: bool
    var lastEmittedTs: u32
    var stats: Stats

    ghost function Current(): State
      reads this
    {
      State(frames, hasEmitted, lastEmittedTs, stats)
    }

    ghost predicate Valid()
      reads this
    {
      ValidState(Current())
    }

    constructor (config: Config)
      ensures Valid() && this.config == config && Current() == EMPTY_STATE
    {
      this.config := config;
      frames, hasEmitted, lastEmittedTs, stats := map[], false, 0, NO_STATS;
      new;
      EmptyIsOrderable();
    }

    /** Store a packet in the frame it belongs to, keeping track of the extremes. */
    static method Store(f: PendingFrame, packet: RtpPacket) returns (frame: PendingFrame)
      ensures frame == Admit(f, packet)
    {
      frame := f;
      var s := packet.sequenceNumber;
      if !frame.seqInit {
        frame := frame.(minSeq := s, maxSeq := s, seqInit := true);
      } else {
        if SeqLess(s, frame.minSeq) { frame := frame.(minSeq := s); }
        if SeqLess(frame.maxSeq, s) { frame := frame.(maxSeq := s); }
      }
      if packet.marker { frame := frame.(hasMarker := true); }
      frame := frame.(packets := frame.packets[s := packet]);
    }

    method Push(packet: RtpPacket, arrival: int) returns (accepted: bool)
      requires Valid() && CanPush(Current(), packet.timestamp)
      modifies this
      ensures Valid()
      ensures (Current(), accepted) == Pushed(old(Current()), packet, arrival)
    {
      PushKeepsValid(Current(), packet, arrival);
      var ts := packet.timestamp;
      if hasEmitted && (ts == lastEmittedTs || TsLess(ts, lastEmittedTs)) {
        stats := stats.(late := stats.late + 1);
        return false;
      }
      accepted := File(packet, arrival);
    }

    /** Store a packet that is not late in its frame, which the map finds or creates. */
    method File(packet: RtpPacket, arrival: int) returns (accepted: bool)
      requires !IsLate(Current(), packet.timestamp)
      modifies this
      ensures (Current(), accepted) == Pushed(old(Current()), packet, arrival)
    {
      var key := KeyFor(frames, packet.timestamp);
      var frame := if key in frames then frames[key] else NewFrame(key, arrival);
      if packet.sequenceNumber in frame.packets {
        stats := stats.(duplicates := stats.duplicates + 1);
        return false;
      }
      if frame.seqInit && SeqLess(packet.sequenceNumber, frame.maxSeq) {
        stats := stats.(reordered := stats.reordered + 1);
      }
      frame := Store(frame, packet);
      frames := frames[key := frame];
      stats := stats.(pushed := stats.pushed + 1);
      return true;
    }

    /** Depacketize a complete frame in playout order. */
    method Play(f: PendingFrame) returns (r: Option<EncodedFrame>)
      ensures r == Playout(config, f)
    {
      if !Complete(config, f) { return None; }
      var ordered := OrderedPackets(f);
      var result := Depacketize(ordered, config.kind, config.videoCodec, config.audioCodec);
      return if result.Err? then None else Some(result.value);
    }

    /** Take the oldest frame out and play it; nothing if it is incomplete or malformed. */
    method TakeOldest(ts: u32) returns (r: Option<EncodedFrame>)
      requires Valid() && IsOldest(ts, frames.Keys)
      modifies this
      ensures r == Playout(config, old(frames)[ts])
      ensures Current() == if r.None? then Leave(old(Current()), ts) else CountEmitted(Leave(old(Current()), ts))
    {
      r := Play(frames[ts]);
      frames := frames - {ts};
      hasEmitted, lastEmittedTs := true, ts;
      if r.Some? { stats := stats.(emitted := stats.emitted + 1); }
    }

    method Pop(now: int) returns (r: Option<EncodedFrame>)
      requires Valid()
      modifies this
      ensures Valid()
      ensures (Current(), r) == Popped(config, old(Current()), now)
    {
      r := None;
      while frames != map[]
        invariant Valid() && r.None?
        invariant Popped(config, Current(), now) == Popped(config, old(Current()), now)
        decreases |frames|
      {
        ValidIsOrderable(Current());
        var ts := Oldest(frames.Keys);
        PopTurn(config, Current(), now, ts);
        if now - frames[ts].firstArrival < config.targetDelay { return; }
        r := TakeOldest(ts);
        if r.Some? { return; }
      }
    }

    /** The gaps of every pending frame, oldest frame first. */
    method Gaps() returns (gaps: seq<SequenceGap>)
      requires Valid()
      ensures Orderable(frames.Keys) && gaps == AllGaps(frames)
    {
      ValidIsOrderable(Current());
      gaps := [];
      var rest := frames;
      while rest != map[]
        invariant Orderable(rest.Keys) && AllGaps(frames) == gaps + AllGaps(rest)
        decreases |rest|
      {
        var ts := Oldest(rest.Keys);
        RemovedIsSmaller(rest, ts);
        SubsetIsOrderable(rest.Keys, (rest - {ts}).Keys);
        var found := CollectGaps(rest[ts]);
        Associate(gaps, found, AllGaps(rest - {ts}));
        gaps := gaps + found;
        rest := rest - {ts};
      }
    }
  }

  lemma EmptyIsOrderable()
    ensures ValidState(EMPTY_STATE)
  {
    assert TsWindow(0, EMPTY_STATE.frames.Keys);
  }

  lemma SubsetIsOrderable(keys: set<u32>, some: set<u32>)
    requires Orderable(keys) && some <= keys
    ensures Orderable(some)
  {
    var base: u32 :| TsWindow(base, keys);
    assert TsWindow(base, some);
  }

  function AllGaps(frames: Frames): seq<SequenceGap>
    requires Orderable(frames.Keys)
    decreases |frames|
  {
    if frames == map[] then []
    else
      var ts := Oldest(frames.Keys);
      RemovedIsSmaller(frames, ts);
      SubsetIsOrderable(frames.Keys, (frames - {ts}).Keys);
      FrameGaps(frames[ts]) + AllGaps(frames - {ts})
  }
}
