/** The reference receiver for audio: what the jitter buffer is meant to do with any packets
    of one audio stream. It keeps lists of packets and neither counts nor tracks anything
    that the buffer does. */
module AudioReceiver {
  import opened Common
  import opened Serial
  import opened Rtp
  import opened Media
  import opened JitterFrame
  import opened JitterBuffering
  import Run = JitterRun

  /** The packets taken for one timestamp, in order of arrival, and when the first came. */
  datatype Held = Held(firstArrival: int, packets: seq<RtpPacket>)

  /** What is held by timestamp, and the timestamp that was played last. */
  datatype Memory = Memory(held: map<u32, Held>, last: Option<u32>)

  const NOTHING := Memory(map[], None)

  ghost predicate ValidMemory(r: Memory) {
    forall ts :: ts in r.held ==> r.held[ts].packets != []
  }

  // ---- Steps -------------------------------------------------------------------------

  ghost predicate HasNumber(ps: seq<RtpPacket>, q: u16) {
    exists k :: 0 <= k < |ps| && ps[k].sequenceNumber == q
  }

  /** Whether a timestamp comes after another: at most half the space ahead. */
  predicate Ahead(last: u32, ts: u32) {
    1 <= Ticks(last, ts) <= 0x8000_0000
  }

  /** How far one timestamp is ahead of another, and one number of another. */
  function Ticks(a: u32, b: u32): u32 { (b - a) % 0x1_0000_0000 }

  function Numbers(a: u16, b: u16): u16 { (b - a) % 0x1_0000 }

  function Opposite(ts: u32): u32 { (ts + 0x8000_0000) % 0x1_0000_0000 }

  /** Where a packet is kept: with its own timestamp, or with the one exactly opposite, which
      cannot be told from it, if only that is there. */
  function Slot(r: Memory, ts: u32): u32 {
    if ts !in r.held && Opposite(ts) in r.held then Opposite(ts) else ts
  }

  /** A packet is ignored if what it belongs to has been played or if its number is there. */
  ghost function Taken(r: Memory, p: RtpPacket, at: int): (next: Memory)
    requires ValidMemory(r)
    ensures ValidMemory(next)
  {
    var slot := Slot(r, p.timestamp);
    if r.last.Some? && !Ahead(r.last.value, p.timestamp) then r
    else if slot !in r.held then r.(held := r.held[slot := Held(at, [p])])
    else if HasNumber(r.held[slot].packets, p.sequenceNumber) then r
    else r.(held := r.held[slot := r.held[slot].(packets := r.held[slot].packets + [p])])
  }

  /** The packet that comes before every one that came earlier, serially. */
  function Lowest(ps: seq<RtpPacket>): (p: RtpPacket)
    requires ps != []
    ensures p in ps
  {
    var n := |ps| - 1;
    if n == 0 then ps[0]
    else
      var low := Lowest(ps[..n]);
      if 1 <= Numbers(ps[n].sequenceNumber, low.sequenceNumber) < 0x8000 then ps[n] else low
  }

  /** The frame that is played of some packets, whether or not one of them is marked. */
  function SoundOf(codec: AudioCodec, ps: seq<RtpPacket>): EncodedFrame
    requires ps != []
  {
    EncodedFrame(Audio, UnknownVideo, codec, false, Lowest(ps).timestamp, Lowest(ps).payload)
  }

  /** The timestamp that all others held come after. */
  ghost predicate IsNext(r: Memory, ts: u32) {
    ts in r.held && forall k :: k in r.held && k != ts ==> 1 <= Ticks(ts, k) < 0x8000_0000
  }

  ghost predicate IsRipe(r: Memory, delay: int, now: int, ts: u32) {
    IsNext(r, ts) && now - r.held[ts].firstArrival >= delay
  }

  /** The oldest timestamp plays, always, once it has been held for `delay`. */
  ghost function Asked(r: Memory, delay: int, codec: AudioCodec, now: int): (a: (Memory, Option<EncodedFrame>))
    requires ValidMemory(r)
    ensures ValidMemory(a.0)
  {
    if ts: u32 :| IsRipe(r, delay, now, ts) then
      (Memory(r.held - {ts}, Some(ts)), Some(SoundOf(codec, r.held[ts].packets)))
    else (r, None)
  }

  /** What is held after a run, and everything played during it. */
  ghost function Heard(r: Memory, delay: int, codec: AudioCodec, events: seq<Run.Event>)
    : (h: (Memory, seq<EncodedFrame>))
    requires ValidMemory(r)
    ensures ValidMemory(h.0)
    decreases |events|
  {
    if events == [] then (r, [])
    else
      match events[0]
      case Push(p, at) => Heard(Taken(r, p, at), delay, codec, events[1..])
      case Pop(now) =>
        var (next, frame) := Asked(r, delay, codec, now);
        var (last, rest) := Heard(next, delay, codec, events[1..]);
        (last, (if frame.None? then [] else [frame.value]) + rest)
  }

  // ---- What the reference guarantees -------------------------------------------------

  lemma NextIsUnique(r: Memory, a: u32, b: u32)
    requires IsNext(r, a) && IsNext(r, b)
    ensures a == b
  {
  }

  /** Packets that fit in one half of the number space: the lowest is the one that all others
      come after. */
  lemma {:induction false} LowestIsLowest(base: u16, ps: seq<RtpPacket>, k: nat)
    requires ps != [] && k < |ps|
    requires forall i :: 0 <= i < |ps| ==> SeqDistance(base, ps[i].sequenceNumber) < 0x8000
    ensures SeqDistance(base, Lowest(ps).sequenceNumber) <= SeqDistance(base, ps[k].sequenceNumber)
  {
    var n := |ps| - 1;
    if n > 0 {
      LowestIsLowest(base, ps[..n], if k < n then k else 0);
      assert Lowest(ps[..n]) in ps;
      LowerOfTwo(base, ps, ps[n].sequenceNumber, Lowest(ps[..n]).sequenceNumber);
    }
  }

  lemma LowerOfTwo(base: u16, ps: seq<RtpPacket>, a: u16, b: u16)
    requires |ps| > 1 && a == ps[|ps| - 1].sequenceNumber && b == Lowest(ps[..|ps| - 1]).sequenceNumber
    requires SeqDistance(base, a) < 0x8000 && SeqDistance(base, b) < 0x8000
    ensures SeqDistance(base, Lowest(ps).sequenceNumber) == Min(SeqDistance(base, a), SeqDistance(base, b))
  {
    LowerInWindow(base, a, b);
  }

  lemma LowerInWindow(base: u16, a: u16, b: u16)
    requires SeqDistance(base, a) < 0x8000 && SeqDistance(base, b) < 0x8000
    ensures 1 <= Numbers(a, b) < 0x8000 <==> SeqDistance(base, a) < SeqDistance(base, b)
  {
    NumbersAre(a, b);
    SeqLessInWindow(base, a, b);
  }

  lemma NumbersAre(a: u16, b: u16)
    ensures Numbers(a, b) == SeqDistance(a, b)
  {
  }

  // ---- The buffer refines it ---------------------------------------------------------

  ghost predicate ForAudio(cfg: Config) { cfg.kind == Audio }

  ghost predicate SlotMatches(h: Held, f: PendingFrame) {
    && h.packets != [] && f.firstArrival == h.firstArrival
    && f.minSeq == Lowest(h.packets).sequenceNumber
    && (forall k :: 0 <= k < |h.packets| ==>
          h.packets[k].sequenceNumber in f.packets && f.packets[h.packets[k].sequenceNumber] == h.packets[k])
    && (forall q {:trigger HasNumber(h.packets, q)} :: q in f.packets ==> HasNumber(h.packets, q))
  }

  ghost predicate Matches(r: Memory, st: State) {
    && ValidState(st) && r.held.Keys == st.frames.Keys && r.last == Run.LastLeft(st)
    && forall ts :: ts in r.held ==> SlotMatches(r.held[ts], st.frames[ts])
  }

  lemma NumberIffStored(h: Held, f: PendingFrame, q: u16)
    requires SlotMatches(h, f)
    ensures HasNumber(h.packets, q) <==> q in f.packets
  {
  }

  lemma FirstMatches(p: RtpPacket, ts: u32, at: int)
    ensures SlotMatches(Held(at, [p]), Admit(NewFrame(ts, at), p))
  {
    var f := Admit(NewFrame(ts, at), p);
    forall q | q in f.packets ensures HasNumber([p], q) {
      assert [p][0].sequenceNumber == q;
    }
  }

  lemma LowestOfMore(ps: seq<RtpPacket>, p: RtpPacket, f: PendingFrame)
    requires ps != [] && f.seqInit && f.minSeq == Lowest(ps).sequenceNumber
    ensures Admit(f, p).minSeq == Lowest(ps + [p]).sequenceNumber
  {
    assert (ps + [p])[..|ps|] == ps;
    NumbersAre(p.sequenceNumber, f.minSeq);
  }

  lemma NextMatches(h: Held, f: PendingFrame, p: RtpPacket)
    requires SlotMatches(h, f) && f.seqInit && !HasNumber(h.packets, p.sequenceNumber)
    ensures SlotMatches(h.(packets := h.packets + [p]), Admit(f, p))
  {
    var ps, g := h.packets + [p], Admit(f, p);
    LowestOfMore(h.packets, p, f);
    forall k | 0 <= k < |ps| ensures ps[k].sequenceNumber in g.packets && g.packets[ps[k].sequenceNumber] == ps[k] {
      if k < |h.packets| {
        assert ps[k] == h.packets[k];
        assert HasNumber(h.packets, ps[k].sequenceNumber);
      }
    }
    forall q | q in g.packets ensures HasNumber(ps, q) {
      if q == p.sequenceNumber {
        assert ps[|h.packets|].sequenceNumber == q;
      } else {
        assert HasNumber(h.packets, q);
        var k :| 0 <= k < |h.packets| && h.packets[k].sequenceNumber == q;
        assert ps[k].sequenceNumber == q;
      }
    }
  }

  lemma OppositeIs(ts: u32)
    ensures Opposite(ts) == Antipode(ts)
  {
  }

  lemma DistanceIs(a: u32, b: u32)
    ensures Ticks(a, b) == TsDistance(a, b)
  {
  }

  lemma SameKeys(r: Memory, st: State, ts: u32)
    requires r.held.Keys == st.frames.Keys
    ensures ts in r.held <==> ts in st.frames
  {
    assert ts in r.held <==> ts in r.held.Keys;
  }

  lemma SameSlot(r: Memory, st: State, ts: u32)
    requires Matches(r, st)
    ensures Slot(r, ts) == KeyFor(st.frames, ts)
  {
    OppositeIs(ts);
    SameKeys(r, st, ts);
    SameKeys(r, st, Antipode(ts));
  }

  lemma LateIffNotAhead(r: Memory, st: State, ts: u32)
    requires r.last == Run.LastLeft(st)
    ensures IsLate(st, ts) <==> r.last.Some? && !Ahead(r.last.value, ts)
  {
    if r.last.Some? {
      DistanceIs(r.last.value, ts);
      LateExactly(st, ts);
    }
  }

  lemma FiledMatches(r: Memory, st: State, slot: u32, h: Held, f: PendingFrame, next: State)
    requires ValidMemory(r) && Matches(r, st) && SlotMatches(h, f) && ValidState(next)
    requires next.frames == st.frames[slot := f] && Run.LastLeft(next) == Run.LastLeft(st)
    ensures Matches(r.(held := r.held[slot := h]), next)
  {
    assert r.held[slot := h].Keys == r.held.Keys + {slot} == next.frames.Keys;
  }

  /** A packet takes the buffer where it takes the reference. */
  lemma TakeRefines(r: Memory, st: State, p: RtpPacket, at: int)
    requires ValidMemory(r) && Matches(r, st) && CanPush(st, p.timestamp)
    ensures Matches(Taken(r, p, at), Pushed(st, p, at).0)
  {
    var slot, next := Slot(r, p.timestamp), Pushed(st, p, at).0;
    SameSlot(r, st, p.timestamp);
    LateIffNotAhead(r, st, p.timestamp);
    PushKeepsValid(st, p, at);
    if !IsLate(st, p.timestamp) {
      if slot in r.held {
        assert slot in st.frames.Keys;
        var h, f := r.held[slot], st.frames[slot];
        NumberIffStored(h, f, p.sequenceNumber);
        if p.sequenceNumber !in f.packets {
          NextMatches(h, f, p);
          FiledMatches(r, st, slot, h.(packets := h.packets + [p]), Admit(f, p), next);
        }
      } else {
        assert slot !in st.frames.Keys;
        FirstMatches(p, slot, at);
        FiledMatches(r, st, slot, Held(at, [p]), Admit(NewFrame(slot, at), p), next);
      }
    }
  }

  /** An audio frame always plays, with the packet of the lowest number. */
  lemma PlaysLowest(cfg: Config, h: Held, f: PendingFrame)
    requires ForAudio(cfg) && SlotMatches(h, f) && ValidFrame(f)
    ensures Playout(cfg, f) == Some(SoundOf(cfg.audioCodec, h.packets))
  {
    var low := Lowest(h.packets);
    var k :| 0 <= k < |h.packets| && h.packets[k] == low;
    assert f.packets[f.minSeq] == low && InOrder(f)[0] == low;
  }

  lemma NextIsOldest(r: Memory, st: State, ts: u32)
    requires Matches(r, st)
    ensures IsNext(r, ts) <==> IsOldest(ts, st.frames.Keys)
  {
    forall k: u32 ensures k in r.held <==> k in st.frames.Keys {
      SameKeys(r, st, k);
    }
    forall k: u32 ensures k != ts ==> (1 <= Ticks(ts, k) < 0x8000_0000 <==> TsLess(ts, k)) {
      DistanceIs(ts, k);
    }
  }

  lemma LeftMatches(r: Memory, st: State, ts: u32)
    requires ValidMemory(r) && Matches(r, st) && IsOldest(ts, st.frames.Keys)
    ensures Matches(Memory(r.held - {ts}, Some(ts)), CountEmitted(Leave(st, ts)))
  {
    LeaveKeepsValid(st, ts);
    assert (r.held - {ts}).Keys == r.held.Keys - {ts} == (st.frames - {ts}).Keys;
  }

  /** Asking the buffer gives the sound that the reference plays, and matching states. */
  lemma AskRefines(cfg: Config, r: Memory, st: State, now: int)
    requires ForAudio(cfg) && ValidMemory(r) && Matches(r, st)
    ensures var (next, sound) := Asked(r, cfg.targetDelay, cfg.audioCodec, now);
            var (after, frame) := Popped(cfg, st, now);
            Matches(next, after) && frame == sound
  {
    if st.frames == map[] {
      assert r.held.Keys == {};
    } else {
      ValidIsOrderable(st);
      var ts := Oldest(st.frames.Keys);
      OldestAsked(cfg, r, st, now, ts);
    }
  }

  lemma OldestAsked(cfg: Config, r: Memory, st: State, now: int, ts: u32)
    requires ForAudio(cfg) && ValidMemory(r) && Matches(r, st) && IsOldest(ts, st.frames.Keys)
    ensures var (next, sound) := Asked(r, cfg.targetDelay, cfg.audioCodec, now);
            var (after, frame) := Popped(cfg, st, now);
            Matches(next, after) && frame == sound
  {
    NextIsOldest(r, st, ts);
    PopTurn(cfg, st, now, ts);
    PlaysLowest(cfg, r.held[ts], st.frames[ts]);
    LeftMatches(r, st, ts);
    if k: u32 :| IsRipe(r, cfg.targetDelay, now, k) {
      NextIsUnique(r, ts, k);
    }
    assert IsRipe(r, cfg.targetDelay, now, ts) <==> Elapsed(cfg, st.frames[ts], now);
    AskedIs(r, cfg.targetDelay, cfg.audioCodec, now, ts);
  }

  /** Only the oldest can be the one that plays. */
  lemma AskedIs(r: Memory, delay: int, codec: AudioCodec, now: int, ts: u32)
    requires ValidMemory(r) && IsNext(r, ts)
    ensures Asked(r, delay, codec, now)
         == if now - r.held[ts].firstArrival < delay then (r, None)
            else (Memory(r.held - {ts}, Some(ts)), Some(SoundOf(codec, r.held[ts].packets)))
  {
    forall k: u32 | IsRipe(r, delay, now, k) ensures k == ts {
      NextIsUnique(r, ts, k);
    }
    assert now - r.held[ts].firstArrival >= delay ==> IsRipe(r, delay, now, ts);
  }

  lemma HeardPush(r: Memory, delay: int, codec: AudioCodec, events: seq<Run.Event>)
    requires ValidMemory(r) && events != [] && events[0].Push?
    ensures Heard(r, delay, codec, events)
         == Heard(Taken(r, events[0].packet, events[0].arrival), delay, codec, events[1..])
  {
  }

  lemma HeardPop(r: Memory, delay: int, codec: AudioCodec, events: seq<Run.Event>)
    requires ValidMemory(r) && events != [] && events[0].Pop?
    ensures var (next, frame) := Asked(r, delay, codec, events[0].now);
            var (last, rest) := Heard(next, delay, codec, events[1..]);
            Heard(r, delay, codec, events) == (last, (if frame.None? then [] else [frame.value]) + rest)
  {
  }

  /** Over every run of any packets and at any times, the buffer plays exactly what the
      reference does: each timestamp it took a packet for, once it is the oldest and its
      delay has elapsed, with the packet of the lowest number. */
  lemma {:induction false} RunRefines(cfg: Config, r: Memory, st: State, events: seq<Run.Event>)
    requires ForAudio(cfg) && ValidMemory(r) && Matches(r, st) && Run.Orderly(cfg, st, events)
    ensures var (last, sounds) := Heard(r, cfg.targetDelay, cfg.audioCodec, events);
            var (after, frames) := Run.Played(cfg, st, events);
            Matches(last, after) && frames == sounds
    decreases |events|
  {
    if events != [] {
      match events[0]
      case Push(p, at) =>
        TakeRefines(r, st, p, at);
        HeardPush(r, cfg.targetDelay, cfg.audioCodec, events);
        RunRefines(cfg, Taken(r, p, at), Pushed(st, p, at).0, events[1..]);
      case Pop(now) =>
        AskRefines(cfg, r, st, now);
        HeardPop(r, cfg.targetDelay, cfg.audioCodec, events);
        RunRefines(cfg, Asked(r, cfg.targetDelay, cfg.audioCodec, now).0, Popped(cfg, st, now).0, events[1..]);
    }
  }

  /** A run from the beginning. */
  lemma AudioPlaysAsHeard(cfg: Config, events: seq<Run.Event>)
    requires ForAudio(cfg) && Run.Orderly(cfg, EMPTY_STATE, events)
    ensures Run.Played(cfg, EMPTY_STATE, events).1 == Heard(NOTHING, cfg.targetDelay, cfg.audioCodec, events).1
  {
    EmptyIsOrderable();
    RunRefines(cfg, NOTHING, EMPTY_STATE, events);
  }
}
