/** The receive side of a group call: one inbound flow of packets is fanned out by SSRC
    into streams that appear, play and go away; callbacks tell the user interface. */
module ReceiveRouting {
  import opened Common
  import opened Serial
  import opened Rtp
  import opened Media
  import Jb = JitterBuffering
  import opened JitterDrain
  import opened CallbackProtocol

  datatype RouterConfig = RouterConfig(audioPayloadType: u8, targetDelay: int, streamTimeout: int)

  /** One sender's stream. It owns its jitter buffer, which is represented by its state. */
  datatype Stream = Stream(video: bool, jitter: Jb.State, announced: bool, lastPacket: int)

  type Streams = map<u32, Stream>

  function JitterConfig(cfg: RouterConfig, video: bool): Jb.Config {
    Jb.Config(cfg.targetDelay, if video then Video else Audio, H264, Opus)
  }

  ghost predicate ValidStreams(streams: Streams) {
    forall x :: x in streams ==> Jb.ValidState(streams[x].jitter)
  }

  // ---- Steps -------------------------------------------------------------------------

  /** The stream a packet belongs to, created on first sight of its SSRC. */
  function StreamFor(cfg: RouterConfig, streams: Streams, p: RtpPacket): Stream {
    if p.ssrc in streams then streams[p.ssrc]
    else Stream(p.payloadType != cfg.audioPayloadType, Jb.EMPTY_STATE, false, 0)
  }

  function PacketPushed(cfg: RouterConfig, streams: Streams, p: RtpPacket, arrival: int): Streams {
    var s := StreamFor(cfg, streams, p);
    streams[p.ssrc := s.(lastPacket := arrival, jitter := Jb.Pushed(s.jitter, p, arrival).0)]
  }

  predicate TimedOut(cfg: RouterConfig, s: Stream, now: int) {
    now - s.lastPacket > cfg.streamTimeout
  }

  /** The frames a stream has ready. */
  function FramesReady(cfg: RouterConfig, s: Stream, now: int): seq<EncodedFrame>
    requires Jb.ValidState(s.jitter)
  {
    Drained(JitterConfig(cfg, s.video), s.jitter, now).1
  }

  function Ticked(cfg: RouterConfig, s: Stream, now: int): Stream
    requires Jb.ValidState(s.jitter)
  {
    s.(jitter := Drained(JitterConfig(cfg, s.video), s.jitter, now).0,
       announced := s.announced || (s.video && FramesReady(cfg, s, now) != []))
  }

  function AfterTick(cfg: RouterConfig, streams: Streams, now: int): Streams
    requires ValidStreams(streams)
  {
    map x | x in streams && !TimedOut(cfg, streams[x], now) :: Ticked(cfg, streams[x], now)
  }

  function ReadyOf(cfg: RouterConfig, x: u32, s: Stream, now: int): seq<Ready>
    requires Jb.ValidState(s.jitter)
  {
    var frames := FramesReady(cfg, s, now);
    if TimedOut(cfg, s, now) || frames == [] then []
    else [Ready(x, s.video, s.video && !s.announced, frames)]
  }

  function RemovedOf(cfg: RouterConfig, x: u32, s: Stream, now: int): seq<u32> {
    if TimedOut(cfg, s, now) && s.video && s.announced then [x] else []
  }

  function AllReady(cfg: RouterConfig, streams: Streams, now: int, order: seq<u32>): seq<Ready>
    requires ValidStreams(streams) && forall k :: 0 <= k < |order| ==> order[k] in streams
  {
    if order == [] then []
    else
      var x := order[|order| - 1];
      AllReady(cfg, streams, now, order[..|order| - 1]) + ReadyOf(cfg, x, streams[x], now)
  }

  function AllRemoved(cfg: RouterConfig, streams: Streams, now: int, order: seq<u32>): seq<u32>
    requires forall k :: 0 <= k < |order| ==> order[k] in streams
  {
    if order == [] then []
    else
      var x := order[|order| - 1];
      AllRemoved(cfg, streams, now, order[..|order| - 1]) + RemovedOf(cfg, x, streams[x], now)
  }

  lemma AscendingAreKeys(streams: Streams)
    ensures forall k :: 0 <= k < |Ascending(streams.Keys)| ==> Ascending(streams.Keys)[k] in streams
  {
    forall k | 0 <= k < |Ascending(streams.Keys)| ensures Ascending(streams.Keys)[k] in streams {
      AscendingElements(streams.Keys, Ascending(streams.Keys)[k]);
    }
  }

  /** All callbacks of one tick: every ready stream in SSRC order, then the removals. */
  function TickCallbacks(cfg: RouterConfig, streams: Streams, now: int, decoders: Decoders): seq<Callback>
    requires ValidStreams(streams)
  {
    AscendingAreKeys(streams);
    var order := Ascending(streams.Keys);
    AllCallbacks(AllReady(cfg, streams, now, order), decoders)
    + RemovedCallbacks(AllRemoved(cfg, streams, now, order))
  }

  // ---- The callback protocol ---------------------------------------------------------------

  /** What the callbacks depend on, and the frames the jitter buffers hand out. */
  function OutlineOf(s: Stream): Outline {
    Outline(s.video, s.announced, s.lastPacket)
  }

  function OutlinesOf(streams: Streams): Outlines {
    map x | x in streams :: OutlineOf(streams[x])
  }

  function HandedOut(cfg: RouterConfig, streams: Streams, now: int): Handed
    requires ValidStreams(streams)
  {
    map x | x in streams :: FramesReady(cfg, streams[x], now)
  }

  /** A video stream whose arrival has been announced. */
  predicate Live(streams: Streams, x: u32) {
    x in streams && streams[x].video && streams[x].announced
  }

  /** Every SSRC has obeyed the protocol and is live in the callbacks exactly if it is an
      announced video stream of the router. */
  ghost predicate InProtocol(streams: Streams, trace: seq<Callback>) {
    forall x: u32 :: Standing(trace, x) == Some(Live(streams, x))
  }

  lemma InProtocolIs(streams: Streams, trace: seq<Callback>)
    ensures InProtocol(streams, trace) <==> Follows(OutlinesOf(streams), trace)
  {
    assert forall x: u32 :: Live(streams, x) == Announced(OutlinesOf(streams), x);
  }

  lemma {:induction false} WalkIs(cfg: RouterConfig, streams: Streams, now: int, order: seq<u32>)
    requires ValidStreams(streams) && forall k :: 0 <= k < |order| ==> order[k] in streams
    ensures var os, handed := OutlinesOf(streams), HandedOut(cfg, streams, now);
            && Known(os, order)
            && AllReady(cfg, streams, now, order) == ReadyAll(os, cfg.streamTimeout, now, handed, order)
            && AllRemoved(cfg, streams, now, order) == RemovedAll(os, cfg.streamTimeout, now, order)
  {
    if order != [] {
      WalkIs(cfg, streams, now, order[..|order| - 1]);
      VisitIs(cfg, streams, now, order[|order| - 1]);
    }
  }

  lemma HandedAt(cfg: RouterConfig, streams: Streams, now: int, x: u32)
    requires ValidStreams(streams) && x in streams
    ensures FramesOf(HandedOut(cfg, streams, now), x) == FramesReady(cfg, streams[x], now)
  {
  }

  lemma ReadyIs(cfg: RouterConfig, streams: Streams, now: int, x: u32, frames: seq<EncodedFrame>, handed: Handed)
    requires ValidStreams(streams) && x in streams
    requires frames == FramesReady(cfg, streams[x], now) == FramesOf(handed, x)
    ensures ReadyOf(cfg, x, streams[x], now) == ReadyOne(OutlinesOf(streams), cfg.streamTimeout, now, handed, x)
  {
  }

  lemma VisitIs(cfg: RouterConfig, streams: Streams, now: int, x: u32)
    requires ValidStreams(streams) && x in streams
    ensures var os, handed := OutlinesOf(streams), HandedOut(cfg, streams, now);
            && ReadyOf(cfg, x, streams[x], now) == ReadyOne(os, cfg.streamTimeout, now, handed, x)
            && RemovedOf(cfg, x, streams[x], now) == RemovedOne(os, cfg.streamTimeout, now, x)
  {
    HandedAt(cfg, streams, now, x);
    ReadyIs(cfg, streams, now, x, FramesReady(cfg, streams[x], now), HandedOut(cfg, streams, now));
  }

  lemma OutlineAfterTick(cfg: RouterConfig, streams: Streams, now: int, x: u32)
    requires ValidStreams(streams) && x in streams
    ensures var o := OutlineOf(streams[x]);
            && TimedOut(cfg, streams[x], now) == Idle(o, cfg.streamTimeout, now)
            && OutlineOf(Ticked(cfg, streams[x], now))
               == o.(announced := o.announced || (o.video && FramesOf(HandedOut(cfg, streams, now), x) != []))
  {
    HandedAt(cfg, streams, now, x);
  }

  lemma OutlinesAfterTick(cfg: RouterConfig, streams: Streams, now: int)
    requires ValidStreams(streams)
    ensures OutlinesOf(AfterTick(cfg, streams, now))
         == Turned(OutlinesOf(streams), cfg.streamTimeout, now, HandedOut(cfg, streams, now))
  {
    var after := AfterTick(cfg, streams, now);
    var turned := Turned(OutlinesOf(streams), cfg.streamTimeout, now, HandedOut(cfg, streams, now));
    forall x: u32 ensures (x in after <==> x in turned) && (x in after ==> OutlineOf(after[x]) == turned[x]) {
      if x in streams {
        OutlineAfterTick(cfg, streams, now, x);
      }
    }
  }

  lemma CallbacksOfTick(cfg: RouterConfig, streams: Streams, now: int, decoders: Decoders)
    requires ValidStreams(streams)
    ensures TickCallbacks(cfg, streams, now, decoders)
         == Fired(OutlinesOf(streams), cfg.streamTimeout, now, HandedOut(cfg, streams, now), decoders)
  {
    assert OutlinesOf(streams).Keys == streams.Keys;
    AscendingAreKeys(streams);
    WalkIs(cfg, streams, now, Ascending(streams.Keys));
  }

  /** A tick keeps every SSRC in the protocol: announced before its first picture, removed
      at most once after that, and live exactly while the router holds it announced. */
  lemma TickKeepsProtocol(cfg: RouterConfig, streams: Streams, now: int, decoders: Decoders, trace: seq<Callback>)
    requires ValidStreams(streams) && InProtocol(streams, trace)
    ensures InProtocol(AfterTick(cfg, streams, now), trace + TickCallbacks(cfg, streams, now, decoders))
  {
    InProtocolIs(streams, trace);
    OutlinesAfterTick(cfg, streams, now);
    CallbacksOfTick(cfg, streams, now, decoders);
    TurnKeepsFollowing(OutlinesOf(streams), cfg.streamTimeout, now, HandedOut(cfg, streams, now), decoders, trace);
    InProtocolIs(AfterTick(cfg, streams, now), trace + TickCallbacks(cfg, streams, now, decoders));
  }

  /** A packet fires no callback and announces nothing. */
  lemma PushKeepsProtocol(cfg: RouterConfig, streams: Streams, p: RtpPacket, arrival: int, trace: seq<Callback>)
    requires InProtocol(streams, trace)
    ensures InProtocol(PacketPushed(cfg, streams, p, arrival), trace)
  {
    forall x: u32 ensures Live(PacketPushed(cfg, streams, p, arrival), x) == Live(streams, x) {
    }
  }

  // ---- Whole runs ----------------------------------------------------------------------------

  datatype Step = Packet(p: RtpPacket, arrival: int) | Tick(now: int, decoders: Decoders)

  /** A packet that its stream's jitter buffer can take. */
  ghost predicate CanPush(cfg: RouterConfig, streams: Streams, p: RtpPacket) {
    Jb.CanPush(StreamFor(cfg, streams, p).jitter, p.timestamp)
  }

  lemma PushKeepsStreams(cfg: RouterConfig, streams: Streams, p: RtpPacket, arrival: int)
    requires ValidStreams(streams) && CanPush(cfg, streams, p)
    ensures ValidStreams(PacketPushed(cfg, streams, p, arrival))
  {
    Jb.EmptyIsOrderable();
    Jb.PushKeepsValid(StreamFor(cfg, streams, p).jitter, p, arrival);
  }

  /** Streams and callbacks after a run of packets and ticks, in any interleaving. */
  ghost function After(cfg: RouterConfig, steps: seq<Step>): Option<(Streams, seq<Callback>)> {
    if steps == [] then Some((map[], []))
    else
      var before := After(cfg, steps[..|steps| - 1]);
      if before.None? || !ValidStreams(before.value.0) then None
      else
        var (streams, trace) := before.value;
        match steps[|steps| - 1]
        case Packet(p, arrival) =>
          if CanPush(cfg, streams, p) then Some((PacketPushed(cfg, streams, p, arrival), trace)) else None
        case Tick(now, decoders) =>
          Some((AfterTick(cfg, streams, now), trace + TickCallbacks(cfg, streams, now, decoders)))
  }

  /** In every run whose packets the jitter buffers can take, the callbacks of each SSRC
      follow the protocol and agree with the streams the router holds. */
  lemma {:induction false} EveryRunIsInProtocol(cfg: RouterConfig, steps: seq<Step>)
    requires After(cfg, steps).Some?
    ensures var (streams, trace) := After(cfg, steps).value; ValidStreams(streams) && InProtocol(streams, trace)
  {
    if steps != [] {
      var n := |steps| - 1;
      EveryRunIsInProtocol(cfg, steps[..n]);
      var (streams, trace) := After(cfg, steps[..n]).value;
      match steps[n]
      case Packet(p, arrival) =>
        PushKeepsStreams(cfg, streams, p, arrival);
        PushKeepsProtocol(cfg, streams, p, arrival, trace);
      case Tick(now, decoders) =>
        TickKeepsProtocol(cfg, streams, now, decoders, trace);
    }
  }

  // ---- The router's object -----------------------------------------------------------------------

  /** The streams once those in `seen` have been handled. */
  ghost function Partly(cfg: RouterConfig, streams: Streams, now: int, seen: set<u32>): Streams
    requires ValidStreams(streams)
  {
    map x | x in streams && !(x in seen && TimedOut(cfg, streams[x], now)) ::
      if x in seen then Ticked(cfg, streams[x], now) else streams[x]
  }

  lemma PartlyReaps(cfg: RouterConfig, streams: Streams, now: int, seen: set<u32>, x: u32)
    requires ValidStreams(streams) && x in streams && x !in seen && TimedOut(cfg, streams[x], now)
    ensures Partly(cfg, streams, now, seen + {x}) == Partly(cfg, streams, now, seen) - {x}
  {
  }

  lemma PartlyDrains(cfg: RouterConfig, streams: Streams, now: int, seen: set<u32>, x: u32)
    requires ValidStreams(streams) && x in streams && x !in seen && !TimedOut(cfg, streams[x], now)
    ensures Partly(cfg, streams, now, seen + {x})
         == Partly(cfg, streams, now, seen)[x := Ticked(cfg, streams[x], now)]
  {
  }

  lemma PartlyStarts(cfg: RouterConfig, streams: Streams, now: int)
    requires ValidStreams(streams)
    ensures Partly(cfg, streams, now, {}) == streams
  {
  }

  lemma PartlyEnds(cfg: RouterConfig, streams: Streams, now: int, seen: set<u32>)
    requires ValidStreams(streams) && streams.Keys <= seen
    ensures Partly(cfg, streams, now, seen) == AfterTick(cfg, streams, now)
  {
    forall x | x in streams ensures x in seen {
      assert x in streams.Keys;
    }
  }

  ghost function SetOf(order: seq<u32>): set<u32> {
    if order == [] then {} else SetOf(order[..|order| - 1]) + {order[|order| - 1]}
  }

  lemma {:induction false} SetOfMember(order: seq<u32>, x: u32)
    ensures x in SetOf(order) <==> x in order
  {
    if order != [] {
      SetOfMember(order[..|order| - 1], x);
      assert order == order[..|order| - 1] + [order[|order| - 1]];
    }
  }

  /** The state of the walk after the streams in `done`. */
  ghost predicate Collected(cfg: RouterConfig, start: Streams, now: int, done: seq<u32>, streams: Streams,
                            ready: seq<Ready>, removed: seq<u32>) {
    && ValidStreams(start) && (forall k :: 0 <= k < |done| ==> done[k] in start)
    && streams == Partly(cfg, start, now, SetOf(done))
    && ready == AllReady(cfg, start, now, done)
    && removed == AllRemoved(cfg, start, now, done)
  }

  lemma StillThere(cfg: RouterConfig, start: Streams, now: int, done: seq<u32>, x: u32)
    requires ValidStreams(start) && x in start && x !in done
    ensures var streams := Partly(cfg, start, now, SetOf(done)); x in streams && streams[x] == start[x]
  {
    SetOfMember(done, x);
  }

  lemma CollectedStep(cfg: RouterConfig, start: Streams, now: int, done: seq<u32>, x: u32, streams: Streams,
                      ready: seq<Ready>, removed: seq<u32>)
    requires Collected(cfg, start, now, done, streams, ready, removed) && x in start && x !in done
    ensures Collected(cfg, start, now, done + [x],
                      if TimedOut(cfg, start[x], now) then streams - {x} else streams[x := Ticked(cfg, start[x], now)],
                      ready + ReadyOf(cfg, x, start[x], now), removed + RemovedOf(cfg, x, start[x], now))
  {
    WalkStep(cfg, start, now, done, x);
    SetOfMember(done, x);
    if TimedOut(cfg, start[x], now) {
      PartlyReaps(cfg, start, now, SetOf(done), x);
    } else {
      PartlyDrains(cfg, start, now, SetOf(done), x);
    }
  }

  lemma WalkStep(cfg: RouterConfig, start: Streams, now: int, done: seq<u32>, x: u32)
    requires ValidStreams(start) && x in start && forall k :: 0 <= k < |done| ==> done[k] in start
    ensures forall k :: 0 <= k < |done + [x]| ==> (done + [x])[k] in start
    ensures SetOf(done + [x]) == SetOf(done) + {x}
    ensures AllReady(cfg, start, now, done + [x]) == AllReady(cfg, start, now, done) + ReadyOf(cfg, x, start[x], now)
    ensures AllRemoved(cfg, start, now, done + [x])
         == AllRemoved(cfg, start, now, done) + RemovedOf(cfg, x, start[x], now)
  {
    assert (done + [x])[..|done|] == done;
  }

  lemma CollectedStarts(cfg: RouterConfig, start: Streams, now: int)
    requires ValidStreams(start)
    ensures Collected(cfg, start, now, [], start, [], [])
  {
    PartlyStarts(cfg, start, now);
  }

  lemma CollectedEnds(cfg: RouterConfig, start: Streams, now: int, streams: Streams,
                      ready: seq<Ready>, removed: seq<u32>)
    requires Collected(cfg, start, now, Ascending(start.Keys), streams, ready, removed)
    ensures streams == AfterTick(cfg, start, now)
  {
    var order := Ascending(start.Keys);
    forall x | x in start.Keys ensures x in SetOf(order) {
      AscendingElements(start.Keys, x);
      SetOfMember(order, x);
    }
    PartlyEnds(cfg, start, now, SetOf(order));
  }

  /** The k-th stream of the walk has not been visited before. */
  lemma NextOfWalk(start: Streams, k: nat)
    requires k < |Ascending(start.Keys)|
    ensures var order := Ascending(start.Keys);
            order[k] in start && order[k] !in order[..k] && order[..k] + [order[k]] == order[..k + 1]
  {
    AscendingAreKeys(start);
    AscendingIsOrdered(start.Keys);
  }

  method DrainStream(cfg: Jb.Config, st: Jb.State, now: int) returns (next: Jb.State, frames: seq<EncodedFrame>)
    requires Jb.ValidState(st)
    ensures (next, frames) == Drained(cfg, st, now)
  {
    next, frames := st, [];
    DrainStarts(cfg, st, now);
    while true
      invariant Jb.ValidState(next) && DrainsTo(cfg, st, now, frames, next)
      decreases |next.frames|
    {
      DrainGoesOn(cfg, st, now, frames, next);
      var (after, frame) := Jb.Popped(cfg, next, now);
      next := after;
      if frame.None? { return; }
      frames := frames + [frame.value];
    }
  }

  class ReceiveRouter {
    const config: RouterConfig
    var streams: Streams
    // Callbacks fired so far.
    var trace: seq<Callback>

    ghost predicate Valid()
      reads this
    {
      ValidStreams(streams) && InProtocol(streams, trace)
    }

    constructor (config: RouterConfig)
      ensures Valid() && this.config == config && streams == map[] && trace == []
    {
      this.config := config;
      streams, trace := map[], [];
    }

    method PushPacket(p: RtpPacket, arrival: int)
      requires Valid() && CanPush(config, streams, p)
      modifies this`streams
      ensures Valid()
      ensures streams == PacketPushed(config, old(streams), p, arrival)
    {
      PushKeepsStreams(config, streams, p, arrival);
      PushKeepsProtocol(config, streams, p, arrival, trace);
      var isAudio := p.payloadType == config.audioPayloadType;
      var s := if p.ssrc in streams then streams[p.ssrc] else Stream(!isAudio, Jb.EMPTY_STATE, false, 0);
      s := s.(lastPacket := arrival);
      s := s.(jitter := Jb.Pushed(s.jitter, p, arrival).0);
      streams := streams[p.ssrc := s];
    }

    /** Drain a stream that is not idle, and announce it with its first frames. */
    method DrainOne(x: u32, s: Stream, now: int) returns (next: Stream, ready: seq<Ready>)
      requires Jb.ValidState(s.jitter) && !TimedOut(config, s, now)
      ensures next == Ticked(config, s, now) && ready == ReadyOf(config, x, s, now)
    {
      var jitter, frames := DrainStream(JitterConfig(config, s.video), s.jitter, now);
      var announce := frames != [] && s.video && !s.announced;
      next := s.(jitter := jitter, announced := s.announced || announce);
      ready := if frames != [] then [Ready(x, s.video, announce, frames)] else [];
    }

    /** Reap a stream that has been idle for too long, or drain it. */
    method Visit(x: u32, now: int) returns (ready: seq<Ready>, removed: seq<u32>)
      requires x in streams && Jb.ValidState(streams[x].jitter)
      modifies this`streams
      ensures ready == ReadyOf(config, x, old(streams)[x], now)
      ensures removed == RemovedOf(config, x, old(streams)[x], now)
      ensures streams == if TimedOut(config, old(streams)[x], now) then old(streams) - {x}
                         else old(streams)[x := Ticked(config, old(streams)[x], now)]
    {
      ready, removed := [], [];
      var s := streams[x];
      if now - s.lastPacket > config.streamTimeout {
        if s.video && s.announced { removed := [x]; }
        streams := streams - {x};
      } else {
        s, ready := DrainOne(x, s, now);
        streams := streams[x := s];
      }
    }

    /** The locked phase of a tick: visit every stream in SSRC order. */
    method Collect(now: int) returns (ready: seq<Ready>, removed: seq<u32>)
      requires ValidStreams(streams)
      modifies this`streams
      ensures streams == AfterTick(config, old(streams), now)
      ensures var order := Ascending(old(streams).Keys);
              && (forall k :: 0 <= k < |order| ==> order[k] in old(streams))
              && ready == AllReady(config, old(streams), now, order)
              && removed == AllRemoved(config, old(streams), now, order)
    {
      ghost var start := streams;
      var order := Ascending(streams.Keys);
      CollectedStarts(config, start, now);
      ready, removed := [], [];
      for k := 0 to |order|
        invariant Collected(config, start, now, order[..k], streams, ready, removed)
      {
        var x := order[k];
        NextOfWalk(start, k);
        StillThere(config, start, now, order[..k], x);
        CollectedStep(config, start, now, order[..k], x, streams, ready, removed);
        var more, gone := Visit(x, now);
        ready, removed := ready + more, removed + gone;
      }
      assert order[..|order|] == order;
      CollectedEnds(config, start, now, streams, ready, removed);
    }

    method Deliver(r: Ready, decoders: Decoders)
      modifies this`trace
      ensures trace == old(trace) + ReadyCallbacks(r, decoders)
    {
      ghost var added: seq<Callback> := if r.video && r.announce then [Added(r.ssrc)] else [];
      if r.video && r.announce { trace := trace + [Added(r.ssrc)]; }
      for n := 0 to |r.frames|
        invariant trace == old(trace) + (added + Outputs(r, n, decoders))
      {
        if decoders(r.ssrc, n) {
          trace := trace + [if r.video then Picture(r.ssrc, r.frames[n]) else Sound(r.ssrc, r.frames[n])];
        }
      }
    }

    /** Announce, decode and deliver what is ready, then report the streams that went. */
    method Tick(now: int, decoders: Decoders)
      requires Valid()
      modifies this
      ensures Valid()
      ensures streams == AfterTick(config, old(streams), now)
      ensures trace == old(trace) + TickCallbacks(config, old(streams), now, decoders)
    {
      TickKeepsProtocol(config, streams, now, decoders, trace);
      Fire(now, decoders);
    }

    method DeliverAll(ready: seq<Ready>, decoders: Decoders)
      modifies this`trace
      ensures trace == old(trace) + AllCallbacks(ready, decoders)
    {
      for k := 0 to |ready|
        invariant trace == old(trace) + AllCallbacks(ready[..k], decoders)
      {
        assert ready[..k + 1][..k] == ready[..k];
        Associate(old(trace), AllCallbacks(ready[..k], decoders), ReadyCallbacks(ready[k], decoders));
        Deliver(ready[k], decoders);
      }
      assert ready[..|ready|] == ready;
    }

    method ReportRemoved(removed: seq<u32>)
      modifies this`trace
      ensures trace == old(trace) + RemovedCallbacks(removed)
    {
      for k := 0 to |removed|
        invariant trace == old(trace) + RemovedCallbacks(removed[..k])
      {
        assert removed[..k + 1][..k] == removed[..k];
        trace := trace + [Removed(removed[k])];
      }
      assert removed[..|removed|] == removed;
    }

    method Fire(now: int, decoders: Decoders)
      requires ValidStreams(streams)
      modifies this
      ensures streams == AfterTick(config, old(streams), now)
      ensures trace == old(trace) + TickCallbacks(config, old(streams), now, decoders)
    {
      var ready, removed := Collect(now);
      Associate(trace, AllCallbacks(ready, decoders), RemovedCallbacks(removed));
      DeliverAll(ready, decoders);
      ReportRemoved(removed);
    }
  }
}
