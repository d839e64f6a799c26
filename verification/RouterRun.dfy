/** Whole runs of the receive router, one SSRC at a time: what a stream is and what is fired
    for it, told from the run alone. */
module RouterRun {
  import opened Common
  import opened Serial
  import opened Rtp
  import opened Media
  import opened CallbackProtocol
  import opened ReceiveRouting
  import opened JitterDrain
  import Jb = JitterBuffering
  import Run = JitterRun

  // ---- The life of a stream ----------------------------------------------------------

  /** When the last packet of a life arrived. */
  function LastArrival(life: seq<Step>): int {
    if life == [] then 0
    else
      match life[|life| - 1]
      case Packet(_, arrival) => arrival
      case Tick(_, _) => LastArrival(life[..|life| - 1])
  }

  /** The packets of an SSRC since its stream appeared and the ticks it survived. A tick
      ends it if its last packet lies more than the timeout back. */
  function LifeOf(timeout: int, x: u32, steps: seq<Step>): Option<seq<Step>> {
    if steps == [] then None
    else
      var before, last := LifeOf(timeout, x, steps[..|steps| - 1]), steps[|steps| - 1];
      match last
      case Packet(p, _) =>
        if p.ssrc != x then before else Some((if before.None? then [] else before.value) + [last])
      case Tick(now, _) =>
        if before.None? || now - LastArrival(before.value) > timeout then None else Some(before.value + [last])
  }

  /** What the first packet of a life makes of the stream. */
  function ConfigOf(cfg: RouterConfig, life: seq<Step>): Jb.Config {
    var audio := life != [] && life[0].Packet? && life[0].p.payloadType == cfg.audioPayloadType;
    Jb.Config(cfg.targetDelay, if audio then Audio else Video, H264, Opus)
  }

  function Pops(now: int, n: nat): (pops: seq<Run.Event>)
    ensures |pops| == n
  {
    if n == 0 then [] else [Run.Pop(now)] + Pops(now, n - 1)
  }

  /** What happens to the jitter buffer: each packet is pushed, and each tick asks for
      frames as often as there can be any, and once more. */
  function EventsOf(life: seq<Step>): seq<Run.Event> {
    if life == [] then []
    else
      EventsOf(life[..|life| - 1]) +
      match life[|life| - 1]
      case Packet(p, arrival) => [Run.Push(p, arrival)]
      case Tick(now, _) => Pops(now, |life|)
  }

  ghost predicate CanPlay(cfg: RouterConfig, life: seq<Step>) {
    Run.Orderly(ConfigOf(cfg, life), Jb.EMPTY_STATE, EventsOf(life))
  }

  /** The state of the jitter buffer and everything it has handed out. */
  ghost function PlayedIn(cfg: RouterConfig, life: seq<Step>): (Jb.State, seq<EncodedFrame>)
    requires CanPlay(cfg, life)
  {
    Run.Played(ConfigOf(cfg, life), Jb.EMPTY_STATE, EventsOf(life))
  }

  /** The stream that the router holds is what its life makes of it. */
  ghost predicate LivesBy(cfg: RouterConfig, s: Stream, life: seq<Step>) {
    && life != [] && life[0].Packet? && CanPlay(cfg, life)
    && (s.video <==> life[0].p.payloadType != cfg.audioPayloadType)
    && s.lastPacket == LastArrival(life)
    && s.jitter == PlayedIn(cfg, life).0 && |s.jitter.frames| <= |life|
    && (s.announced <==> s.video && PlayedIn(cfg, life).1 != [])
  }

  ghost predicate StreamIs(cfg: RouterConfig, streams: Streams, x: u32, life: Option<seq<Step>>) {
    && (x in streams <==> life.Some?)
    && (x in streams ==> LivesBy(cfg, streams[x], life.value))
  }

  // ---- The jitter buffer over a life -------------------------------------------------

  /** Playing two runs one after the other is playing both in one. */
  ghost predicate PlaysOn(cfg: Jb.Config, st: Jb.State, a: seq<Run.Event>, b: seq<Run.Event>)
    requires Run.Orderly(cfg, st, a) && Run.Orderly(cfg, Run.Played(cfg, st, a).0, b)
  {
    && Run.Orderly(cfg, st, a + b)
    && var (mid, first) := Run.Played(cfg, st, a);
       var (last, second) := Run.Played(cfg, mid, b);
       Run.Played(cfg, st, a + b) == (last, first + second)
  }

  lemma PlaysOnAfterPush(cfg: Jb.Config, st: Jb.State, p: RtpPacket, at: int, rest: seq<Run.Event>, b: seq<Run.Event>)
    requires Jb.ValidState(st) && Jb.CanPush(st, p.timestamp)
    requires var next := Jb.Pushed(st, p, at).0;
             && Run.Orderly(cfg, next, rest) && Run.Orderly(cfg, Run.Played(cfg, next, rest).0, b)
             && PlaysOn(cfg, next, rest, b)
    ensures Run.Orderly(cfg, st, [Run.Push(p, at)] + rest)
    ensures Run.Orderly(cfg, Run.Played(cfg, st, [Run.Push(p, at)] + rest).0, b)
    ensures PlaysOn(cfg, st, [Run.Push(p, at)] + rest, b)
  {
    Run.PlayedPush(cfg, st, p, at, rest);
    Run.PlayedPush(cfg, st, p, at, rest + b);
    Associate([Run.Push(p, at)], rest, b);
  }

  lemma PlaysOnAfterPop(cfg: Jb.Config, st: Jb.State, now: int, rest: seq<Run.Event>, b: seq<Run.Event>)
    requires Jb.ValidState(st)
    requires var next := Jb.Popped(cfg, st, now).0;
             && Run.Orderly(cfg, next, rest) && Run.Orderly(cfg, Run.Played(cfg, next, rest).0, b)
             && PlaysOn(cfg, next, rest, b)
    ensures Run.Orderly(cfg, st, [Run.Pop(now)] + rest)
    ensures Run.Orderly(cfg, Run.Played(cfg, st, [Run.Pop(now)] + rest).0, b)
    ensures PlaysOn(cfg, st, [Run.Pop(now)] + rest, b)
  {
    var (next, frame) := Jb.Popped(cfg, st, now);
    Run.PlayedPop(cfg, st, now, rest);
    Run.PlayedPop(cfg, st, now, rest + b);
    Associate([Run.Pop(now)], rest, b);
    var (mid, first) := Run.Played(cfg, next, rest);
    Associate(if frame.None? then [] else [frame.value], first, Run.Played(cfg, mid, b).1);
  }

  lemma PlaysOnFromNothing(cfg: Jb.Config, st: Jb.State, b: seq<Run.Event>)
    requires Run.Orderly(cfg, st, b)
    ensures PlaysOn(cfg, st, [], b)
  {
    assert [] + b == b;
    assert [] + Run.Played(cfg, st, b).1 == Run.Played(cfg, st, b).1;
  }

  lemma {:induction false} PlayedOn(cfg: Jb.Config, st: Jb.State, a: seq<Run.Event>, b: seq<Run.Event>)
    requires Run.Orderly(cfg, st, a) && Run.Orderly(cfg, Run.Played(cfg, st, a).0, b)
    ensures PlaysOn(cfg, st, a, b)
    decreases |a|
  {
    if a == [] {
      PlaysOnFromNothing(cfg, st, b);
    } else {
      assert [a[0]] + a[1..] == a;
      match a[0]
      case Push(p, at) =>
        PlayedOn(cfg, Jb.Pushed(st, p, at).0, a[1..], b);
        PlaysOnAfterPush(cfg, st, p, at, a[1..], b);
      case Pop(now) =>
        PlayedOn(cfg, Jb.Popped(cfg, st, now).0, a[1..], b);
        PlaysOnAfterPop(cfg, st, now, a[1..], b);
    }
  }

  /** Asking again at once changes nothing. */
  lemma {:induction false} NothingLeft(cfg: Jb.Config, st: Jb.State, now: int)
    requires Jb.ValidState(st) && Jb.Popped(cfg, st, now).1.None?
    ensures Jb.Popped(cfg, Jb.Popped(cfg, st, now).0, now) == Jb.Popped(cfg, st, now)
    decreases |st.frames|
  {
    if st.frames != map[] {
      Jb.ValidIsOrderable(st);
      var ts := Oldest(st.frames.Keys);
      Jb.PopTurn(cfg, st, now, ts);
      if Jb.Elapsed(cfg, st.frames[ts], now) && Jb.Playout(cfg, st.frames[ts]).None? {
        NothingLeft(cfg, Jb.Leave(st, ts), now);
      }
    }
  }

  lemma PoppedOnce(cfg: Jb.Config, st: Jb.State, now: int, n: nat)
    requires n > 0 && Jb.ValidState(st) && Run.Orderly(cfg, Jb.Popped(cfg, st, now).0, Pops(now, n - 1))
    ensures Run.Orderly(cfg, st, Pops(now, n))
    ensures var (next, frame) := Jb.Popped(cfg, st, now);
            var (last, rest) := Run.Played(cfg, next, Pops(now, n - 1));
            Run.Played(cfg, st, Pops(now, n)) == (last, if frame.None? then rest else [frame.value] + rest)
  {
    Run.PlayedPop(cfg, st, now, Pops(now, n - 1));
    var rest := Run.Played(cfg, Jb.Popped(cfg, st, now).0, Pops(now, n - 1)).1;
    assert [] + rest == rest;
  }

  lemma {:induction false} IdlePops(cfg: Jb.Config, st: Jb.State, now: int, n: nat)
    requires Jb.ValidState(st) && Jb.Popped(cfg, st, now) == (st, None)
    ensures Run.Orderly(cfg, st, Pops(now, n)) && Run.Played(cfg, st, Pops(now, n)) == (st, [])
  {
    if n > 0 {
      IdlePops(cfg, st, now, n - 1);
      PoppedOnce(cfg, st, now, n);
    }
  }

  /** Popping `n` times is draining. */
  ghost predicate Drains(cfg: Jb.Config, st: Jb.State, now: int, n: nat)
    requires Jb.ValidState(st)
  {
    Run.Orderly(cfg, st, Pops(now, n)) && Run.Played(cfg, st, Pops(now, n)) == Drained(cfg, st, now)
  }

  lemma IdleDrain(cfg: Jb.Config, st: Jb.State, now: int, n: nat)
    requires n > 0 && Jb.ValidState(st) && Jb.Popped(cfg, st, now).1.None?
    ensures Drains(cfg, st, now, n)
  {
    NothingLeft(cfg, st, now);
    IdlePops(cfg, Jb.Popped(cfg, st, now).0, now, n - 1);
    PoppedOnce(cfg, st, now, n);
  }

  lemma BusyDrain(cfg: Jb.Config, st: Jb.State, now: int, n: nat, next: Jb.State)
    requires n > 0 && Jb.ValidState(st) && Jb.Popped(cfg, st, now).1.Some? && next == Jb.Popped(cfg, st, now).0
    requires Drains(cfg, next, now, n - 1)
    ensures Drains(cfg, st, now, n)
  {
    PoppedOnce(cfg, st, now, n);
  }

  lemma PopTakes(cfg: Jb.Config, st: Jb.State, now: int) returns (next: Jb.State)
    requires Jb.ValidState(st) && Jb.Popped(cfg, st, now).1.Some?
    ensures next == Jb.Popped(cfg, st, now).0 && Jb.ValidState(next) && |next.frames| < |st.frames|
  {
    next := Jb.Popped(cfg, st, now).0;
  }

  /** Popping more often than there are frames is draining. */
  lemma {:induction false} PopsDrain(cfg: Jb.Config, st: Jb.State, now: int, n: nat)
    requires Jb.ValidState(st) && n > |st.frames|
    ensures Drains(cfg, st, now, n)
    decreases n
  {
    if Jb.Popped(cfg, st, now).1.None? {
      IdleDrain(cfg, st, now, n);
    } else {
      var next := PopTakes(cfg, st, now);
      PopsDrain(cfg, next, now, n - 1);
      BusyDrain(cfg, st, now, n, next);
    }
  }

  lemma {:induction false} DrainShrinks(cfg: Jb.Config, st: Jb.State, now: int)
    requires Jb.ValidState(st)
    ensures |Drained(cfg, st, now).0.frames| <= |st.frames|
    decreases |st.frames|
  {
    if Jb.Popped(cfg, st, now).1.Some? {
      DrainShrinks(cfg, Jb.Popped(cfg, st, now).0, now);
    }
  }

  lemma PushGrows(st: Jb.State, p: RtpPacket, arrival: int)
    ensures |Jb.Pushed(st, p, arrival).0.frames| <= |st.frames| + 1
  {
    var after := Jb.Pushed(st, p, arrival).0.frames;
    var key := Jb.KeyFor(st.frames, p.timestamp);
    assert after == st.frames || after.Keys == st.frames.Keys + {key};
    assert |after| == |after.Keys| && |st.frames| == |st.frames.Keys|;
  }

  // ---- One step of a life ------------------------------------------------------------

  lemma LifeGoesOn(life: seq<Step>, last: Step)
    ensures LastArrival(life + [last]) == if last.Packet? then last.arrival else LastArrival(life)
    ensures EventsOf(life + [last])
         == EventsOf(life) + if last.Packet? then [Run.Push(last.p, last.arrival)] else Pops(last.now, |life| + 1)
  {
    assert (life + [last])[..|life|] == life;
  }

  /** A packet, the first of its stream or a later one. */
  lemma PacketLives(cfg: RouterConfig, streams: Streams, x: u32, life: Option<seq<Step>>, last: Step)
    requires StreamIs(cfg, streams, x, life) && ValidStreams(streams)
    requires last.Packet? && last.p.ssrc == x && CanPush(cfg, streams, last.p)
    ensures var more := (if life.None? then [] else life.value) + [last];
            LivesBy(cfg, PacketPushed(cfg, streams, last.p, last.arrival)[x], more)
  {
    if life.None? {
      FirstPacketLives(cfg, last);
      assert [] + [last] == [last];
    } else {
      NextPacketLives(cfg, streams[x], life.value, last);
    }
  }

  lemma FirstPacketLives(cfg: RouterConfig, last: Step)
    requires last.Packet? && Jb.CanPush(Jb.EMPTY_STATE, last.p.timestamp)
    ensures LivesBy(cfg, Stream(last.p.payloadType != cfg.audioPayloadType,
                                Jb.Pushed(Jb.EMPTY_STATE, last.p, last.arrival).0, false, last.arrival), [last])
  {
    LifeGoesOn([], last);
    assert [] + [last] == [last];
    Jb.EmptyIsOrderable();
    PushedOn(ConfigOf(cfg, [last]), [], Jb.EMPTY_STATE, last.p, last.arrival);
    PushGrows(Jb.EMPTY_STATE, last.p, last.arrival);
  }

  lemma NextPacketLives(cfg: RouterConfig, s: Stream, life: seq<Step>, last: Step)
    requires LivesBy(cfg, s, life) && last.Packet? && Jb.CanPush(s.jitter, last.p.timestamp)
    ensures LivesBy(cfg, s.(lastPacket := last.arrival, jitter := Jb.Pushed(s.jitter, last.p, last.arrival).0),
                    life + [last])
  {
    LifeGoesOn(life, last);
    assert (life + [last])[0] == life[0];
    PushedOn(ConfigOf(cfg, life), EventsOf(life), s.jitter, last.p, last.arrival);
    PushGrows(s.jitter, last.p, last.arrival);
  }

  lemma PushedOn(cfg: Jb.Config, events: seq<Run.Event>, st: Jb.State, p: RtpPacket, at: int)
    requires Run.Orderly(cfg, Jb.EMPTY_STATE, events) && st == Run.Played(cfg, Jb.EMPTY_STATE, events).0
    requires Jb.CanPush(st, p.timestamp)
    ensures Run.Orderly(cfg, Jb.EMPTY_STATE, events + [Run.Push(p, at)])
    ensures Run.Played(cfg, Jb.EMPTY_STATE, events + [Run.Push(p, at)])
         == (Jb.Pushed(st, p, at).0, Run.Played(cfg, Jb.EMPTY_STATE, events).1)
  {
    Jb.PushKeepsValid(st, p, at);
    PlayedOnePush(cfg, st, p, at);
    PlayedOn(cfg, Jb.EMPTY_STATE, events, [Run.Push(p, at)]);
    var frames := Run.Played(cfg, Jb.EMPTY_STATE, events).1;
    assert frames + [] == frames;
  }

  lemma PlayedOnePush(cfg: Jb.Config, st: Jb.State, p: RtpPacket, at: int)
    requires Jb.ValidState(st) && Jb.CanPush(st, p.timestamp) && Jb.ValidState(Jb.Pushed(st, p, at).0)
    ensures Run.Orderly(cfg, st, [Run.Push(p, at)])
    ensures Run.Played(cfg, st, [Run.Push(p, at)]) == (Jb.Pushed(st, p, at).0, [])
  {
    Run.PlayedPush(cfg, st, p, at, []);
    assert [Run.Push(p, at)] + [] == [Run.Push(p, at)];
  }

  /** A tick that the stream survives: what it hands out is what popping does. */
  lemma TickLives(cfg: RouterConfig, s: Stream, life: seq<Step>, last: Step)
    requires LivesBy(cfg, s, life) && Jb.ValidState(s.jitter) && last.Tick?
    ensures LivesBy(cfg, Ticked(cfg, s, last.now), life + [last])
    ensures PlayedIn(cfg, life + [last]).1 == PlayedIn(cfg, life).1 + FramesReady(cfg, s, last.now)
  {
    var jc, more := ConfigOf(cfg, life), life + [last];
    LifeGoesOn(life, last);
    assert more[0] == life[0] && ConfigOf(cfg, more) == jc == JitterConfig(cfg, s.video);
    PopsDrain(jc, s.jitter, last.now, |life| + 1);
    PlayedOn(jc, Jb.EMPTY_STATE, EventsOf(life), Pops(last.now, |life| + 1));
    DrainShrinks(jc, s.jitter, last.now);
  }

  // ---- What is fired for an SSRC -----------------------------------------------------

  /** The pictures and sounds of one SSRC. */
  function OutputsFor(trace: seq<Callback>, x: u32): seq<Callback> {
    if trace == [] then []
    else
      var last := trace[|trace| - 1];
      OutputsFor(trace[..|trace| - 1], x)
      + (if (last.Picture? || last.Sound?) && last.ssrc == x then [last] else [])
  }

  /** Frames that decode, as sounds or as pictures. */
  function Decoded(x: u32, audio: bool, frames: seq<EncodedFrame>, decoders: Decoders): seq<Callback> {
    if frames == [] then []
    else
      var n := |frames| - 1;
      Decoded(x, audio, frames[..n], decoders)
      + (if !decoders(x, n) then [] else [if audio then Callback.Sound(x, frames[n]) else Picture(x, frames[n])])
  }

  /** The frames handed out by the last step of a life. */
  ghost function PlayedLast(cfg: RouterConfig, life: seq<Step>): seq<EncodedFrame>
    requires life != []
  {
    var before := life[..|life| - 1];
    if CanPlay(cfg, before) && CanPlay(cfg, life) && |PlayedIn(cfg, before).1| <= |PlayedIn(cfg, life).1| then
      PlayedIn(cfg, life).1[|PlayedIn(cfg, before).1|..]
    else []
  }

  /** What a run fires for an SSRC: at each tick it survives, what its jitter buffer hands
      out then, as far as it decodes. */
  ghost function FiredFor(cfg: RouterConfig, x: u32, steps: seq<Step>): seq<Callback> {
    if steps == [] then []
    else
      var front, last := steps[..|steps| - 1], steps[|steps| - 1];
      var life := LifeOf(cfg.streamTimeout, x, steps);
      FiredFor(cfg, x, front) +
      if last.Packet? || life.None? || life.value == [] then []
      else Decoded(x, ConfigOf(cfg, life.value).kind == Audio, PlayedLast(cfg, life.value), last.decoders)
  }

  lemma {:induction false} OutputsOfBoth(a: seq<Callback>, b: seq<Callback>, x: u32)
    ensures OutputsFor(a + b, x) == OutputsFor(a, x) + OutputsFor(b, x)
  {
    if b == [] {
      assert a + b == a;
    } else {
      var n := |b| - 1;
      OutputsOfBoth(a, b[..n], x);
      assert (a + b)[..|a| + n] == a + b[..n] && (a + b)[|a| + n] == b[n];
    }
  }

  lemma OutputsOfOne(c: Callback, x: u32)
    ensures OutputsFor([c], x) == if (c.Picture? || c.Sound?) && c.ssrc == x then [c] else []
  {
    assert [c][..0] == [];
  }

  lemma {:induction false} ReadyFires(r: Ready, n: nat, decoders: Decoders, x: u32)
    requires n <= |r.frames|
    ensures OutputsFor(Outputs(r, n, decoders), x)
         == if r.ssrc == x then Decoded(x, !r.video, r.frames[..n], decoders) else []
  {
    if n > 0 {
      ReadyFires(r, n - 1, decoders, x);
      var front, one := Outputs(r, n - 1, decoders), OneOutput(r, n - 1, decoders);
      OutputsOfBoth(front, one, x);
      OneFires(r, n - 1, decoders, x);
      assert r.frames[..n][..n - 1] == r.frames[..n - 1];
    }
  }

  function OneOutput(r: Ready, k: nat, decoders: Decoders): seq<Callback>
    requires k < |r.frames|
  {
    if !decoders(r.ssrc, k) then []
    else [if r.video then Picture(r.ssrc, r.frames[k]) else Callback.Sound(r.ssrc, r.frames[k])]
  }

  lemma OneFires(r: Ready, k: nat, decoders: Decoders, x: u32)
    requires k < |r.frames|
    ensures OutputsFor(OneOutput(r, k, decoders), x)
         == if r.ssrc == x && decoders(x, k) then
              [if r.video then Picture(x, r.frames[k]) else Callback.Sound(x, r.frames[k])]
            else []
  {
    var one := OneOutput(r, k, decoders);
    if one != [] {
      OutputsOfOne(one[0], x);
    }
  }

  lemma CallbacksFire(r: Ready, decoders: Decoders, x: u32)
    ensures OutputsFor(ReadyCallbacks(r, decoders), x)
         == if r.ssrc == x then Decoded(x, !r.video, r.frames, decoders) else []
  {
    var added := if r.video && r.announce then [Added(r.ssrc)] else [];
    ReadyFires(r, |r.frames|, decoders, x);
    assert r.frames[..|r.frames|] == r.frames;
    if added != [] {
      OutputsOfOne(Added(r.ssrc), x);
    }
    OutputsOfBoth(added, Outputs(r, |r.frames|, decoders), x);
  }

  /** What a tick fires for a stream that it visits. */
  ghost function VisitFires(cfg: RouterConfig, streams: Streams, now: int, decoders: Decoders, x: u32): seq<Callback>
    requires ValidStreams(streams) && x in streams
  {
    if TimedOut(cfg, streams[x], now) then []
    else Decoded(x, !streams[x].video, FramesReady(cfg, streams[x], now), decoders)
  }

  lemma OneVisitFires(cfg: RouterConfig, streams: Streams, now: int, decoders: Decoders, y: u32, x: u32)
    requires ValidStreams(streams) && y in streams
    ensures OutputsFor(AllCallbacks(ReadyOf(cfg, y, streams[y], now), decoders), x)
         == if x == y then VisitFires(cfg, streams, now, decoders, x) else []
  {
    var ready := ReadyOf(cfg, y, streams[y], now);
    if ready != [] {
      assert ready[..0] == [];
      OutputsOfBoth([], ReadyCallbacks(ready[0], decoders), x);
      CallbacksFire(ready[0], decoders, x);
    }
  }

  lemma {:induction false} WalkFires(cfg: RouterConfig, streams: Streams, now: int, order: seq<u32>, decoders: Decoders,
                                     x: u32)
    requires ValidStreams(streams) && Distinct(order) && forall k :: 0 <= k < |order| ==> order[k] in streams
    ensures OutputsFor(AllCallbacks(AllReady(cfg, streams, now, order), decoders), x)
         == if x in order then VisitFires(cfg, streams, now, decoders, x) else []
  {
    if order != [] {
      var n := |order| - 1;
      LastIsNew(order, x);
      WalkFires(cfg, streams, now, order[..n], decoders, x);
      OneVisitFires(cfg, streams, now, decoders, order[n], x);
      var ready, more := AllReady(cfg, streams, now, order[..n]), ReadyOf(cfg, order[n], streams[order[n]], now);
      AppendedFires(ready, more, decoders, x);
    }
  }

  lemma AppendedFires(ready: seq<Ready>, more: seq<Ready>, decoders: Decoders, x: u32)
    requires |more| <= 1
    ensures OutputsFor(AllCallbacks(ready + more, decoders), x)
         == OutputsFor(AllCallbacks(ready, decoders), x) + OutputsFor(AllCallbacks(more, decoders), x)
  {
    CallbacksAppended(ready, more, decoders);
    CallbacksAppended([], more, decoders);
    assert [] + more == more;
    var last := if more == [] then [] else ReadyCallbacks(more[0], decoders);
    assert [] + last == last;
    OutputsOfBoth(AllCallbacks(ready, decoders), last, x);
  }

  lemma {:induction false} RemovalsFireNothing(removed: seq<u32>, x: u32)
    ensures OutputsFor(RemovedCallbacks(removed), x) == []
  {
    if removed != [] {
      var n := |removed| - 1;
      RemovalsFireNothing(removed[..n], x);
      OutputsOfBoth(RemovedCallbacks(removed[..n]), [Removed(removed[n])], x);
      OutputsOfOne(Removed(removed[n]), x);
    }
  }

  lemma TickFires(cfg: RouterConfig, streams: Streams, now: int, decoders: Decoders, x: u32)
    requires ValidStreams(streams)
    ensures OutputsFor(TickCallbacks(cfg, streams, now, decoders), x)
         == if x in streams then VisitFires(cfg, streams, now, decoders, x) else []
  {
    var order := Ascending(streams.Keys);
    AscendingAreKeys(streams);
    AscendingIsOrdered(streams.Keys);
    AscendingElements(streams.Keys, x);
    WalkFires(cfg, streams, now, order, decoders, x);
    var removed := AllRemoved(cfg, streams, now, order);
    RemovalsFireNothing(removed, x);
    OutputsOfBoth(AllCallbacks(AllReady(cfg, streams, now, order), decoders), RemovedCallbacks(removed), x);
  }

  // ---- Whole runs --------------------------------------------------------------------

  lemma PacketStep(cfg: RouterConfig, streams: Streams, x: u32, steps: seq<Step>)
    requires steps != [] && steps[|steps| - 1].Packet? && ValidStreams(streams)
    requires StreamIs(cfg, streams, x, LifeOf(cfg.streamTimeout, x, steps[..|steps| - 1]))
    requires CanPush(cfg, streams, steps[|steps| - 1].p)
    ensures var last := steps[|steps| - 1];
            StreamIs(cfg, PacketPushed(cfg, streams, last.p, last.arrival), x, LifeOf(cfg.streamTimeout, x, steps))
  {
    var last := steps[|steps| - 1];
    if last.p.ssrc == x {
      PacketLives(cfg, streams, x, LifeOf(cfg.streamTimeout, x, steps[..|steps| - 1]), last);
    }
  }

  lemma TickStep(cfg: RouterConfig, streams: Streams, x: u32, steps: seq<Step>)
    requires steps != [] && steps[|steps| - 1].Tick? && ValidStreams(streams)
    requires StreamIs(cfg, streams, x, LifeOf(cfg.streamTimeout, x, steps[..|steps| - 1]))
    ensures var last, life := steps[|steps| - 1], LifeOf(cfg.streamTimeout, x, steps);
            && StreamIs(cfg, AfterTick(cfg, streams, last.now), x, life)
            && (life.Some? ==> life.value != [] && x in streams && !TimedOut(cfg, streams[x], last.now)
                               && PlayedLast(cfg, life.value) == FramesReady(cfg, streams[x], last.now)
                               && (ConfigOf(cfg, life.value).kind == Audio <==> !streams[x].video))
            && (life.None? ==> x !in streams || TimedOut(cfg, streams[x], last.now))
  {
    var before, last := LifeOf(cfg.streamTimeout, x, steps[..|steps| - 1]), steps[|steps| - 1];
    if x in streams && !TimedOut(cfg, streams[x], last.now) {
      TickLives(cfg, streams[x], before.value, last);
      assert (before.value + [last])[..|before.value|] == before.value;
    }
  }

  /** Over every run that the jitter buffers can take, and for every SSRC: the router holds
      a stream exactly while it lives, of the kind its first packet says, with the jitter
      buffer that its own packets and ticks make, the arrival of its last packet, and
      announced exactly if it is video and has played; and the pictures and sounds fired
      for it are exactly what its jitter buffer handed out, as far as it decoded. */
  lemma {:induction false} EveryStreamIsItsRun(cfg: RouterConfig, x: u32, steps: seq<Step>)
    requires After(cfg, steps).Some?
    ensures var (streams, trace) := After(cfg, steps).value;
            && StreamIs(cfg, streams, x, LifeOf(cfg.streamTimeout, x, steps))
            && OutputsFor(trace, x) == FiredFor(cfg, x, steps)
  {
    if steps != [] {
      var n := |steps| - 1;
      EveryStreamIsItsRun(cfg, x, steps[..n]);
      var (streams, trace) := After(cfg, steps[..n]).value;
      match steps[n]
      case Packet(p, arrival) =>
        PacketStep(cfg, streams, x, steps);
        assert FiredFor(cfg, x, steps) == FiredFor(cfg, x, steps[..n]) + [];
      case Tick(now, decoders) =>
        TickStep(cfg, streams, x, steps);
        TickFires(cfg, streams, now, decoders, x);
        OutputsOfBoth(trace, TickCallbacks(cfg, streams, now, decoders), x);
    }
  }
}
