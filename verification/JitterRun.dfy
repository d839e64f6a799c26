/** Whole runs of the jitter buffer: any interleaving of pushes and pops. */
module JitterRun {
  import opened Common
  import opened Serial
  import opened Rtp
  import opened Media
  import opened JitterBuffering

  datatype Event = Push(packet: RtpPacket, arrival: int) | Pop(now: int)

  /** Every push of the run is one the ordered map can take. */
  ghost predicate Orderly(cfg: Config, st: State, events: seq<Event>)
    decreases |events|
  {
    ValidState(st) &&
    (events == [] ||
     match events[0]
     case Push(p, at) => CanPush(st, p.timestamp) && Orderly(cfg, Pushed(st, p, at).0, events[1..])
     case Pop(now) => Orderly(cfg, Popped(cfg, st, now).0, events[1..]))
  }

  /** The state after a run and the frames handed out during it. */
  ghost function Played(cfg: Config, st: State, events: seq<Event>): (r: (State, seq<EncodedFrame>))
    requires Orderly(cfg, st, events)
    ensures ValidState(r.0)
    decreases |events|
  {
    if events == [] then (st, [])
    else
      match events[0]
      case Push(p, at) => Played(cfg, Pushed(st, p, at).0, events[1..])
      case Pop(now) =>
        var (next, frame) := Popped(cfg, st, now);
        var (last, rest) := Played(cfg, next, events[1..]);
        (last, (if frame.None? then [] else [frame.value]) + rest)
  }

  lemma PlayedPush(cfg: Config, st: State, p: RtpPacket, at: int, rest: seq<Event>)
    requires ValidState(st) && CanPush(st, p.timestamp) && Orderly(cfg, Pushed(st, p, at).0, rest)
    ensures Orderly(cfg, st, [Push(p, at)] + rest)
    ensures Played(cfg, st, [Push(p, at)] + rest) == Played(cfg, Pushed(st, p, at).0, rest)
  {
    assert ([Push(p, at)] + rest)[1..] == rest;
  }

  lemma PlayedPop(cfg: Config, st: State, now: int, rest: seq<Event>)
    requires ValidState(st) && Orderly(cfg, Popped(cfg, st, now).0, rest)
    ensures Orderly(cfg, st, [Pop(now)] + rest)
    ensures var (next, frame) := Popped(cfg, st, now);
            Played(cfg, st, [Pop(now)] + rest)
            == (Played(cfg, next, rest).0, (if frame.None? then [] else [frame.value]) + Played(cfg, next, rest).1)
  {
    assert ([Pop(now)] + rest)[1..] == rest;
  }

  /** Once the first frame has left, every push is in order: the late check sees to it. */
  lemma {:induction false} RunsAfterEmissionAreOrderly(cfg: Config, st: State, events: seq<Event>)
    requires ValidState(st) && st.hasEmitted
    ensures Orderly(cfg, st, events)
    decreases |events|
  {
    if events != [] {
      match events[0]
      case Push(p, at) =>
        LaterPushIsOrdered(st, p.timestamp);
        PushKeepsValid(st, p, at);
        RunsAfterEmissionAreOrderly(cfg, Pushed(st, p, at).0, events[1..]);
      case Pop(now) =>
        PopKeepsEmitted(cfg, st, now);
        RunsAfterEmissionAreOrderly(cfg, Popped(cfg, st, now).0, events[1..]);
    }
  }

  lemma {:induction false} PopKeepsEmitted(cfg: Config, st: State, now: int)
    requires ValidState(st) && st.hasEmitted
    ensures Popped(cfg, st, now).0.hasEmitted
    decreases |st.frames|
  {
    if st.frames != map[] {
      ValidIsOrderable(st);
      var ts := Oldest(st.frames.Keys);
      PopTurn(cfg, st, now, ts);
      if Elapsed(cfg, st.frames[ts], now) && Playout(cfg, st.frames[ts]).None? {
        PopKeepsEmitted(cfg, Leave(st, ts), now);
      }
    }
  }

  // ---- The frames that leave, played out or abandoned -------------------------------

  /** Timestamps of the frames that leave during one pop. */
  ghost function LeftByPop(cfg: Config, st: State, now: int): seq<u32>
    requires ValidState(st)
    decreases |st.frames|
  {
    if st.frames == map[] then []
    else
      ValidIsOrderable(st);
      var ts := Oldest(st.frames.Keys);
      if !Elapsed(cfg, st.frames[ts], now) then []
      else
        LeaveKeepsValid(st, ts);
        RemovedIsSmaller(st.frames, ts);
        [ts] + (if Playout(cfg, st.frames[ts]).None? then LeftByPop(cfg, Leave(st, ts), now) else [])
  }

  ghost function LeftByRun(cfg: Config, st: State, events: seq<Event>): seq<u32>
    requires Orderly(cfg, st, events)
    decreases |events|
  {
    if events == [] then []
    else
      match events[0]
      case Push(p, at) => LeftByRun(cfg, Pushed(st, p, at).0, events[1..])
      case Pop(now) => LeftByPop(cfg, st, now) + LeftByRun(cfg, Popped(cfg, st, now).0, events[1..])
  }

  /** Each timestamp is at least one and at most 2^31 ticks ahead of the one before. */
  ghost predicate Advancing(last: Option<u32>, log: seq<u32>)
    decreases |log|
  {
    log == [] ||
    ((last.Some? ==> 1 <= TsDistance(last.value, log[0]) <= 0x8000_0000) && Advancing(Some(log[0]), log[1..]))
  }

  ghost function LastLeft(st: State): Option<u32> {
    if st.hasEmitted then Some(st.lastEmittedTs) else None
  }

  ghost function LastOf(last: Option<u32>, log: seq<u32>): Option<u32> {
    if log == [] then last else Some(log[|log| - 1])
  }

  /** `log` leads from one state to another without ever going back. */
  ghost predicate LeadsTo(st: State, log: seq<u32>, next: State) {
    Advancing(LastLeft(st), log) && LastLeft(next) == LastOf(LastLeft(st), log)
  }

  lemma {:induction false} AdvancingOn(last: Option<u32>, log: seq<u32>, more: seq<u32>)
    requires Advancing(last, log) && Advancing(LastOf(last, log), more)
    ensures Advancing(last, log + more) && LastOf(last, log + more) == LastOf(LastOf(last, log), more)
    decreases |log|
  {
    if log == [] {
      assert log + more == more;
    } else {
      assert (log + more)[1..] == log[1..] + more;
      assert LastOf(Some(log[0]), log[1..]) == LastOf(last, log);
      AdvancingOn(Some(log[0]), log[1..], more);
    }
  }

  lemma LeadsOn(a: State, log: seq<u32>, b: State, more: seq<u32>, c: State)
    requires LeadsTo(a, log, b) && LeadsTo(b, more, c)
    ensures LeadsTo(a, log + more, c)
  {
    AdvancingOn(LastLeft(a), log, more);
  }

  lemma LeaveLeads(st: State, ts: u32)
    requires ValidState(st) && IsOldest(ts, st.frames.Keys)
    ensures LeadsTo(st, [ts], Leave(st, ts)) && LeadsTo(st, [ts], CountEmitted(Leave(st, ts)))
  {
    assert ts in st.frames;
  }

  lemma {:induction false} PopLeads(cfg: Config, st: State, now: int)
    requires ValidState(st)
    ensures LeadsTo(st, LeftByPop(cfg, st, now), Popped(cfg, st, now).0)
    decreases |st.frames|
  {
    if st.frames != map[] {
      ValidIsOrderable(st);
      var ts := Oldest(st.frames.Keys);
      PopTurn(cfg, st, now, ts);
      LeaveLeads(st, ts);
      if Elapsed(cfg, st.frames[ts], now) {
        if Playout(cfg, st.frames[ts]).None? {
          PopLeads(cfg, Leave(st, ts), now);
          LeadsOn(st, [ts], Leave(st, ts), LeftByPop(cfg, Leave(st, ts), now), Popped(cfg, st, now).0);
        } else {
          assert LeftByPop(cfg, st, now) == [ts];
        }
      }
    }
  }

  /** Over any run, the frames that leave the buffer, whether played out or abandoned,
      have timestamps that keep advancing, across any number of wraps. */
  lemma {:induction false} RunNeverGoesBack(cfg: Config, st: State, events: seq<Event>)
    requires Orderly(cfg, st, events)
    ensures LeadsTo(st, LeftByRun(cfg, st, events), Played(cfg, st, events).0)
    decreases |events|
  {
    if events != [] {
      match events[0]
      case Push(p, at) =>
        RunNeverGoesBack(cfg, Pushed(st, p, at).0, events[1..]);
      case Pop(now) =>
        var next := Popped(cfg, st, now).0;
        PopLeads(cfg, st, now);
        RunNeverGoesBack(cfg, next, events[1..]);
        LeadsOn(st, LeftByPop(cfg, st, now), next, LeftByRun(cfg, next, events[1..]), Played(cfg, st, events).0);
    }
  }

  // ---- Accounting ---------------------------------------------------------------------

  function Pushes(events: seq<Event>): nat {
    if events == [] then 0 else (if events[0].Push? then 1 else 0) + Pushes(events[1..])
  }

  lemma {:induction false} PopCounts(cfg: Config, st: State, now: int)
    requires ValidState(st)
    ensures var (next, frame) := Popped(cfg, st, now);
            next.stats == st.stats.(emitted := st.stats.emitted + if frame.None? then 0 else 1)
    decreases |st.frames|
  {
    if st.frames != map[] {
      ValidIsOrderable(st);
      var ts := Oldest(st.frames.Keys);
      PopTurn(cfg, st, now, ts);
      if Elapsed(cfg, st.frames[ts], now) && Playout(cfg, st.frames[ts]).None? {
        PopCounts(cfg, Leave(st, ts), now);
      }
    }
  }

  /** Over any run the counters add up: each push is counted once, each frame handed out
      is counted once. */
  lemma {:induction false} RunIsAccountedFor(cfg: Config, st: State, events: seq<Event>)
    requires Orderly(cfg, st, events)
    ensures var (next, frames) := Played(cfg, st, events);
            && next.stats.pushed + next.stats.duplicates + next.stats.late
               == st.stats.pushed + st.stats.duplicates + st.stats.late + Pushes(events)
            && next.stats.emitted == st.stats.emitted + |frames|
    decreases |events|
  {
    if events != [] {
      match events[0]
      case Push(p, at) =>
        PushIsCountedOnce(st, p, at);
        RunIsAccountedFor(cfg, Pushed(st, p, at).0, events[1..]);
      case Pop(now) =>
        PopCounts(cfg, st, now);
        RunIsAccountedFor(cfg, Popped(cfg, st, now).0, events[1..]);
    }
  }
}
