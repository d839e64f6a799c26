/** Draining a jitter buffer: popping until nothing is ready, as the receive pipeline
    does on every tick, refines taking a prefix of the frames in timestamp order. */
module JitterDrain {
  import opened Common
  import opened Serial
  import opened Rtp
  import opened Media
  import opened JitterFrame
  import opened JitterBuffering

  /** Pop at one instant until nothing is ready. */
  function Drained(cfg: Config, st: State, now: int): (r: (State, seq<EncodedFrame>))
    requires ValidState(st)
    ensures ValidState(r.0)
    decreases |st.frames|
  {
    var (next, frame) := Popped(cfg, st, now);
    if frame.None? then (next, [])
    else
      var (last, rest) := Drained(cfg, next, now);
      (last, [frame.value] + rest)
  }

  // ---- The simple form -------------------------------------------------------------

  /** Timestamps from oldest to newest. */
  function Sorted(keys: set<u32>): seq<u32>
    requires Orderable(keys)
    decreases |keys|
  {
    if keys == {} then []
    else
      var ts := Oldest(keys);
      SubsetIsOrderable(keys, keys - {ts});
      [ts] + Sorted(keys - {ts})
  }

  /** Number of leading timestamps whose frame has been held for the target delay. */
  function ElapsedPrefix(cfg: Config, frames: Frames, sorted: seq<u32>, now: int): (n: nat)
    requires forall k :: 0 <= k < |sorted| ==> sorted[k] in frames
    ensures n <= |sorted|
    ensures forall k :: 0 <= k < n ==> Elapsed(cfg, frames[sorted[k]], now)
    ensures n < |sorted| ==> !Elapsed(cfg, frames[sorted[n]], now)
  {
    if sorted == [] || !Elapsed(cfg, frames[sorted[0]], now) then 0
    else 1 + ElapsedPrefix(cfg, frames, sorted[1..], now)
  }

  /** The frames that play out, in order; incomplete and malformed ones are skipped. */
  function PlayedOut(cfg: Config, frames: Frames, ripe: seq<u32>): seq<EncodedFrame>
    requires forall k :: 0 <= k < |ripe| ==> ripe[k] in frames
  {
    if ripe == [] then []
    else
      var rest := PlayedOut(cfg, frames, ripe[1..]);
      match Playout(cfg, frames[ripe[0]])
      case None => rest
      case Some(frame) => [frame] + rest
  }

  ghost function Elements(ts: seq<u32>): set<u32> {
    set t | t in ts
  }

  /** The state once all of `ripe` has left and `emitted` frames have been handed out. */
  ghost function AfterAll(st: State, ripe: seq<u32>, emitted: nat): State {
    State(st.frames - Elements(ripe),
          st.hasEmitted || ripe != [],
          if ripe == [] then st.lastEmittedTs else ripe[|ripe| - 1],
          st.stats.(emitted := st.stats.emitted + emitted))
  }

  ghost predicate Ascends(order: seq<u32>) {
    forall j, k :: 0 <= j < k < |order| ==> TsLess(order[j], order[k])
  }

  lemma AscendsFrom(ts: u32, rest: seq<u32>)
    requires Ascends(rest) && forall t :: t in rest ==> TsLess(ts, t)
    ensures Ascends([ts] + rest)
  {
  }

  lemma ElementsOneMore(ts: u32, rest: seq<u32>)
    ensures Elements([ts] + rest) == {ts} + Elements(rest)
  {
    assert forall t :: t in [ts] + rest <==> t == ts || t in rest;
  }

  /** `Sorted` lists each key once and puts it before every newer one. */
  lemma {:induction false} SortedIsSorted(keys: set<u32>)
    requires Orderable(keys)
    ensures Elements(Sorted(keys)) == keys && |Sorted(keys)| == |keys| && Ascends(Sorted(keys))
    decreases |keys|
  {
    if keys != {} {
      var ts := Oldest(keys);
      SubsetIsOrderable(keys, keys - {ts});
      var rest := Sorted(keys - {ts});
      SortedIsSorted(keys - {ts});
      ElementsOneMore(ts, rest);
      forall t | t in rest ensures TsLess(ts, t) {
        assert t in Elements(rest);
      }
      AscendsFrom(ts, rest);
    }
  }

  lemma SortedAreKeys(frames: Frames)
    requires Orderable(frames.Keys)
    ensures forall k :: 0 <= k < |Sorted(frames.Keys)| ==> Sorted(frames.Keys)[k] in frames
  {
    SortedIsSorted(frames.Keys);
    forall k | 0 <= k < |Sorted(frames.Keys)| ensures Sorted(frames.Keys)[k] in frames {
      assert Sorted(frames.Keys)[k] in Elements(Sorted(frames.Keys));
    }
  }

  /** The longest prefix, in timestamp order, of frames whose delay has elapsed. */
  ghost function Ripe(cfg: Config, frames: Frames, now: int): (ripe: seq<u32>)
    requires Orderable(frames.Keys)
    ensures forall k :: 0 <= k < |ripe| ==> ripe[k] in frames
  {
    SortedAreKeys(frames);
    var sorted := Sorted(frames.Keys);
    sorted[..ElapsedPrefix(cfg, frames, sorted, now)]
  }

  // ---- Refinement ---------------------------------------------------------------------

  lemma DrainTurn(cfg: Config, st: State, now: int, ts: u32)
    requires ValidState(st) && IsOldest(ts, st.frames.Keys)
    ensures ValidState(Leave(st, ts)) && |Leave(st, ts).frames| < |st.frames|
    ensures var f := st.frames[ts];
            Drained(cfg, st, now)
            == if !Elapsed(cfg, f, now) then (st, [])
               else match Playout(cfg, f)
                    case None => Drained(cfg, Leave(st, ts), now)
                    case Some(frame) =>
                      var (last, rest) := Drained(cfg, CountEmitted(Leave(st, ts)), now);
                      (last, [frame] + rest)
  {
    PopTurn(cfg, st, now, ts);
  }

  /** Only the emission count distinguishes the state after a frame played out. */
  lemma ElapsedPrefixKept(cfg: Config, frames: Frames, fewer: Frames, sorted: seq<u32>, now: int)
    requires forall k :: 0 <= k < |sorted| ==> sorted[k] in fewer
    requires forall t :: t in fewer ==> t in frames && frames[t] == fewer[t]
    ensures ElapsedPrefix(cfg, frames, sorted, now) == ElapsedPrefix(cfg, fewer, sorted, now)
  {
    if sorted != [] && Elapsed(cfg, frames[sorted[0]], now) {
      ElapsedPrefixKept(cfg, frames, fewer, sorted[1..], now);
    }
  }

  lemma PlayedOutKept(cfg: Config, frames: Frames, fewer: Frames, ripe: seq<u32>)
    requires forall k :: 0 <= k < |ripe| ==> ripe[k] in fewer
    requires forall t :: t in fewer ==> t in frames && frames[t] == fewer[t]
    ensures PlayedOut(cfg, frames, ripe) == PlayedOut(cfg, fewer, ripe)
  {
    if ripe != [] {
      PlayedOutKept(cfg, frames, fewer, ripe[1..]);
    }
  }

  lemma RipeTurn(cfg: Config, frames: Frames, now: int, ts: u32)
    requires Orderable(frames.Keys) && IsOldest(ts, frames.Keys)
    ensures Orderable((frames - {ts}).Keys)
    ensures Ripe(cfg, frames, now) == if Elapsed(cfg, frames[ts], now) then [ts] + Ripe(cfg, frames - {ts}, now) else []
  {
    OldestIsUnique(frames.Keys, ts, Oldest(frames.Keys));
    var fewer := frames - {ts};
    assert fewer.Keys == frames.Keys - {ts};
    SubsetIsOrderable(frames.Keys, fewer.Keys);
    var rest := Sorted(fewer.Keys);
    SortedAreKeys(fewer);
    SortedAreKeys(frames);
    assert Sorted(frames.Keys) == [ts] + rest;
    assert ([ts] + rest)[1..] == rest;
    ElapsedPrefixKept(cfg, frames, fewer, rest, now);
  }

  lemma AfterAllTurn(st: State, ts: u32, rest: seq<u32>, emitted: nat, one: nat)
    ensures AfterAll(Leave(st, ts).(stats := st.stats.(emitted := st.stats.emitted + one)), rest, emitted)
         == AfterAll(st, [ts] + rest, emitted + one)
  {
    assert Elements([ts] + rest) == {ts} + Elements(rest);
    assert (st.frames - {ts}) - Elements(rest) == st.frames - ({ts} + Elements(rest));
  }

  lemma DrainStep(cfg: Config, st: State, ts: u32, rest: seq<u32>)
    requires ts in st.frames && forall k :: 0 <= k < |rest| ==> rest[k] in Leave(st, ts).frames
    ensures var played := Playout(cfg, st.frames[ts]);
            var next := if played.None? then Leave(st, ts) else CountEmitted(Leave(st, ts));
            var tail := PlayedOut(cfg, next.frames, rest);
            var all := PlayedOut(cfg, st.frames, [ts] + rest);
            && all == (if played.None? then tail else [played.value] + tail)
            && AfterAll(next, rest, |tail|) == AfterAll(st, [ts] + rest, |all|)
  {
    var played := Playout(cfg, st.frames[ts]);
    assert ([ts] + rest)[1..] == rest;
    PlayedOutKept(cfg, st.frames, Leave(st, ts).frames, rest);
    AfterAllTurn(st, ts, rest, |PlayedOut(cfg, Leave(st, ts).frames, rest)|, if played.None? then 0 else 1);
  }

  lemma AfterNothing(st: State)
    ensures AfterAll(st, [], 0) == st
  {
    assert st.frames - Elements([]) == st.frames;
  }

  /** Draining removes exactly the longest timestamp-ordered prefix of frames whose delay
      has elapsed, and returns, in order, those of them that are complete and well formed. */
  lemma {:induction false} DrainExactly(cfg: Config, st: State, now: int)
    requires ValidState(st)
    ensures Orderable(st.frames.Keys)
    ensures var ripe := Ripe(cfg, st.frames, now);
            var played := PlayedOut(cfg, st.frames, ripe);
            Drained(cfg, st, now) == (AfterAll(st, ripe, |played|), played)
    decreases |st.frames|
  {
    ValidIsOrderable(st);
    AfterNothing(st);
    if st.frames != map[] {
      var ts := Oldest(st.frames.Keys);
      DrainTurn(cfg, st, now, ts);
      RipeTurn(cfg, st.frames, now, ts);
      if Elapsed(cfg, st.frames[ts], now) {
        var next := if Playout(cfg, st.frames[ts]).None? then Leave(st, ts) else CountEmitted(Leave(st, ts));
        DrainExactly(cfg, next, now);
        DrainStep(cfg, st, ts, Ripe(cfg, next.frames, now));
      }
    }
  }

  // ---- The gap report of the buffer -------------------------------------------------------

  /** The gaps of some frames, one frame after the other. */
  function GapsAlong(frames: Frames, order: seq<u32>): seq<SequenceGap>
    requires forall k :: 0 <= k < |order| ==> order[k] in frames
  {
    if order == [] then []
    else
      var n := |order| - 1;
      GapsAlong(frames, order[..n]) + FrameGaps(frames[order[n]])
  }

  lemma {:induction false} GapsAlongFirst(frames: Frames, ts: u32, rest: seq<u32>)
    requires ts in frames && forall k :: 0 <= k < |rest| ==> rest[k] in frames
    ensures GapsAlong(frames, [ts] + rest) == FrameGaps(frames[ts]) + GapsAlong(frames, rest)
  {
    if rest == [] {
      assert [ts] + rest == [ts] && [ts][..0] == [];
    } else {
      var n := |rest| - 1;
      GapsAlongFirst(frames, ts, rest[..n]);
      assert ([ts] + rest)[..n + 1] == [ts] + rest[..n];
      Associate(FrameGaps(frames[ts]), GapsAlong(frames, rest[..n]), FrameGaps(frames[rest[n]]));
    }
  }

  lemma {:induction false} GapsAlongKept(frames: Frames, fewer: Frames, order: seq<u32>)
    requires forall k :: 0 <= k < |order| ==> order[k] in fewer
    requires forall t :: t in fewer ==> t in frames && frames[t] == fewer[t]
    ensures GapsAlong(frames, order) == GapsAlong(fewer, order)
  {
    if order != [] {
      GapsAlongKept(frames, fewer, order[..|order| - 1]);
    }
  }

  /** The buffer's report is that of every pending frame, none left out, oldest first. */
  lemma {:induction false} AllGapsInOrder(frames: Frames)
    requires Orderable(frames.Keys)
    ensures forall k :: 0 <= k < |Sorted(frames.Keys)| ==> Sorted(frames.Keys)[k] in frames
    ensures AllGaps(frames) == GapsAlong(frames, Sorted(frames.Keys))
    decreases |frames|
  {
    SortedAreKeys(frames);
    if frames != map[] {
      var ts := Oldest(frames.Keys);
      var fewer := frames - {ts};
      RemovedIsSmaller(frames, ts);
      SubsetIsOrderable(frames.Keys, fewer.Keys);
      assert fewer.Keys == frames.Keys - {ts};
      AllGapsInOrder(fewer);
      var rest := Sorted(fewer.Keys);
      GapsAlongKept(frames, fewer, rest);
      GapsAlongFirst(frames, ts, rest);
      assert Sorted(frames.Keys) == [ts] + rest;
    }
  }

  // ---- The drain loop ---------------------------------------------------------------------

  /** Draining from `start` hands out `frames` and then goes on from `st`. */
  ghost predicate DrainsTo(cfg: Config, start: State, now: int, frames: seq<EncodedFrame>, st: State)
    requires ValidState(start) && ValidState(st)
  {
    Drained(cfg, start, now) == (Drained(cfg, st, now).0, frames + Drained(cfg, st, now).1)
  }

  lemma DrainStarts(cfg: Config, st: State, now: int)
    requires ValidState(st)
    ensures DrainsTo(cfg, st, now, [], st)
  {
    assert [] + Drained(cfg, st, now).1 == Drained(cfg, st, now).1;
  }

  lemma DrainGoesOn(cfg: Config, start: State, now: int, frames: seq<EncodedFrame>, st: State)
    requires ValidState(start) && ValidState(st) && DrainsTo(cfg, start, now, frames, st)
    ensures var (next, frame) := Popped(cfg, st, now);
            if frame.None? then Drained(cfg, start, now) == (next, frames)
            else DrainsTo(cfg, start, now, frames + [frame.value], next)
  {
    var (next, frame) := Popped(cfg, st, now);
    if frame.Some? {
      Associate(frames, [frame.value], Drained(cfg, next, now).1);
    } else {
      assert frames + [] == frames;
    }
  }
}
