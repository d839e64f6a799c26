/** The callbacks of the receive router as a protocol. It does not depend on which frames
    the jitter buffers hand out, so here they hand out anything. */
module CallbackProtocol {
  import opened Common
  import opened Media

  /** What the router tells the outside, in the order it does. */
  datatype Callback =
    | Added(ssrc: u32)
    | Picture(ssrc: u32, frame: EncodedFrame)
    | Removed(ssrc: u32)
    | Sound(ssrc: u32, frame: EncodedFrame)

  /** Whether the decoder of a stream turns the n-th frame of a tick into output. */
  type Decoders = (u32, nat) -> bool

  /** What the callbacks of a stream depend on. */
  datatype Outline = Outline(video: bool, announced: bool, lastPacket: int)

  type Outlines = map<u32, Outline>

  /** The frames that each stream's jitter buffer hands out in a tick. */
  type Handed = map<u32, seq<EncodedFrame>>

  function FramesOf(handed: Handed, x: u32): seq<EncodedFrame> {
    if x in handed then handed[x] else []
  }

  /** A stream's frames of one tick, taken out of the lock for decoding. */
  datatype Ready = Ready(ssrc: u32, video: bool, announce: bool, frames: seq<EncodedFrame>)

  /** The frames of a stream that its decoder turns into output. */
  function Outputs(r: Ready, n: nat, decoders: Decoders): seq<Callback>
    requires n <= |r.frames|
  {
    if n == 0 then []
    else
      Outputs(r, n - 1, decoders)
      + (if !decoders(r.ssrc, n - 1) then []
         else [if r.video then Picture(r.ssrc, r.frames[n - 1]) else Sound(r.ssrc, r.frames[n - 1])])
  }

  function ReadyCallbacks(r: Ready, decoders: Decoders): seq<Callback> {
    (if r.video && r.announce then [Added(r.ssrc)] else []) + Outputs(r, |r.frames|, decoders)
  }

  function AllCallbacks(ready: seq<Ready>, decoders: Decoders): seq<Callback> {
    if ready == [] then []
    else AllCallbacks(ready[..|ready| - 1], decoders) + ReadyCallbacks(ready[|ready| - 1], decoders)
  }

  function RemovedCallbacks(removed: seq<u32>): seq<Callback> {
    if removed == [] then [] else RemovedCallbacks(removed[..|removed| - 1]) + [Removed(removed[|removed| - 1])]
  }

  // ---- Steps -------------------------------------------------------------------------

  predicate Idle(o: Outline, timeout: int, now: int) {
    now - o.lastPacket > timeout
  }

  /** A packet: its stream is audio or video from the first one on. */
  function Seen(os: Outlines, ssrc: u32, video: bool, arrival: int): Outlines {
    os[ssrc := if ssrc in os then os[ssrc].(lastPacket := arrival) else Outline(video, false, arrival)]
  }

  function ReadyOne(os: Outlines, timeout: int, now: int, handed: Handed, x: u32): seq<Ready>
    requires x in os
  {
    if Idle(os[x], timeout, now) || FramesOf(handed, x) == [] then []
    else [Ready(x, os[x].video, os[x].video && !os[x].announced, FramesOf(handed, x))]
  }

  function RemovedOne(os: Outlines, timeout: int, now: int, x: u32): seq<u32>
    requires x in os
  {
    if Idle(os[x], timeout, now) && os[x].video && os[x].announced then [x] else []
  }

  predicate Known(os: Outlines, order: seq<u32>) {
    forall k :: 0 <= k < |order| ==> order[k] in os
  }

  function ReadyAll(os: Outlines, timeout: int, now: int, handed: Handed, order: seq<u32>): seq<Ready>
    requires Known(os, order)
  {
    if order == [] then []
    else
      var n := |order| - 1;
      ReadyAll(os, timeout, now, handed, order[..n]) + ReadyOne(os, timeout, now, handed, order[n])
  }

  function RemovedAll(os: Outlines, timeout: int, now: int, order: seq<u32>): seq<u32>
    requires Known(os, order)
  {
    if order == [] then []
    else
      var n := |order| - 1;
      RemovedAll(os, timeout, now, order[..n]) + RemovedOne(os, timeout, now, order[n])
  }

  /** The streams after a tick: idle ones are gone, those with frames are announced. */
  function Turned(os: Outlines, timeout: int, now: int, handed: Handed): Outlines {
    map x | x in os && !Idle(os[x], timeout, now) ::
      os[x].(announced := os[x].announced || (os[x].video && FramesOf(handed, x) != []))
  }

  /** SSRCs in ascending order, as the map of streams is walked. */
  function Ascending(keys: set<u32>): seq<u32>
    decreases |keys|
  {
    if keys == {} then []
    else
      LeastExists(keys);
      var x: u32 :| x in keys && forall y :: y in keys ==> x <= y;
      [x] + Ascending(keys - {x})
  }

  lemma {:induction false} LeastExists(keys: set<u32>)
    requires keys != {}
    ensures exists x: u32 :: x in keys && forall y :: y in keys ==> x <= y
    decreases |keys|
  {
    var k :| k in keys;
    if keys != {k} {
      LeastExists(keys - {k});
      var l: u32 :| l in keys - {k} && forall y :: y in keys - {k} ==> l <= y;
      var least := if k < l then k else l;
      assert forall y :: y in keys ==> y == k || y in keys - {k};
      assert least in keys && forall y :: y in keys ==> least <= y;
    } else {
      assert forall y :: y in keys ==> k <= y;
    }
  }

  lemma {:induction false} AscendingElements(keys: set<u32>, x: u32)
    ensures x in Ascending(keys) <==> x in keys
    decreases |keys|
  {
    if keys != {} {
      AscendingElements(keys - {Ascending(keys)[0]}, x);
    }
  }

  lemma {:induction false} AscendingIsOrdered(keys: set<u32>)
    ensures forall j, k :: 0 <= j < k < |Ascending(keys)| ==> Ascending(keys)[j] < Ascending(keys)[k]
    decreases |keys|
  {
    if keys != {} {
      var all := Ascending(keys);
      var rest := Ascending(keys - {all[0]});
      assert all == [all[0]] + rest;
      AscendingIsOrdered(keys - {all[0]});
      forall j, k | 0 <= j < k < |all| ensures all[j] < all[k] {
        AscendingElements(keys - {all[0]}, all[k]);
        assert all[k] == rest[k - 1];
        if j > 0 { assert all[j] == rest[j - 1]; }
      }
    }
  }

  lemma AscendingIsKnown(os: Outlines)
    ensures Known(os, Ascending(os.Keys))
  {
    forall k | 0 <= k < |Ascending(os.Keys)| ensures Ascending(os.Keys)[k] in os {
      AscendingElements(os.Keys, Ascending(os.Keys)[k]);
    }
  }

  /** All callbacks of one tick: every ready stream in SSRC order, then the removals. */
  function Fired(os: Outlines, timeout: int, now: int, handed: Handed, decoders: Decoders): seq<Callback> {
    AscendingIsKnown(os);
    var order := Ascending(os.Keys);
    AllCallbacks(ReadyAll(os, timeout, now, handed, order), decoders)
    + RemovedCallbacks(RemovedAll(os, timeout, now, order))
  }

  // ---- The callback protocol ---------------------------------------------------------------

  /** Where a video SSRC stands after some callbacks: gone or live, or nothing once the
      callbacks have left the pattern (Added Picture* Removed)*. */
  ghost function Standing(trace: seq<Callback>, x: u32): Option<bool> {
    if trace == [] then Some(false)
    else
      var before, last := Standing(trace[..|trace| - 1], x), trace[|trace| - 1];
      match last
      case Added(y) => if y != x then before else if before == Some(false) then Some(true) else None
      case Picture(y, _) => if y != x then before else if before == Some(true) then Some(true) else None
      case Removed(y) => if y != x then before else if before == Some(true) then Some(false) else None
      case Sound(_, _) => before
  }

  /** A video stream whose arrival has been announced. */
  predicate Announced(os: Outlines, x: u32) {
    x in os && os[x].video && os[x].announced
  }

  /** Every SSRC has obeyed the protocol and is live in the callbacks exactly if it is an
      announced video stream. */
  ghost predicate Follows(os: Outlines, trace: seq<Callback>) {
    forall x: u32 :: Standing(trace, x) == Some(Announced(os, x))
  }

  lemma ProtocolStep(trace: seq<Callback>, c: Callback, x: u32)
    ensures Standing(trace + [c], x)
         == var before := Standing(trace, x);
            match c
            case Added(y) => if y != x then before else if before == Some(false) then Some(true) else None
            case Picture(y, _) => if y != x then before else if before == Some(true) then Some(true) else None
            case Removed(y) => if y != x then before else if before == Some(true) then Some(false) else None
            case Sound(_, _) => before
  {
    assert (trace + [c])[..|trace|] == trace;
  }

  lemma {:induction false} OutputsKeep(trace: seq<Callback>, r: Ready, n: nat, decoders: Decoders, x: u32)
    requires n <= |r.frames|
    requires r.video && r.ssrc == x ==> Standing(trace, x) == Some(true)
    ensures Standing(trace + Outputs(r, n, decoders), x) == Standing(trace, x)
  {
    if n == 0 {
      assert trace + Outputs(r, 0, decoders) == trace;
    } else {
      OutputsKeep(trace, r, n - 1, decoders, x);
      var before := Outputs(r, n - 1, decoders);
      if decoders(r.ssrc, n - 1) {
        var c := if r.video then Picture(r.ssrc, r.frames[n - 1]) else Sound(r.ssrc, r.frames[n - 1]);
        Associate(trace, before, [c]);
        ProtocolStep(trace + before, c, x);
      } else {
        assert before + [] == before;
      }
    }
  }

  /** A ready stream's callbacks leave its SSRC live and do not touch the others. */
  lemma ReadyKeepsProtocol(trace: seq<Callback>, r: Ready, decoders: Decoders, x: u32)
    requires r.video && r.ssrc == x ==> Standing(trace, x) == Some(!r.announce)
    ensures Standing(trace + ReadyCallbacks(r, decoders), x)
         == if r.video && r.ssrc == x then Some(true) else Standing(trace, x)
  {
    var added := if r.video && r.announce then [Added(r.ssrc)] else [];
    Associate(trace, added, Outputs(r, |r.frames|, decoders));
    if added != [] {
      ProtocolStep(trace, Added(r.ssrc), x);
    } else {
      assert trace + added == trace;
    }
    OutputsKeep(trace + added, r, |r.frames|, decoders, x);
  }

  ghost predicate Distinct(order: seq<u32>) {
    forall j, k :: 0 <= j < k < |order| ==> order[j] != order[k]
  }

  /** Whether a stream becomes or stays live because of frames in this tick. */
  predicate Plays(os: Outlines, timeout: int, now: int, handed: Handed, x: u32) {
    x in os && os[x].video && !Idle(os[x], timeout, now) && FramesOf(handed, x) != []
  }

  lemma LastIsNew(order: seq<u32>, x: u32)
    requires order != [] && Distinct(order)
    ensures var n := |order| - 1;
            && Distinct(order[..n])
            && order[n] !in order[..n]
            && (x in order <==> x == order[n] || x in order[..n])
  {
    assert order == order[..|order| - 1] + [order[|order| - 1]];
  }

  lemma CallbacksAppended(ready: seq<Ready>, more: seq<Ready>, decoders: Decoders)
    requires |more| <= 1
    ensures AllCallbacks(ready + more, decoders)
         == AllCallbacks(ready, decoders) + (if more == [] then [] else ReadyCallbacks(more[0], decoders))
  {
    if more == [] {
      assert ready + more == ready;
    } else {
      assert (ready + more)[..|ready|] == ready;
    }
  }

  lemma {:induction false} ReadyKeepFollowing(os: Outlines, timeout: int, now: int, handed: Handed, order: seq<u32>,
                                              decoders: Decoders, trace: seq<Callback>, x: u32)
    requires Distinct(order) && Known(os, order) && Standing(trace, x) == Some(Announced(os, x))
    ensures Standing(trace + AllCallbacks(ReadyAll(os, timeout, now, handed, order), decoders), x)
         == Some(Announced(os, x) || (x in order && Plays(os, timeout, now, handed, x)))
  {
    if order == [] {
      assert trace + AllCallbacks(ReadyAll(os, timeout, now, handed, order), decoders) == trace;
    } else {
      var n := |order| - 1;
      var front, y := order[..n], order[n];
      ReadyKeepFollowing(os, timeout, now, handed, front, decoders, trace, x);
      LastIsNew(order, x);
      var ready, more := ReadyAll(os, timeout, now, handed, front), ReadyOne(os, timeout, now, handed, y);
      CallbacksAppended(ready, more, decoders);
      var before := AllCallbacks(ready, decoders);
      Associate(trace, before, if more == [] then [] else ReadyCallbacks(more[0], decoders));
      OneReadyKeepsFollowing(os, timeout, now, handed, y, decoders, trace + before, x);
    }
  }

  lemma OneReadyKeepsFollowing(os: Outlines, timeout: int, now: int, handed: Handed, y: u32, decoders: Decoders,
                               trace: seq<Callback>, x: u32)
    requires y in os && (x == y ==> Standing(trace, x) == Some(Announced(os, x)))
    ensures var more := ReadyOne(os, timeout, now, handed, y);
            Standing(trace + (if more == [] then [] else ReadyCallbacks(more[0], decoders)), x)
            == if x == y && Plays(os, timeout, now, handed, y) then Some(true) else Standing(trace, x)
  {
    var more := ReadyOne(os, timeout, now, handed, y);
    if more == [] {
      assert trace + [] == trace;
    } else {
      ReadyKeepsProtocol(trace, more[0], decoders, x);
    }
  }

  predicate Goes(os: Outlines, timeout: int, now: int, x: u32) {
    Announced(os, x) && Idle(os[x], timeout, now)
  }

  lemma {:induction false} RemovedKeepFollowing(os: Outlines, timeout: int, now: int, order: seq<u32>,
                                                trace: seq<Callback>, x: u32)
    requires Distinct(order) && Known(os, order)
    requires Standing(trace, x).Some? && (Goes(os, timeout, now, x) ==> Standing(trace, x) == Some(true))
    ensures Standing(trace + RemovedCallbacks(RemovedAll(os, timeout, now, order)), x)
         == if x in order && Goes(os, timeout, now, x) then Some(false) else Standing(trace, x)
  {
    if order == [] {
      assert trace + RemovedCallbacks(RemovedAll(os, timeout, now, order)) == trace;
    } else {
      var n := |order| - 1;
      var front, y := order[..n], order[n];
      RemovedKeepFollowing(os, timeout, now, front, trace, x);
      LastIsNew(order, x);
      var removed, more := RemovedAll(os, timeout, now, front), RemovedOne(os, timeout, now, y);
      if more == [] {
        assert removed + more == removed;
      } else {
        assert (removed + more)[..|removed|] == removed;
        Associate(trace, RemovedCallbacks(removed), [Removed(y)]);
        ProtocolStep(trace + RemovedCallbacks(removed), Removed(y), x);
      }
    }
  }

  lemma AnnouncedAfter(os: Outlines, timeout: int, now: int, handed: Handed, x: u32)
    ensures Announced(Turned(os, timeout, now, handed), x)
        <==> (Announced(os, x) || Plays(os, timeout, now, handed, x)) && !Goes(os, timeout, now, x)
  {
  }

  /** Whatever the jitter buffers hand out, a tick keeps every SSRC in the protocol. */
  lemma TurnKeepsFollowing(
    os: Outlines, timeout: int, now: int, handed: Handed, decoders: Decoders, trace: seq<Callback>)
    requires Follows(os, trace)
    ensures Follows(Turned(os, timeout, now, handed), trace + Fired(os, timeout, now, handed, decoders))
  {
    var order := Ascending(os.Keys);
    AscendingIsKnown(os);
    AscendingIsOrdered(os.Keys);
    var played := AllCallbacks(ReadyAll(os, timeout, now, handed, order), decoders);
    var removed := RemovedCallbacks(RemovedAll(os, timeout, now, order));
    Associate(trace, played, removed);
    forall x: u32
      ensures Standing(trace + (played + removed), x) == Some(Announced(Turned(os, timeout, now, handed), x))
    {
      AscendingElements(os.Keys, x);
      ReadyKeepFollowing(os, timeout, now, handed, order, decoders, trace, x);
      RemovedKeepFollowing(os, timeout, now, order, trace + played, x);
      AnnouncedAfter(os, timeout, now, handed, x);
    }
  }

  /** A packet fires no callback and announces nothing. */
  lemma SeenKeepsFollowing(os: Outlines, ssrc: u32, video: bool, arrival: int, trace: seq<Callback>)
    requires Follows(os, trace)
    ensures Follows(Seen(os, ssrc, video, arrival), trace)
  {
    forall x: u32 ensures Announced(Seen(os, ssrc, video, arrival), x) == Announced(os, x) {
    }
  }

  // ---- Any run -------------------------------------------------------------------------------

  datatype AnyStep =
    | Packet(ssrc: u32, video: bool, arrival: int)
    | Tick(now: int, handed: Handed, decoders: Decoders)

  /** Streams and callbacks after any interleaving of packets and ticks, the jitter buffers
      handing out any frames at all. */
  function AfterAny(timeout: int, steps: seq<AnyStep>): (Outlines, seq<Callback>) {
    if steps == [] then (map[], [])
    else
      var (os, trace) := AfterAny(timeout, steps[..|steps| - 1]);
      match steps[|steps| - 1]
      case Packet(ssrc, video, arrival) => (Seen(os, ssrc, video, arrival), trace)
      case Tick(now, handed, decoders) =>
        (Turned(os, timeout, now, handed), trace + Fired(os, timeout, now, handed, decoders))
  }

  /** In every interleaving of packets and ticks, without any assumption on timestamps or
      on what the jitter buffers do, each SSRC's callbacks follow the protocol. */
  lemma {:induction false} AnyRunFollows(timeout: int, steps: seq<AnyStep>)
    ensures var (os, trace) := AfterAny(timeout, steps); Follows(os, trace)
    decreases |steps|
  {
    if steps != [] {
      var n := |steps| - 1;
      AnyRunFollows(timeout, steps[..n]);
      var (os, trace) := AfterAny(timeout, steps[..n]);
      match steps[n]
      case Packet(ssrc, video, arrival) => SeenKeepsFollowing(os, ssrc, video, arrival, trace);
      case Tick(now, handed, decoders) => TurnKeepsFollowing(os, timeout, now, handed, decoders, trace);
    }
  }
}
