/** The reference receiver: what the jitter buffer is meant to do with the packets of
    one video stream, in terms of unit and packet positions, without wrapping numbers,
    header bytes or fragments. */
module Receiver {
  import opened Common
  import opened AnnexB
  import opened H264Payload

  /** An access unit of the stream: when it was taken, in clock ticks that do not wrap,
      the sequence number of its first packet, and its NAL units. */
  datatype Unit = Unit(time: int, first: u16, nals: seq<Bytes>)

  datatype Stream = Stream(payloadType: u8, ssrc: u32, maxPayload: nat, units: seq<Unit>)

  ghost predicate ValidUnit(u: Unit, maxPayload: nat)
    requires maxPayload > 0
  {
    && u.nals != [] && NonEmpty(u.nals) && AllSurvive(u.nals, maxPayload)
    && |AllPayloads(u.nals, maxPayload)| <= 0x8000
  }

  ghost predicate ValidStream(s: Stream) {
    && s.maxPayload > 0
    && (forall j {:trigger ValidUnit(s.units[j], s.maxPayload)} ::
          0 <= j < |s.units| ==> ValidUnit(s.units[j], s.maxPayload))
    && (forall i, j {:trigger Earlier(s.units, i, j)} :: 0 <= i < j < |s.units| ==> Earlier(s.units, i, j))
  }

  ghost predicate Earlier(units: seq<Unit>, i: nat, j: nat)
    requires i < |units| && j < |units|
  {
    units[i].time < units[j].time
  }

  lemma TimeOrder(s: Stream, i: nat, j: nat)
    requires ValidStream(s) && i < |s.units| && j < |s.units|
    ensures s.units[i].time < s.units[j].time <==> i < j
    ensures s.units[i].time == s.units[j].time <==> i == j
  {
    assert i < j ==> Earlier(s.units, i, j);
    assert j < i ==> Earlier(s.units, j, i);
  }

  ghost function PacketCount(u: Unit, maxPayload: nat): (n: nat)
    requires maxPayload > 0 && ValidUnit(u, maxPayload)
    ensures n <= 0x8000
  {
    |AllPayloads(u.nals, maxPayload)|
  }

  // ---- State and steps ---------------------------------------------------------------

  /** The packets of a unit that have arrived, and when the first of them did. */
  datatype Held = Held(firstArrival: int, indices: set<nat>)

  /** `last` is the unit that left most recently, or -1. */
  datatype Memory = Memory(last: int, held: map<nat, Held>)

  const NOTHING := Memory(-1, map[])

  /** A unit played out from its NAL unit `from` on. */
  datatype Pick = Pick(unit: nat, from: nat)

  /** A packet of the stream arrives, any number of times and in any order, or a frame
      is asked for. */
  datatype Event = Arrive(unit: nat, packet: nat, at: int) | Ask(now: int)

  ghost predicate HoldsUnit(s: Stream, j: nat, h: Held)
    requires ValidStream(s)
  {
    && j < |s.units| && h.indices != {}
    && forall i :: i in h.indices ==> i < PacketCount(s.units[j], s.maxPayload)
  }

  ghost predicate Holds(s: Stream, r: Memory) {
    && ValidStream(s) && -1 <= r.last < |s.units|
    && forall j :: j in r.held ==> r.last < j && HoldsUnit(s, j, r.held[j])
  }

  ghost function Arrived(r: Memory, j: nat, i: nat, at: int): Memory {
    if j <= r.last then r
    else if j in r.held then r.(held := r.held[j := r.held[j].(indices := r.held[j].indices + {i})])
    else r.(held := r.held[j := Held(at, {i})])
  }

  /** The positions from `a` up to but not including `n`. */
  ghost function Tail(a: nat, n: nat): set<nat> {
    if n <= a then {} else Tail(a, n - 1) + {n - 1}
  }

  lemma {:induction false} TailMember(a: nat, n: nat, i: nat)
    ensures i in Tail(a, n) <==> a <= i < n
  {
    if n > a {
      TailMember(a, n - 1, i);
    }
  }

  lemma {:induction false} TailSize(a: nat, n: nat)
    requires a <= n
    ensures |Tail(a, n)| == n - a
  {
    if n > a {
      TailSize(a, n - 1);
      TailMember(a, n - 1, n - 1);
    }
  }

  /** A unit plays out if exactly its last packets are there and they start at a NAL unit. */
  ghost function PickOf(u: Unit, maxPayload: nat, j: nat, indices: set<nat>): Option<Pick>
    requires maxPayload > 0 && ValidUnit(u, maxPayload)
  {
    var n := PacketCount(u, maxPayload);
    if |indices| > n || indices != Tail(n - |indices|, n) then None
    else
      match StartsAt(u.nals, maxPayload, n - |indices|)
      case None => None
      case Some(from) => Some(Pick(j, from))
  }

  lemma PickOfTail(u: Unit, maxPayload: nat, j: nat, indices: set<nat>, a: nat)
    requires maxPayload > 0 && ValidUnit(u, maxPayload)
    requires a + |indices| == PacketCount(u, maxPayload) && indices == Tail(a, PacketCount(u, maxPayload))
    ensures var from := StartsAt(u.nals, maxPayload, a);
            PickOf(u, maxPayload, j, indices) == if from.None? then None else Some(Pick(j, from.value))
  {
  }

  lemma NoPick(u: Unit, maxPayload: nat, j: nat, indices: set<nat>)
    requires maxPayload > 0 && ValidUnit(u, maxPayload)
    requires var n := PacketCount(u, maxPayload);
             |indices| > n || indices != Tail(n - |indices|, n)
    ensures PickOf(u, maxPayload, j, indices) == None
  {
  }

  ghost predicate IsFirst(j: nat, held: map<nat, Held>) {
    j in held && forall k :: k in held ==> j <= k
  }

  lemma {:induction false} FirstExists(held: map<nat, Held>) returns (j: nat)
    requires held != map[]
    ensures IsFirst(j, held)
    decreases |held|
  {
    var k :| k in held;
    var rest := held - {k};
    assert rest.Keys == held.Keys - {k};
    if rest == map[] {
      j := k;
      assert forall i :: i in held ==> i == k || i in rest;
    } else {
      assert |rest| == |rest.Keys| && |held| == |held.Keys|;
      var i := FirstExists(rest);
      j := if k < i then k else i;
      assert forall l :: l in held ==> l == k || l in rest;
    }
  }

  lemma HasFirst(held: map<nat, Held>)
    requires held != map[]
    ensures exists j: nat :: IsFirst(j, held)
  {
    var j := FirstExists(held);
  }

  ghost function First(held: map<nat, Held>): (j: nat)
    requires held != map[]
    ensures IsFirst(j, held)
  {
    HasFirst(held);
    var j: nat :| IsFirst(j, held);
    j
  }

  ghost function Left(r: Memory, j: nat): Memory {
    Memory(j, r.held - {j})
  }

  lemma LeftHolds(s: Stream, r: Memory, j: nat)
    requires Holds(s, r) && IsFirst(j, r.held)
    ensures Holds(s, Left(r, j)) && |Left(r, j).held| < |r.held|
  {
    RemovedIsSmaller(r.held, j);
    var next := Left(r, j);
    forall k | k in next.held ensures j < k && HoldsUnit(s, k, next.held[k]) {
      assert k in r.held && k != j;
    }
  }

  /** The oldest unit plays out once it has been held for `delay`; units that cannot play
      out by then are skipped. */
  ghost function Asked(s: Stream, delay: int, r: Memory, now: int): (a: (Memory, Option<Pick>))
    requires Holds(s, r)
    ensures Holds(s, a.0)
    decreases |r.held|
  {
    if r.held == map[] then (r, None)
    else
      var j := First(r.held);
      if now - r.held[j].firstArrival < delay then (r, None)
      else
        LeftHolds(s, r, j);
        match PickOf(s.units[j], s.maxPayload, j, r.held[j].indices)
        case None => Asked(s, delay, Left(r, j), now)
        case Some(pick) => (Left(r, j), Some(pick))
  }

  lemma ArrivedHolds(s: Stream, r: Memory, j: nat, i: nat, at: int)
    requires Holds(s, r) && j < |s.units| && i < PacketCount(s.units[j], s.maxPayload)
    ensures Holds(s, Arrived(r, j, i, at))
  {
  }

  // ---- Whole runs ----------------------------------------------------------------------

  /** Packets are not older or newer than the timestamps can tell: up to 2^31 ticks
      around the unit that left last, or around the ones held if none has. */
  ghost predicate Timely(s: Stream, r: Memory, j: nat)
    requires Holds(s, r) && j < |s.units|
  {
    var t := s.units[j].time;
    if r.last >= 0 then -0x8000_0000 < t - s.units[r.last].time <= 0x8000_0000
    else forall k :: k in r.held ==> -0x8000_0000 < t - s.units[k].time < 0x8000_0000
  }

  ghost predicate TimelyRun(s: Stream, delay: int, r: Memory, events: seq<Event>)
    requires Holds(s, r)
    decreases |events|
  {
    events == [] ||
    match events[0]
    case Arrive(j, i, at) =>
      j < |s.units| && i < PacketCount(s.units[j], s.maxPayload) && Timely(s, r, j) &&
      (ArrivedHolds(s, r, j, i, at);
       TimelyRun(s, delay, Arrived(r, j, i, at), events[1..]))
    case Ask(now) => TimelyRun(s, delay, Asked(s, delay, r, now).0, events[1..])
  }

  ghost function Picks(s: Stream, delay: int, r: Memory, events: seq<Event>): seq<Pick>
    requires Holds(s, r) && TimelyRun(s, delay, r, events)
    decreases |events|
  {
    if events == [] then []
    else
      match events[0]
      case Arrive(j, i, at) =>
        ArrivedHolds(s, r, j, i, at);
        Picks(s, delay, Arrived(r, j, i, at), events[1..])
      case Ask(now) =>
        var (next, pick) := Asked(s, delay, r, now);
        (if pick.None? then [] else [pick.value]) + Picks(s, delay, next, events[1..])
  }

  // ---- What the reference guarantees --------------------------------------------------

  ghost predicate ValidPick(s: Stream, p: Pick)
  {
    p.unit < |s.units| && p.from < |s.units[p.unit].nals|
  }

  /** Units in stream order, each at most once, and all of them after `last`. */
  ghost predicate InStreamOrder(s: Stream, last: int, picks: seq<Pick>)
    decreases |picks|
  {
    picks == [] || (ValidPick(s, picks[0]) && last < picks[0].unit && InStreamOrder(s, picks[0].unit, picks[1..]))
  }

  lemma PickIsValid(s: Stream, r: Memory, j: nat)
    requires Holds(s, r) && j in r.held
    ensures var pick := PickOf(s.units[j], s.maxPayload, j, r.held[j].indices);
            pick.Some? ==>
              && pick.value.unit == j && ValidPick(s, pick.value)
              && (pick.value.from == 0 <==> 0 in r.held[j].indices)
  {
    var u, indices := s.units[j], r.held[j].indices;
    var n := PacketCount(u, s.maxPayload);
    var pick := PickOf(u, s.maxPayload, j, indices);
    if pick.Some? {
      assert |indices| > 0;
      SuffixReassembles(u.nals, s.maxPayload, n - |indices|);
      TailMember(n - |indices|, n, 0);
    }
  }

  lemma {:induction false} AskedIsNext(s: Stream, delay: int, r: Memory, now: int)
    requires Holds(s, r)
    ensures var (next, pick) := Asked(s, delay, r, now);
            && r.last <= next.last
            && (pick.Some? ==> ValidPick(s, pick.value) && r.last < pick.value.unit == next.last)
    decreases |r.held|
  {
    if r.held != map[] {
      var j := First(r.held);
      LeftHolds(s, r, j);
      PickIsValid(s, r, j);
      if now - r.held[j].firstArrival >= delay
         && PickOf(s.units[j], s.maxPayload, j, r.held[j].indices).None? {
        AskedIsNext(s, delay, Left(r, j), now);
      }
    }
  }

  lemma {:induction false} OrderFromEarlier(s: Stream, earlier: int, last: int, picks: seq<Pick>)
    requires earlier <= last && InStreamOrder(s, last, picks)
    ensures InStreamOrder(s, earlier, picks)
  {
  }

  /** Over any run, units play out in stream order and at most once each. */
  lemma {:induction false} PicksAreInOrder(s: Stream, delay: int, r: Memory, events: seq<Event>)
    requires Holds(s, r) && TimelyRun(s, delay, r, events)
    ensures InStreamOrder(s, r.last, Picks(s, delay, r, events))
    decreases |events|
  {
    if events != [] {
      match events[0]
      case Arrive(j, i, at) =>
        ArrivedHolds(s, r, j, i, at);
        PicksAreInOrder(s, delay, Arrived(r, j, i, at), events[1..]);
      case Ask(now) =>
        var (next, pick) := Asked(s, delay, r, now);
        AskedIsNext(s, delay, r, now);
        PicksAreInOrder(s, delay, next, events[1..]);
        var rest := Picks(s, delay, next, events[1..]);
        OrderFromEarlier(s, r.last, next.last, rest);
        if pick.Some? {
          assert ([pick.value] + rest)[1..] == rest;
        } else {
          assert [] + rest == rest;
        }
    }
  }

  // ---- What has arrived and what plays out whole ---------------------------------------------

  /** The events speak of packets that the stream has. */
  ghost predicate InStream(s: Stream, events: seq<Event>)
    requires ValidStream(s)
  {
    forall k {:trigger IsOf(s, events[k])} :: 0 <= k < |events| ==> IsOf(s, events[k])
  }

  ghost predicate IsOf(s: Stream, e: Event)
    requires ValidStream(s)
  {
    e.Arrive? ==> e.unit < |s.units| && e.packet < PacketCount(s.units[e.unit], s.maxPayload)
  }

  lemma {:induction false} TimelyIsInStream(s: Stream, delay: int, r: Memory, events: seq<Event>)
    requires Holds(s, r) && TimelyRun(s, delay, r, events)
    ensures InStream(s, events)
    decreases |events|
  {
    if events != [] {
      match events[0]
      case Arrive(j, i, at) =>
        ArrivedHolds(s, r, j, i, at);
        TimelyIsInStream(s, delay, Arrived(r, j, i, at), events[1..]);
      case Ask(now) =>
        TimelyIsInStream(s, delay, Asked(s, delay, r, now).0, events[1..]);
      forall k | 0 <= k < |events| ensures IsOf(s, events[k]) {
        assert k > 0 ==> IsOf(s, events[1..][k - 1]);
      }
    }
  }

  ghost function Next(s: Stream, delay: int, r: Memory, e: Event): (next: Memory)
    requires Holds(s, r) && IsOf(s, e)
    ensures Holds(s, next)
  {
    match e
    case Arrive(j, i, at) => ArrivedHolds(s, r, j, i, at); Arrived(r, j, i, at)
    case Ask(now) => Asked(s, delay, r, now).0
  }

  /** The memory after the first `n` events of a run. */
  ghost function MemoryAt(s: Stream, delay: int, events: seq<Event>, n: nat): (r: Memory)
    requires ValidStream(s) && InStream(s, events) && n <= |events|
    ensures Holds(s, r)
  {
    if n == 0 then NOTHING
    else
      assert IsOf(s, events[n - 1]);
      Next(s, delay, MemoryAt(s, delay, events, n - 1), events[n - 1])
  }

  /** Packet `i` of unit `j` is among the first `n` events. */
  ghost predicate ArrivedBefore(events: seq<Event>, n: nat, j: nat, i: nat)
    requires n <= |events|
  {
    exists k :: 0 <= k < n && events[k].Arrive? && events[k].unit == j && events[k].packet == i
  }

  ghost predicate Has(r: Memory, j: nat, i: nat) {
    j in r.held && i in r.held[j].indices
  }

  /** Asking leaves what is held of the units behind the one that left last alone. */
  lemma {:induction false} AskedKeepsLater(s: Stream, delay: int, r: Memory, now: int, j: nat)
    requires Holds(s, r)
    ensures var next := Asked(s, delay, r, now).0;
            && r.last <= next.last
            && (j > next.last ==> (j in next.held <==> j in r.held) && (j in r.held ==> next.held[j] == r.held[j]))
    decreases |r.held|
  {
    if r.held != map[] {
      var f := First(r.held);
      LeftHolds(s, r, f);
      if now - r.held[f].firstArrival >= delay
         && PickOf(s.units[f], s.maxPayload, f, r.held[f].indices).None? {
        AskedKeepsLater(s, delay, Left(r, f), now, j);
      }
    }
  }

  lemma ArrivedOneMore(events: seq<Event>, n: nat, j: nat, i: nat)
    requires n < |events|
    ensures ArrivedBefore(events, n + 1, j, i) <==>
            ArrivedBefore(events, n, j, i)
            || (events[n].Arrive? && events[n].unit == j && events[n].packet == i)
  {
  }

  lemma NextHas(s: Stream, delay: int, r: Memory, e: Event, j: nat, i: nat)
    requires Holds(s, r) && IsOf(s, e)
    ensures var next := Next(s, delay, r, e);
            && r.last <= next.last
            && (j > next.last ==>
                  (Has(next, j, i) <==> Has(r, j, i) || (e.Arrive? && e.unit == j && e.packet == i)))
  {
    if e.Ask? {
      AskedKeepsLater(s, delay, r, e.now, j);
    }
  }

  /** Packet `i` of unit `j` is held exactly if it has arrived, unless the unit is passed. */
  ghost predicate Tells(r: Memory, j: nat, i: nat, arrived: bool) {
    j > r.last ==> (Has(r, j, i) <==> arrived)
  }

  lemma NextTells(s: Stream, delay: int, r: Memory, e: Event, j: nat, i: nat, arrived: bool)
    requires Holds(s, r) && IsOf(s, e) && Tells(r, j, i, arrived)
    ensures Tells(Next(s, delay, r, e), j, i, arrived || (e.Arrive? && e.unit == j && e.packet == i))
  {
    NextHas(s, delay, r, e, j, i);
  }

  ghost predicate Knows(s: Stream, delay: int, events: seq<Event>, n: nat, j: nat, i: nat)
    requires ValidStream(s) && InStream(s, events) && n <= |events|
  {
    Tells(MemoryAt(s, delay, events, n), j, i, ArrivedBefore(events, n, j, i))
  }

  /** Of every unit not yet passed, exactly the packets that have arrived are held. */
  lemma {:induction false} RemembersArrivals(s: Stream, delay: int, events: seq<Event>, n: nat, j: nat, i: nat)
    requires ValidStream(s) && InStream(s, events) && n <= |events|
    ensures Knows(s, delay, events, n, j, i)
    decreases n
  {
    if n == 0 {
      NothingIsKnown(s, delay, events, n, j, i);
    } else {
      RemembersArrivals(s, delay, events, n - 1, j, i);
      RemembersNext(s, delay, events, n - 1, j, i);
    }
  }

  lemma NothingIsKnown(s: Stream, delay: int, events: seq<Event>, n: nat, j: nat, i: nat)
    requires ValidStream(s) && InStream(s, events) && n == 0
    ensures Knows(s, delay, events, n, j, i)
  {
    assert !ArrivedBefore(events, n, j, i) && !Has(NOTHING, j, i);
  }

  lemma RemembersNext(s: Stream, delay: int, events: seq<Event>, n: nat, j: nat, i: nat)
    requires ValidStream(s) && InStream(s, events) && n < |events|
    requires Knows(s, delay, events, n, j, i)
    ensures Knows(s, delay, events, n + 1, j, i)
  {
    assert IsOf(s, events[n]);
    ArrivedOneMore(events, n, j, i);
    NextTells(s, delay, MemoryAt(s, delay, events, n), events[n], j, i, ArrivedBefore(events, n, j, i));
  }

  /** What asking picks is picked from what was held of that unit before. */
  lemma {:induction false} AskedPicksHeld(s: Stream, delay: int, r: Memory, now: int)
    requires Holds(s, r)
    ensures var pick := Asked(s, delay, r, now).1;
            pick.Some? ==>
              && r.last < pick.value.unit && pick.value.unit in r.held
              && (pick.value.from == 0 <==> 0 in r.held[pick.value.unit].indices)
    decreases |r.held|
  {
    if r.held != map[] {
      var f := First(r.held);
      LeftHolds(s, r, f);
      PickIsValid(s, r, f);
      if now - r.held[f].firstArrival >= delay
         && PickOf(s.units[f], s.maxPayload, f, r.held[f].indices).None? {
        AskedPicksHeld(s, delay, Left(r, f), now);
      }
    }
  }

  /** A unit that is held completely is not passed without being picked whole. */
  lemma {:induction false} AskedTakesWhole(s: Stream, delay: int, r: Memory, now: int, j: nat)
    requires Holds(s, r) && j in r.held
    requires r.held[j].indices == Tail(0, PacketCount(s.units[j], s.maxPayload))
    ensures var (next, pick) := Asked(s, delay, r, now); j <= next.last ==> pick == Some(Pick(j, 0))
    decreases |r.held|
  {
    var f := First(r.held);
    LeftHolds(s, r, f);
    WholeUnitPlays(s.units[j], s.maxPayload, j);
    if f != j && now - r.held[f].firstArrival >= delay
       && PickOf(s.units[f], s.maxPayload, f, r.held[f].indices).None? {
      AskedTakesWhole(s, delay, Left(r, f), now, j);
    } else if f != j {
      PickIsValid(s, r, f);
    }
  }

  // ---- Every run, event by event ---------------------------------------------------------------

  /** The position in the run at which each pick was asked for. */
  ghost function AskedAt(s: Stream, delay: int, r: Memory, events: seq<Event>, at: nat): seq<nat>
    requires Holds(s, r) && TimelyRun(s, delay, r, events)
    decreases |events|
  {
    if events == [] then []
    else
      match events[0]
      case Arrive(j, i, t) =>
        ArrivedHolds(s, r, j, i, t);
        AskedAt(s, delay, Arrived(r, j, i, t), events[1..], at + 1)
      case Ask(now) =>
        var (next, pick) := Asked(s, delay, r, now);
        (if pick.None? then [] else [at]) + AskedAt(s, delay, next, events[1..], at + 1)
  }

  /** Each pick is asked for after the one before it, and starts at the first NAL unit
      exactly if the first packet of its unit had arrived by then. */
  ghost predicate WholeIffHeadArrived(events: seq<Event>, from: nat, picks: seq<Pick>, asks: seq<nat>) {
    && |asks| == |picks|
    && forall k {:trigger picks[k]} {:trigger asks[k]} :: 0 <= k < |picks| ==>
         && from <= asks[k] < |events| && events[asks[k]].Ask?
         && (picks[k].from == 0 <==> ArrivedBefore(events, asks[k], picks[k].unit, 0))
  }

  lemma HeadFirst(events: seq<Event>, n: nat, pick: Pick, picks: seq<Pick>, asks: seq<nat>)
    requires n < |events| && events[n].Ask? && WholeIffHeadArrived(events, n + 1, picks, asks)
    requires pick.from == 0 <==> ArrivedBefore(events, n, pick.unit, 0)
    ensures WholeIffHeadArrived(events, n, [pick] + picks, [n] + asks)
  {
    forall k | 0 <= k < |picks| + 1
      ensures var p, a := ([pick] + picks)[k], ([n] + asks)[k];
              && n <= a < |events| && events[a].Ask?
              && (p.from == 0 <==> ArrivedBefore(events, a, p.unit, 0))
    {
      if k > 0 {
        assert ([pick] + picks)[k] == picks[k - 1] && ([n] + asks)[k] == asks[k - 1];
      }
    }
  }

  ghost function PickedBy(s: Stream, delay: int, r: Memory, e: Event): (picks: seq<Pick>)
    requires Holds(s, r) && IsOf(s, e)
    ensures |picks| <= 1
  {
    if e.Arrive? || Asked(s, delay, r, e.now).1.None? then [] else [Asked(s, delay, r, e.now).1.value]
  }

  /** A run from its `n`-th event on: what that event picks, then the rest. */
  lemma RunStep(s: Stream, delay: int, events: seq<Event>, n: nat)
    requires ValidStream(s) && InStream(s, events) && n < |events|
    requires TimelyRun(s, delay, MemoryAt(s, delay, events, n), events[n..])
    ensures var r, next := MemoryAt(s, delay, events, n), MemoryAt(s, delay, events, n + 1);
            && IsOf(s, events[n])
            && TimelyRun(s, delay, next, events[n + 1..])
            && var picks := PickedBy(s, delay, r, events[n]);
            && Picks(s, delay, r, events[n..]) == picks + Picks(s, delay, next, events[n + 1..])
            && AskedAt(s, delay, r, events[n..], n)
               == (if picks == [] then [] else [n]) + AskedAt(s, delay, next, events[n + 1..], n + 1)
  {
    assert IsOf(s, events[n]) && events[n..][0] == events[n] && events[n..][1..] == events[n + 1..];
    if events[n].Arrive? {
      var next := MemoryAt(s, delay, events, n + 1);
      assert [] + Picks(s, delay, next, events[n + 1..]) == Picks(s, delay, next, events[n + 1..]);
      assert [] + AskedAt(s, delay, next, events[n + 1..], n + 1) == AskedAt(s, delay, next, events[n + 1..], n + 1);
    }
  }

  /** Over a whole run, what is picked of a unit starts at its first NAL unit exactly if the
      first packet of the unit arrived before the frame was asked for. */
  lemma {:induction false} PicksFollowArrivals(s: Stream, delay: int, events: seq<Event>, n: nat)
    requires ValidStream(s) && InStream(s, events) && n <= |events|
    requires TimelyRun(s, delay, MemoryAt(s, delay, events, n), events[n..])
    ensures var r := MemoryAt(s, delay, events, n);
            WholeIffHeadArrived(events, n, Picks(s, delay, r, events[n..]), AskedAt(s, delay, r, events[n..], n))
    decreases |events| - n
  {
    if n < |events| {
      RunStep(s, delay, events, n);
      PicksFollowArrivals(s, delay, events, n + 1);
      OnePickFollows(s, delay, events, n, Picks(s, delay, MemoryAt(s, delay, events, n + 1), events[n + 1..]),
                     AskedAt(s, delay, MemoryAt(s, delay, events, n + 1), events[n + 1..], n + 1));
    }
  }

  lemma OnePickFollows(s: Stream, delay: int, events: seq<Event>, n: nat, picks: seq<Pick>, asks: seq<nat>)
    requires ValidStream(s) && InStream(s, events) && n < |events| && IsOf(s, events[n])
    requires WholeIffHeadArrived(events, n + 1, picks, asks)
    ensures var first := PickedBy(s, delay, MemoryAt(s, delay, events, n), events[n]);
            WholeIffHeadArrived(events, n, first + picks, (if first == [] then [] else [n]) + asks)
  {
    var r := MemoryAt(s, delay, events, n);
    var first := PickedBy(s, delay, r, events[n]);
    if first == [] {
      assert first + picks == picks && [] + asks == asks;
    } else {
      AskedPicksHeld(s, delay, r, events[n].now);
      RemembersArrivals(s, delay, events, n, first[0].unit, 0);
      HeadFirst(events, n, first[0], picks, asks);
    }
  }

  /** All packets of a unit are among the first `n` events. */
  ghost predicate AllArrived(s: Stream, events: seq<Event>, n: nat, j: nat)
    requires ValidStream(s) && j < |s.units| && n <= |events|
  {
    forall i: nat :: i < PacketCount(s.units[j], s.maxPayload) ==> ArrivedBefore(events, n, j, i)
  }

  /** The turn of unit `j` comes with event `n`: that event lets it leave the memory, or
      passes it over. */
  ghost predicate IsTurn(s: Stream, delay: int, events: seq<Event>, n: nat, j: nat)
    requires ValidStream(s) && InStream(s, events) && n < |events|
  {
    MemoryAt(s, delay, events, n).last < j <= MemoryAt(s, delay, events, n + 1).last
  }

  /** The position of an event among the picks. */
  ghost predicate PickedAt(picks: seq<Pick>, asks: seq<nat>, n: nat, p: Pick) {
    exists k :: 0 <= k < |picks| && k < |asks| && asks[k] == n && picks[k] == p
  }

  /** A unit that has arrived completely before its turn is picked whole at its turn. */
  lemma TurnTakesWhole(s: Stream, delay: int, events: seq<Event>, n: nat, j: nat)
    requires ValidStream(s) && InStream(s, events) && n < |events| && j < |s.units|
    requires IsTurn(s, delay, events, n, j) && AllArrived(s, events, n, j)
    ensures events[n].Ask?
    ensures Asked(s, delay, MemoryAt(s, delay, events, n), events[n].now).1 == Some(Pick(j, 0))
  {
    var r, e := MemoryAt(s, delay, events, n), events[n];
    assert IsOf(s, e);
    var count := PacketCount(s.units[j], s.maxPayload);
    assert ValidUnit(s.units[j], s.maxPayload);
    assert count > 0;
    forall i: nat ensures i in Tail(0, count) <==> Has(r, j, i) {
      TailMember(0, count, i);
      RemembersArrivals(s, delay, events, n, j, i);
      if Has(r, j, i) {
        assert HoldsUnit(s, j, r.held[j]);
      }
    }
    assert 0 in Tail(0, count) by { TailMember(0, count, 0); }
    assert r.held[j].indices == Tail(0, count);
    AskedTakesWhole(s, delay, r, e.now, j);
  }

  lemma PickedLater(picks: seq<Pick>, asks: seq<nat>, first: seq<Pick>, at: seq<nat>, n: nat, p: Pick)
    requires |first| == |at| && PickedAt(picks, asks, n, p)
    ensures PickedAt(first + picks, at + asks, n, p)
  {
    var k :| 0 <= k < |picks| && k < |asks| && asks[k] == n && picks[k] == p;
    assert (first + picks)[|first| + k] == p && (at + asks)[|first| + k] == n;
  }

  /** Over a whole run, every unit that has arrived completely before its turn is picked
      whole at its turn. */
  lemma {:induction false} WholeUnitsArePicked(s: Stream, delay: int, events: seq<Event>, n: nat, m: nat, j: nat)
    requires ValidStream(s) && InStream(s, events) && n <= m < |events| && j < |s.units|
    requires TimelyRun(s, delay, MemoryAt(s, delay, events, n), events[n..])
    requires IsTurn(s, delay, events, m, j) && AllArrived(s, events, m, j)
    ensures var r := MemoryAt(s, delay, events, n);
            PickedAt(Picks(s, delay, r, events[n..]), AskedAt(s, delay, r, events[n..], n), m, Pick(j, 0))
    decreases m - n
  {
    var next := MemoryAt(s, delay, events, n + 1);
    RunStep(s, delay, events, n);
    var first := PickedBy(s, delay, MemoryAt(s, delay, events, n), events[n]);
    if n == m {
      TurnTakesWhole(s, delay, events, n, j);
      FirstIsPicked(first, Picks(s, delay, next, events[n + 1..]), n, AskedAt(s, delay, next, events[n + 1..], n + 1));
    } else {
      WholeUnitsArePicked(s, delay, events, n + 1, m, j);
      PickedLater(Picks(s, delay, next, events[n + 1..]), AskedAt(s, delay, next, events[n + 1..], n + 1),
                  first, if first == [] then [] else [n], m, Pick(j, 0));
    }
  }

  lemma FirstIsPicked(first: seq<Pick>, picks: seq<Pick>, n: nat, asks: seq<nat>)
    requires |first| == 1
    ensures PickedAt(first + picks, [n] + asks, n, first[0])
  {
    assert (first + picks)[0] == first[0] && ([n] + asks)[0] == n;
  }

  /** A unit whose packets have all arrived plays out whole. */
  lemma WholeUnitPlays(u: Unit, maxPayload: nat, j: nat)
    requires maxPayload > 0 && ValidUnit(u, maxPayload)
    ensures PickOf(u, maxPayload, j, Tail(0, PacketCount(u, maxPayload))) == Some(Pick(j, 0))
  {
    TailSize(0, PacketCount(u, maxPayload));
  }

  /** Completeness cannot see a lost head: a unit whose first NAL unit is missing entirely
      still plays out, from its second one on. */
  lemma LostHeadStillPlays(u: Unit, maxPayload: nat, j: nat)
    requires maxPayload > 0 && ValidUnit(u, maxPayload) && |u.nals| >= 2
    ensures var lost, n := |Payloads(u.nals[0], maxPayload)|, PacketCount(u, maxPayload);
            lost < n && PickOf(u, maxPayload, j, Tail(lost, n)) == Some(Pick(j, 1))
  {
    var lost, n := |Payloads(u.nals[0], maxPayload)|, PacketCount(u, maxPayload);
    assert AllPayloads(u.nals[1..], maxPayload)
        == Payloads(u.nals[1], maxPayload) + AllPayloads(u.nals[1..][1..], maxPayload);
    TailSize(lost, n);
    assert StartsAt(u.nals[1..], maxPayload, 0) == Some(0);
  }

  /** All units of the stream lie within 2^31 ticks. */
  ghost predicate IsShort(s: Stream) {
    forall i, j :: 0 <= i < |s.units| && 0 <= j < |s.units| ==> s.units[j].time - s.units[i].time < 0x8000_0000
  }

  lemma ShortIsTimely(s: Stream, r: Memory, j: nat)
    requires Holds(s, r) && IsShort(s) && j < |s.units|
    ensures Timely(s, r, j)
  {
    assert forall k :: k in r.held ==> k < |s.units|;
  }

  lemma InStreamTail(s: Stream, events: seq<Event>)
    requires ValidStream(s) && InStream(s, events) && events != []
    ensures IsOf(s, events[0]) && InStream(s, events[1..])
  {
    forall k | 0 <= k < |events| - 1 ensures IsOf(s, events[1..][k]) {
      assert IsOf(s, events[k + 1]);
    }
    assert IsOf(s, events[0]);
  }

  /** Every run of packets of a short stream is timely. */
  lemma {:induction false} ShortStreamsAreTimely(s: Stream, delay: int, r: Memory, events: seq<Event>)
    requires Holds(s, r) && IsShort(s) && InStream(s, events)
    ensures TimelyRun(s, delay, r, events)
    decreases |events|
  {
    if events != [] {
      InStreamTail(s, events);
      match events[0]
      case Arrive(j, i, at) =>
        ArrivedHolds(s, r, j, i, at);
        ShortIsTimely(s, r, j);
        ShortStreamsAreTimely(s, delay, Arrived(r, j, i, at), events[1..]);
      case Ask(now) =>
        ShortStreamsAreTimely(s, delay, Asked(s, delay, r, now).0, events[1..]);
    }
  }
}
