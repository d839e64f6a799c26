/** Opus frames from the packetizer, over a channel that loses, reorders and duplicates
    datagrams, to the frames the jitter buffer hands out: one queue of frame positions. */
module AudioEndToEnd {
  import opened Common
  import opened Serial
  import opened Rtp
  import opened Media
  import opened RtpHandling
  import opened JitterBuffering
  import Ref = AudioReceiver
  import Run = JitterRun
  import Clock = EndToEnd

  /** What one microphone sends: frames, and when they were taken, in clock ticks that do
      not wrap. */
  datatype Talk = Talk(payloadType: u8, ssrc: u32, maxPayload: nat, first: u16, times: seq<int>,
                       frames: seq<EncodedFrame>)

  ghost predicate ValidTalk(t: Talk) {
    && t.maxPayload > 0 && |t.times| == |t.frames|
    && (forall j {:trigger IsOpus(t, j)} :: 0 <= j < |t.frames| ==> IsOpus(t, j))
    && (forall j, k {:trigger Earlier(t, j, k)} :: 0 <= j < k < |t.times| ==> Earlier(t, j, k))
  }

  ghost predicate IsOpus(t: Talk, j: nat)
    requires j < |t.frames| && |t.times| == |t.frames|
  {
    var f := t.frames[j];
    f.kind == Audio && f.audioCodec == Opus && f.payload != [] && f.rtpTimestamp == Clock.Wrap(t.times[j])
  }

  ghost predicate Earlier(t: Talk, j: nat, k: nat)
    requires j < |t.times| && k < |t.times|
  {
    t.times[j] < t.times[k]
  }

  lemma TimeOrder(t: Talk, j: nat, k: nat)
    requires ValidTalk(t) && j < |t.times| && k < |t.times|
    ensures t.times[j] < t.times[k] <==> j < k
    ensures t.times[j] == t.times[k] <==> j == k
  {
    assert j < k ==> Earlier(t, j, k);
    assert k < j ==> Earlier(t, k, j);
  }

  function TsOf(t: Talk, j: nat): u32
    requires j < |t.times|
  {
    Clock.Wrap(t.times[j])
  }

  // ---- Packets -----------------------------------------------------------------------

  function SentPacket(t: Talk, j: nat): RtpPacket
    requires j < |t.times| == |t.frames|
  {
    PacketOf(t.payloadType, t.ssrc, TsOf(t, j), SeqAdd(t.first, j), true, t.frames[j].payload)
  }

  /** A packet as it arrives: with a payload type of seven bits. */
  function Arriving(t: Talk, j: nat): RtpPacket
    requires j < |t.times| == |t.frames|
  {
    SentPacket(t, j).(payloadType := t.payloadType % 128)
  }

  /** Written as a datagram and parsed, a packet arrives. */
  lemma ArrivesOverTheWire(t: Talk, j: nat)
    requires j < |t.times| == |t.frames|
    ensures Decode(Datagram(SentPacket(t, j))) == Ok(Arriving(t, j))
  {
    PlainIsRead(SentPacket(t, j));
  }

  /** The packetizer sends exactly one packet for each frame, in order. */
  lemma {:induction false} OnePacketEach(t: Talk, n: nat)
    requires ValidTalk(t) && n <= |t.frames|
    ensures var (sent, next) := SentBy(t.frames[..n], t.payloadType, t.ssrc, t.maxPayload, t.first);
            && |sent| == n && next == SeqAdd(t.first, n)
            && forall j :: 0 <= j < n ==> sent[j] == SentPacket(t, j)
  {
    if n > 0 {
      OnePacketEach(t, n - 1);
      assert t.frames[..n][..n - 1] == t.frames[..n - 1];
      assert IsOpus(t, n - 1);
      SeqAddAdd(t.first, n - 1, 1);
      var next := SeqAdd(t.first, n - 1);
      assert SeqAdd(next, 0) == next;
      OneStamped(t, n - 1, next);
    }
  }

  lemma OneStamped(t: Talk, j: nat, next: u16)
    requires ValidTalk(t) && j < |t.frames| && next == SeqAdd(t.first, j)
    ensures Packetized(t.frames[j], t.payloadType, t.ssrc, t.maxPayload, next) == Ok([SentPacket(t, j)])
  {
    assert IsOpus(t, j) && SeqAdd(next, 0) == next;
    assert Stamp(t.payloadType, t.ssrc, TsOf(t, j), next, [t.frames[j].payload]) == [SentPacket(t, j)];
  }

  /** The frame that comes out for one that went in: its timestamp and its bytes. */
  function Received(t: Talk, j: nat): EncodedFrame
    requires j < |t.frames|
  {
    EncodedFrame(Audio, UnknownVideo, Opus, false, t.frames[j].rtpTimestamp, t.frames[j].payload)
  }

  // ---- The queue ---------------------------------------------------------------------

  /** The frame played last, or -1, and when each frame that waits arrived first. */
  datatype Queue = Queue(last: int, waiting: map<nat, int>)

  const EMPTY := Queue(-1, map[])

  datatype Event = Arrive(frame: nat, at: int) | Ask(now: int)

  ghost predicate Fits(t: Talk, q: Queue) {
    ValidTalk(t) && -1 <= q.last < |t.frames| && forall j :: j in q.waiting ==> q.last < j < |t.frames|
  }

  function Arrived(q: Queue, j: nat, at: int): Queue {
    if j <= q.last || j in q.waiting then q else q.(waiting := q.waiting[j := at])
  }

  ghost predicate IsFirst(q: Queue, j: nat) {
    j in q.waiting && forall k :: k in q.waiting ==> j <= k
  }

  ghost predicate IsDue(q: Queue, delay: int, now: int, j: nat) {
    IsFirst(q, j) && now - q.waiting[j] >= delay
  }

  /** The first frame that waits is played once it has waited for `delay`. */
  ghost function Asked(q: Queue, delay: int, now: int): (Queue, Option<nat>) {
    if j: nat :| IsDue(q, delay, now, j) then (Queue(j, q.waiting - {j}), Some(j)) else (q, None)
  }

  ghost function Next(q: Queue, delay: int, e: Event): Queue {
    match e
    case Arrive(j, at) => Arrived(q, j, at)
    case Ask(now) => Asked(q, delay, now).0
  }

  /** The frames played over a run, by position, and what waits after it. */
  ghost function Picks(q: Queue, delay: int, events: seq<Event>): (Queue, seq<nat>)
    decreases |events|
  {
    if events == [] then (q, [])
    else
      var (last, rest) := Picks(Next(q, delay, events[0]), delay, events[1..]);
      match events[0]
      case Arrive(_, _) => (last, rest)
      case Ask(now) => var pick := Asked(q, delay, now).1; (last, (if pick.None? then [] else [pick.value]) + rest)
  }

  // ---- What the queue guarantees -----------------------------------------------------

  /** In order, each at most once, and all after `last`. */
  ghost predicate Rising(last: int, picks: seq<nat>)
    decreases |picks|
  {
    picks == [] || (last < picks[0] && Rising(picks[0], picks[1..]))
  }

  lemma {:induction false} PicksRise(t: Talk, q: Queue, delay: int, events: seq<Event>)
    requires Fits(t, q) && InTalk(t, events)
    ensures var (last, picks) := Picks(q, delay, events); Fits(t, last) && Rising(q.last, picks)
    ensures var picks := Picks(q, delay, events).1; forall k :: 0 <= k < |picks| ==> picks[k] < |t.frames|
    decreases |events|
  {
    if events != [] {
      var next := Next(q, delay, events[0]);
      assert Fits(t, next);
      PicksRise(t, next, delay, events[1..]);
      if events[0].Ask? && Asked(q, delay, events[0].now).1.Some? {
        var j := Asked(q, delay, events[0].now).1.value;
        var rest := Picks(Next(q, delay, events[0]), delay, events[1..]).1;
        assert ([j] + rest)[1..] == rest;
        assert forall k :: 0 < k < |[j] + rest| ==> ([j] + rest)[k] == rest[k - 1];
      } else {
        assert events[0].Ask? ==> Next(q, delay, events[0]) == q;
        var rest := Picks(next, delay, events[1..]).1;
        assert [] + rest == rest;
      }
    }
  }

  ghost predicate InTalk(t: Talk, events: seq<Event>) {
    forall k :: 0 <= k < |events| && events[k].Arrive? ==> events[k].frame < |t.frames|
  }

  /** A frame that waits is played in the run or waits after it. */
  lemma {:induction false} NothingIsSkipped(q: Queue, delay: int, events: seq<Event>, j: nat)
    requires j in q.waiting
    ensures var (last, picks) := Picks(q, delay, events); j in picks || j in last.waiting
    decreases |events|
  {
    if events != [] && j in Next(q, delay, events[0]).waiting {
      NothingIsSkipped(Next(q, delay, events[0]), delay, events[1..], j);
    }
  }

  /** Every frame that arrives before it or a later one has been played is played in the run
      or waits after it. */
  lemma {:induction false} EveryArrivalCounts(q: Queue, delay: int, events: seq<Event>, m: nat)
    requires m < |events| && events[m].Arrive?
    ensures var (last, picks) := Picks(q, delay, events);
            var before := Picks(q, delay, events[..m]).0;
            before.last < events[m].frame ==> events[m].frame in picks || events[m].frame in last.waiting
    decreases |events|
  {
    var next := Next(q, delay, events[0]);
    if m == 0 {
      var j := events[0].frame;
      if q.last < j {
        NothingIsSkipped(next, delay, events[1..], j);
      }
    } else {
      assert events[..m][0] == events[0] && events[..m][1..] == events[1..][..m - 1];
      EveryArrivalCounts(next, delay, events[1..], m - 1);
    }
  }

  // ---- The receiver refines it -------------------------------------------------------

  /** Arrivals are no further than 2^31 ticks from the frame played last or, before that,
      from those that wait. */
  ghost predicate Timely(t: Talk, q: Queue, j: nat)
    requires Fits(t, q) && j < |t.times|
  {
    if q.last >= 0 then -0x8000_0000 < t.times[j] - t.times[q.last] <= 0x8000_0000
    else forall k :: k in q.waiting ==> -0x8000_0000 < t.times[j] - t.times[k] < 0x8000_0000
  }

  ghost predicate TimelyRun(t: Talk, q: Queue, delay: int, events: seq<Event>)
    decreases |events|
  {
    Fits(t, q) &&
    (events == [] ||
     ((events[0].Arrive? ==> events[0].frame < |t.frames| && Timely(t, q, events[0].frame))
      && TimelyRun(t, Next(q, delay, events[0]), delay, events[1..])))
  }

  ghost predicate Close(t: Talk, q: Queue)
    requires Fits(t, q)
  {
    if q.last >= 0 then forall j :: j in q.waiting ==> 0 < t.times[j] - t.times[q.last] <= 0x8000_0000
    else forall j, k :: j in q.waiting && k in q.waiting ==> t.times[k] - t.times[j] < 0x8000_0000
  }

  ghost predicate Keeps(t: Talk, q: Queue, r: Ref.Memory, j: nat)
    requires Fits(t, q) && j in q.waiting
  {
    TsOf(t, j) in r.held && r.held[TsOf(t, j)] == Ref.Held(q.waiting[j], [Arriving(t, j)])
  }

  ghost predicate Waits(t: Talk, q: Queue, ts: u32)
    requires Fits(t, q)
  {
    exists j: nat :: j in q.waiting && TsOf(t, j) == ts
  }

  ghost predicate Matches(t: Talk, q: Queue, r: Ref.Memory)
    requires Fits(t, q)
  {
    && Close(t, q)
    && r.last == (if q.last >= 0 then Some(TsOf(t, q.last)) else None)
    && (forall j: nat :: j in q.waiting ==> Keeps(t, q, r, j))
    && (forall ts: u32 {:trigger Waits(t, q, ts)} :: ts in r.held ==> Waits(t, q, ts))
  }

  lemma KeptIsValid(t: Talk, q: Queue, r: Ref.Memory)
    requires Fits(t, q) && Matches(t, q, r)
    ensures Ref.ValidMemory(r)
  {
    forall ts | ts in r.held ensures r.held[ts].packets != [] {
      assert Waits(t, q, ts);
      var j: nat :| j in q.waiting && TsOf(t, j) == ts;
      assert Keeps(t, q, r, j);
    }
  }

  /** A frame that is not late is close to every frame that waits. */
  lemma ArrivalIsClose(t: Talk, q: Queue, j: nat, k: nat)
    requires Fits(t, q) && Close(t, q) && j < |t.times| && Timely(t, q, j) && q.last < j && k in q.waiting
    ensures -0x8000_0000 < t.times[j] - t.times[k] < 0x8000_0000
  {
    if q.last >= 0 {
      TimeOrder(t, q.last, j);
    }
  }

  lemma AheadIffLater(t: Talk, q: Queue, j: nat)
    requires Fits(t, q) && j < |t.times| && Timely(t, q, j) && q.last >= 0
    ensures Ref.Ahead(TsOf(t, q.last), TsOf(t, j)) <==> q.last < j
  {
    Clock.WrapDistance(t.times[q.last], t.times[j]);
    Ref.DistanceIs(TsOf(t, q.last), TsOf(t, j));
    TimeOrder(t, q.last, j);
  }

  /** The timestamp of a frame that is not late is held exactly if the frame waits, and the
      opposite one is not. */
  lemma HeldIffWaits(t: Talk, q: Queue, r: Ref.Memory, j: nat)
    requires Fits(t, q) && Matches(t, q, r) && j < |t.times| && Timely(t, q, j) && q.last < j
    ensures TsOf(t, j) in r.held <==> j in q.waiting
    ensures Ref.Opposite(TsOf(t, j)) !in r.held
  {
    if j in q.waiting {
      assert Keeps(t, q, r, j);
    }
    if ts: u32 :| ts in r.held && (ts == TsOf(t, j) || ts == Ref.Opposite(TsOf(t, j))) {
      assert Waits(t, q, ts);
      var k: nat :| k in q.waiting && TsOf(t, k) == ts;
      ArrivalIsClose(t, q, j, k);
      CloseIsNotOpposite(t.times[j], t.times[k]);
      Clock.WrapOrder(t.times[k], t.times[j]);
      TimeOrder(t, j, k);
    }
    if Ref.Opposite(TsOf(t, j)) in r.held {
      OppositeDiffers(t, q, r, j);
    }
  }

  lemma OppositeDiffers(t: Talk, q: Queue, r: Ref.Memory, j: nat)
    requires Fits(t, q) && Matches(t, q, r) && j < |t.times| && Timely(t, q, j) && q.last < j
    ensures Ref.Opposite(TsOf(t, j)) !in r.held
  {
    if Ref.Opposite(TsOf(t, j)) in r.held {
      assert Waits(t, q, Ref.Opposite(TsOf(t, j)));
      var k: nat :| k in q.waiting && TsOf(t, k) == Ref.Opposite(TsOf(t, j));
      ArrivalIsClose(t, q, j, k);
      CloseIsNotOpposite(t.times[j], t.times[k]);
    }
  }

  lemma CloseIsNotOpposite(a: int, b: int)
    requires -0x8000_0000 < a - b < 0x8000_0000
    ensures Clock.Wrap(b) != Ref.Opposite(Clock.Wrap(a))
  {
    Ref.OppositeIs(Clock.Wrap(a));
    Clock.WrapDistance(a, b);
    Clock.WrapDistance(b, a);
  }

  lemma ArrivalKeepsClose(t: Talk, q: Queue, j: nat, at: int)
    requires Fits(t, q) && Close(t, q) && j < |t.frames| && Timely(t, q, j)
    ensures Fits(t, Arrived(q, j, at)) && Close(t, Arrived(q, j, at))
  {
    if q.last >= 0 && q.last < j {
      TimeOrder(t, q.last, j);
    }
  }

  lemma ArriveMatches(t: Talk, q: Queue, r: Ref.Memory, j: nat, at: int)
    requires Fits(t, q) && Matches(t, q, r) && j < |t.frames| && Timely(t, q, j)
    ensures Fits(t, Arrived(q, j, at)) && Ref.ValidMemory(r)
    ensures Matches(t, Arrived(q, j, at), Ref.Taken(r, Arriving(t, j), at))
  {
    KeptIsValid(t, q, r);
    ArrivalKeepsClose(t, q, j, at);
    if q.last >= 0 {
      AheadIffLater(t, q, j);
    }
    if q.last < j {
      HeldIffWaits(t, q, r, j);
      if j in q.waiting {
        assert Keeps(t, q, r, j);
        assert [Arriving(t, j)][0].sequenceNumber == Arriving(t, j).sequenceNumber;
        assert Ref.HasNumber(r.held[TsOf(t, j)].packets, Arriving(t, j).sequenceNumber);
      } else {
        NewMatches(t, q, r, j, at);
      }
    }
  }

  lemma NewMatches(t: Talk, q: Queue, r: Ref.Memory, j: nat, at: int)
    requires Fits(t, q) && Matches(t, q, r) && j < |t.frames| && Timely(t, q, j)
    requires q.last < j && j !in q.waiting && Fits(t, Arrived(q, j, at)) && Close(t, Arrived(q, j, at))
    requires TsOf(t, j) !in r.held
    ensures Matches(t, Arrived(q, j, at), r.(held := r.held[TsOf(t, j) := Ref.Held(at, [Arriving(t, j)])]))
  {
    var next := Arrived(q, j, at);
    var after := r.(held := r.held[TsOf(t, j) := Ref.Held(at, [Arriving(t, j)])]);
    forall k: nat | k in next.waiting ensures Keeps(t, next, after, k) {
      if k != j {
        assert Keeps(t, q, r, k);
      }
    }
    forall ts: u32 | ts in after.held ensures Waits(t, next, ts) {
      if ts == TsOf(t, j) {
        assert j in next.waiting;
      } else {
        assert Waits(t, q, ts);
        var k: nat :| k in q.waiting && TsOf(t, k) == ts;
        assert k in next.waiting;
      }
    }
  }

  /** The timestamp of an arrival can be ordered among those pending. */
  lemma ArrivalCanBePushed(t: Talk, q: Queue, r: Ref.Memory, st: State, j: nat)
    requires Fits(t, q) && Matches(t, q, r) && j < |t.frames| && Timely(t, q, j) && Ref.Matches(r, st)
    ensures CanPush(st, TsOf(t, j))
  {
    if st.hasEmitted {
      LaterPushIsOrdered(st, TsOf(t, j));
    } else {
      assert q.last < 0;
      var low := Lowest(t, q, j);
      forall ts | ts in st.frames.Keys + {TsOf(t, j)} ensures TsDistance(Clock.Wrap(low), ts) < 0x8000_0000 {
        if ts == TsOf(t, j) {
          Clock.WrapDistance(low, t.times[j]);
        } else {
          Ref.SameKeys(r, st, ts);
          assert Waits(t, q, ts);
          var k: nat :| k in q.waiting && TsOf(t, k) == ts;
          Clock.WrapDistance(low, t.times[k]);
        }
      }
      assert TsWindow(Clock.Wrap(low), st.frames.Keys + {TsOf(t, j)});
      StrictWeakExactly(st.frames.Keys + {TsOf(t, j)});
    }
  }

  lemma {:induction false} FirstExists(q: Queue) returns (j: nat)
    requires q.waiting != map[]
    ensures IsFirst(q, j)
    decreases |q.waiting|
  {
    var k :| k in q.waiting;
    var rest := q.(waiting := q.waiting - {k});
    RemovedIsSmaller(q.waiting, k);
    assert forall i :: i in q.waiting ==> i == k || i in rest.waiting;
    if rest.waiting == map[] {
      j := k;
    } else {
      var i := FirstExists(rest);
      j := if k < i then k else i;
    }
  }

  /** The earliest time among an arrival and the frames that wait. */
  lemma Lowest(t: Talk, q: Queue, j: nat) returns (low: int)
    requires Fits(t, q) && Close(t, q) && q.last < 0 && j < |t.frames| && Timely(t, q, j)
    ensures 0 <= t.times[j] - low < 0x8000_0000
    ensures forall k :: k in q.waiting ==> 0 <= t.times[k] - low < 0x8000_0000
  {
    low := t.times[j];
    if q.waiting != map[] {
      var f := FirstExists(q);
      low := if t.times[f] < low then t.times[f] else low;
      forall k | k in q.waiting ensures 0 <= t.times[k] - low < 0x8000_0000 {
        TimeOrder(t, f, k);
      }
    }
  }

  lemma FirstIsNext(t: Talk, q: Queue, r: Ref.Memory, j: nat)
    requires Fits(t, q) && Matches(t, q, r) && IsFirst(q, j)
    ensures Ref.IsNext(r, TsOf(t, j)) && r.held[TsOf(t, j)] == Ref.Held(q.waiting[j], [Arriving(t, j)])
  {
    assert Keeps(t, q, r, j);
    forall ts | ts in r.held && ts != TsOf(t, j) ensures 1 <= Ref.Ticks(TsOf(t, j), ts) < 0x8000_0000 {
      assert Waits(t, q, ts);
      var k: nat :| k in q.waiting && TsOf(t, k) == ts;
      TimeOrder(t, j, k);
      Clock.WrapDistance(t.times[j], t.times[k]);
      Ref.DistanceIs(TsOf(t, j), ts);
    }
  }

  lemma OtherIsKept(t: Talk, q: Queue, r: Ref.Memory, j: nat, k: nat)
    requires Fits(t, q) && Matches(t, q, r) && IsFirst(q, j) && k in q.waiting && k != j
    requires Fits(t, Queue(j, q.waiting - {j}))
    ensures 0 < t.times[k] - t.times[j] <= 0x8000_0000
    ensures Keeps(t, Queue(j, q.waiting - {j}), Ref.Memory(r.held - {TsOf(t, j)}, Some(TsOf(t, j))), k)
  {
    assert Keeps(t, q, r, k);
    TimeOrder(t, j, k);
    Clock.WrapOrder(t.times[j], t.times[k]);
  }

  lemma StillWaits(t: Talk, q: Queue, r: Ref.Memory, j: nat, ts: u32)
    requires Fits(t, q) && Matches(t, q, r) && j in q.waiting && ts in r.held && ts != TsOf(t, j)
    requires Fits(t, Queue(j, q.waiting - {j}))
    ensures Waits(t, Queue(j, q.waiting - {j}), ts)
  {
    assert Waits(t, q, ts);
    var k: nat :| k in q.waiting && TsOf(t, k) == ts;
    assert k in q.waiting - {j};
  }

  lemma PlayedFits(t: Talk, q: Queue, j: nat)
    requires Fits(t, q) && IsFirst(q, j)
    ensures Fits(t, Queue(j, q.waiting - {j}))
  {
  }

  lemma PlayedMatches(t: Talk, q: Queue, r: Ref.Memory, j: nat)
    requires Fits(t, q) && Matches(t, q, r) && IsFirst(q, j)
    ensures Fits(t, Queue(j, q.waiting - {j}))
    ensures Matches(t, Queue(j, q.waiting - {j}), Ref.Memory(r.held - {TsOf(t, j)}, Some(TsOf(t, j))))
  {
    var next, after := Queue(j, q.waiting - {j}), Ref.Memory(r.held - {TsOf(t, j)}, Some(TsOf(t, j)));
    PlayedFits(t, q, j);
    assert Close(t, next) by {
      forall k: nat | k in next.waiting ensures 0 < t.times[k] - t.times[j] <= 0x8000_0000 {
        OtherIsKept(t, q, r, j, k);
      }
    }
    forall k: nat | k in next.waiting ensures Keeps(t, next, after, k) {
      OtherIsKept(t, q, r, j, k);
    }
    forall ts: u32 | ts in after.held ensures Waits(t, next, ts) {
      StillWaits(t, q, r, j, ts);
    }
  }

  lemma DueIsFirst(q: Queue, delay: int, now: int, j: nat)
    requires IsFirst(q, j)
    ensures Asked(q, delay, now)
         == if now - q.waiting[j] < delay then (q, None) else (Queue(j, q.waiting - {j}), Some(j))
  {
    forall k: nat | IsDue(q, delay, now, k) ensures k == j {
    }
    assert now - q.waiting[j] >= delay ==> IsDue(q, delay, now, j);
  }

  /** Asking the reference receiver plays the first frame that waits, unchanged. */
  lemma AskMatches(t: Talk, q: Queue, r: Ref.Memory, delay: int, now: int)
    requires Fits(t, q) && Matches(t, q, r)
    ensures Ref.ValidMemory(r)
    ensures var (next, pick) := Asked(q, delay, now);
            var (after, sound) := Ref.Asked(r, delay, Opus, now);
            && Fits(t, next) && Matches(t, next, after)
            && (pick.Some? ==> pick.value < |t.frames|)
            && sound == if pick.None? then None else Some(Received(t, pick.value))
  {
    KeptIsValid(t, q, r);
    if q.waiting == map[] {
      assert forall ts: u32 :: ts in r.held ==> Waits(t, q, ts);
    } else {
      var j := FirstExists(q);
      FirstIsNext(t, q, r, j);
      DueIsFirst(q, delay, now, j);
      Ref.AskedIs(r, delay, Opus, now, TsOf(t, j));
      PlayedMatches(t, q, r, j);
      assert IsOpus(t, j);
    }
  }

  // ---- Whole runs --------------------------------------------------------------------

  /** What the channel delivers to the buffer. */
  function Delivered(t: Talk, e: Event): Run.Event
    requires |t.times| == |t.frames| && (e.Arrive? ==> e.frame < |t.frames|)
  {
    match e
    case Arrive(j, at) => Run.Push(Arriving(t, j), at)
    case Ask(now) => Run.Pop(now)
  }

  function Channel(t: Talk, events: seq<Event>): seq<Run.Event>
    requires |t.times| == |t.frames| && InTalk(t, events)
  {
    if events == [] then [] else [Delivered(t, events[0])] + Channel(t, events[1..])
  }

  function AllReceived(t: Talk, picks: seq<nat>): seq<EncodedFrame>
    requires forall k :: 0 <= k < |picks| ==> picks[k] < |t.frames|
  {
    if picks == [] then [] else [Received(t, picks[0])] + AllReceived(t, picks[1..])
  }

  lemma {:induction false} TimelyIsInTalk(t: Talk, q: Queue, delay: int, events: seq<Event>)
    requires TimelyRun(t, q, delay, events)
    ensures InTalk(t, events)
    decreases |events|
  {
    if events != [] {
      TimelyIsInTalk(t, Next(q, delay, events[0]), delay, events[1..]);
      forall k | 0 <= k < |events| && events[k].Arrive? ensures events[k].frame < |t.frames| {
        assert k > 0 ==> events[k] == events[1..][k - 1];
      }
    }
  }

  ghost predicate RunMatches(t: Talk, cfg: Config, q: Queue, st: State, events: seq<Event>)
    requires ValidTalk(t) && InTalk(t, events)
  {
    var picks := Picks(q, cfg.targetDelay, events).1;
    && (forall k :: 0 <= k < |picks| ==> picks[k] < |t.frames|)
    && Run.Orderly(cfg, st, Channel(t, events))
    && Run.Played(cfg, st, Channel(t, events)).1 == AllReceived(t, picks)
  }

  lemma ArriveStep(t: Talk, cfg: Config, q: Queue, st: State, events: seq<Event>)
    requires ValidTalk(t) && InTalk(t, events) && events != [] && events[0].Arrive? && ValidState(st)
    requires CanPush(st, TsOf(t, events[0].frame)) && InTalk(t, events[1..])
    requires RunMatches(t, cfg, Next(q, cfg.targetDelay, events[0]),
                        Pushed(st, Arriving(t, events[0].frame), events[0].at).0, events[1..])
    ensures RunMatches(t, cfg, q, st, events)
  {
    var later := Channel(t, events[1..]);
    assert Channel(t, events) == [Run.Push(Arriving(t, events[0].frame), events[0].at)] + later;
    Run.PlayedPush(cfg, st, Arriving(t, events[0].frame), events[0].at, later);
  }

  lemma AskStep(t: Talk, cfg: Config, q: Queue, st: State, events: seq<Event>)
    requires ValidTalk(t) && InTalk(t, events) && events != [] && events[0].Ask? && ValidState(st)
    requires InTalk(t, events[1..])
    requires RunMatches(t, cfg, Next(q, cfg.targetDelay, events[0]), Popped(cfg, st, events[0].now).0, events[1..])
    requires var pick, frame := Asked(q, cfg.targetDelay, events[0].now).1, Popped(cfg, st, events[0].now).1;
             (pick.Some? ==> pick.value < |t.frames|) &&
             frame == if pick.None? then None else Some(Received(t, pick.value))
    ensures RunMatches(t, cfg, q, st, events)
  {
    var next, pick := Next(q, cfg.targetDelay, events[0]), Asked(q, cfg.targetDelay, events[0].now).1;
    var later := Channel(t, events[1..]);
    assert Channel(t, events) == [Run.Pop(events[0].now)] + later;
    Run.PlayedPop(cfg, st, events[0].now, later);
    OneMoreReceived(t, pick, Picks(next, cfg.targetDelay, events[1..]).1);
  }

  lemma OneMoreReceived(t: Talk, pick: Option<nat>, rest: seq<nat>)
    requires pick.Some? ==> pick.value < |t.frames|
    requires forall k :: 0 <= k < |rest| ==> rest[k] < |t.frames|
    ensures var all := (if pick.None? then [] else [pick.value]) + rest;
            && (forall k :: 0 <= k < |all| ==> all[k] < |t.frames|)
            && AllReceived(t, all)
               == (if pick.None? then [] else [Received(t, pick.value)]) + AllReceived(t, rest)
  {
    if pick.Some? {
      assert ([pick.value] + rest)[1..] == rest;
    } else {
      assert [] + rest == rest;
    }
  }

  /** Over every timely run the buffer hands out exactly the frames that the queue plays. */
  lemma {:induction false} RunRefines(t: Talk, cfg: Config, q: Queue, r: Ref.Memory, st: State, events: seq<Event>)
    requires Ref.ForAudio(cfg) && cfg.audioCodec == Opus && TimelyRun(t, q, cfg.targetDelay, events)
    requires Matches(t, q, r) && Ref.Matches(r, st)
    ensures InTalk(t, events) && RunMatches(t, cfg, q, st, events)
    decreases |events|
  {
    TimelyIsInTalk(t, q, cfg.targetDelay, events);
    KeptIsValid(t, q, r);
    if events != [] {
      TimelyIsInTalk(t, Next(q, cfg.targetDelay, events[0]), cfg.targetDelay, events[1..]);
      match events[0]
      case Arrive(j, at) =>
        var p := Arriving(t, j);
        ArriveMatches(t, q, r, j, at);
        ArrivalCanBePushed(t, q, r, st, j);
        Ref.TakeRefines(r, st, p, at);
        RunRefines(t, cfg, Arrived(q, j, at), Ref.Taken(r, p, at), Pushed(st, p, at).0, events[1..]);
        ArriveStep(t, cfg, q, st, events);
      case Ask(now) =>
        AskMatches(t, q, r, cfg.targetDelay, now);
        Ref.AskRefines(cfg, r, st, now);
        RunRefines(t, cfg, Asked(q, cfg.targetDelay, now).0, Ref.Asked(r, cfg.targetDelay, Opus, now).0,
                   Popped(cfg, st, now).0, events[1..]);
        AskStep(t, cfg, q, st, events);
    }
  }

  /** End to end: the packetizer sends one packet a frame, and whatever datagrams are lost,
      repeated or delivered out of order, the frames that come out are an order-preserving
      selection of those that went in, each at most once, with its own timestamp and bytes,
      and a frame that arrives before it or a later one has been played is played in its
      turn. */
  lemma OpusChannelSafety(t: Talk, cfg: Config, events: seq<Event>)
    requires Ref.ForAudio(cfg) && cfg.audioCodec == Opus && TimelyRun(t, EMPTY, cfg.targetDelay, events)
    ensures var sent := SentBy(t.frames, t.payloadType, t.ssrc, t.maxPayload, t.first).0;
            |sent| == |t.frames| && forall j :: 0 <= j < |sent| ==> Decode(Datagram(sent[j])) == Ok(Arriving(t, j))
    ensures InTalk(t, events)
    ensures var (last, picks) := Picks(EMPTY, cfg.targetDelay, events);
            && Rising(-1, picks) && (forall k :: 0 <= k < |picks| ==> picks[k] < |t.frames|)
            && Run.Orderly(cfg, EMPTY_STATE, Channel(t, events))
            && Run.Played(cfg, EMPTY_STATE, Channel(t, events)).1 == AllReceived(t, picks)
            && forall m :: 0 <= m < |events| && events[m].Arrive? ==>
                 Picks(EMPTY, cfg.targetDelay, events[..m]).0.last < events[m].frame ==>
                   events[m].frame in picks || events[m].frame in last.waiting
  {
    OnePacketEach(t, |t.frames|);
    assert t.frames[..|t.frames|] == t.frames;
    var sent := SentBy(t.frames, t.payloadType, t.ssrc, t.maxPayload, t.first).0;
    forall j | 0 <= j < |sent| ensures Decode(Datagram(sent[j])) == Ok(Arriving(t, j)) {
      ArrivesOverTheWire(t, j);
    }
    EmptyIsOrderable();
    RunRefines(t, cfg, EMPTY, Ref.NOTHING, EMPTY_STATE, events);
    PicksRise(t, EMPTY, cfg.targetDelay, events);
    forall m | 0 <= m < |events| && events[m].Arrive?
      ensures var (last, picks) := Picks(EMPTY, cfg.targetDelay, events);
              Picks(EMPTY, cfg.targetDelay, events[..m]).0.last < events[m].frame ==>
                events[m].frame in picks || events[m].frame in last.waiting
    {
      EveryArrivalCounts(EMPTY, cfg.targetDelay, events, m);
    }
  }
}
