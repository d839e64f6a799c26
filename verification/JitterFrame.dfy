/** One access unit being assembled in the jitter buffer: its packets by sequence
    number, their serial extremes, the gaps between them and the order of playout. */
module JitterFrame {
  import opened Common
  import opened Serial
  import opened Rtp

  datatype PendingFrame = PendingFrame(
    timestamp: u32,
    firstArrival: int,
    hasMarker: bool,
    minSeq: u16,
    maxSeq: u16,
    seqInit: bool,
    packets: map<u16, RtpPacket>)

  function NewFrame(timestamp: u32, arrival: int): PendingFrame {
    PendingFrame(timestamp, arrival, false, 0, 0, false, map[])
  }

  /** The frame once a packet with a new sequence number has been stored in it. */
  function Admit(f: PendingFrame, p: RtpPacket): PendingFrame {
    var s := p.sequenceNumber;
    f.(minSeq := if !f.seqInit || SeqLess(s, f.minSeq) then s else f.minSeq,
       maxSeq := if !f.seqInit || SeqLess(f.maxSeq, s) then s else f.maxSeq,
       seqInit := true,
       hasMarker := f.hasMarker || p.marker,
       packets := f.packets[s := p])
  }

  // ---- Invariant -------------------------------------------------------------------

  /** `minSeq` and `maxSeq` are the serially first and last sequence numbers. */
  ghost predicate Extremes(f: PendingFrame) {
    && SeqDistance(f.minSeq, f.maxSeq) < 0x8000
    && forall s :: s in f.packets ==> SeqDistance(f.minSeq, s) <= SeqDistance(f.minSeq, f.maxSeq)
  }

  /** Packets are filed under their numbers, with timestamps the comparison of frames does
      not tell from the frame's own. */
  ghost predicate StoredUnderOwnNumber(f: PendingFrame) {
    forall s :: s in f.packets ==>
      f.packets[s].sequenceNumber == s && TsEquivalent(f.timestamp, f.packets[s].timestamp)
  }

  ghost predicate MarkerSeen(f: PendingFrame) {
    exists s :: s in f.packets && f.packets[s].marker
  }

  ghost predicate ValidFrame(f: PendingFrame) {
    && f.seqInit && f.minSeq in f.packets && f.maxSeq in f.packets
    && StoredUnderOwnNumber(f)
    && (f.hasMarker <==> MarkerSeen(f))
    && (InSeqWindow(f.packets.Keys) ==> Extremes(f))
  }

  /** Positions in a window: `lo` is at or before, `hi` at or after every key. */
  ghost predicate Spans(base: u16, keys: set<u16>, lo: u16, hi: u16) {
    forall s :: s in keys ==> SeqDistance(base, lo) <= SeqDistance(base, s) <= SeqDistance(base, hi)
  }

  lemma BetweenInWindow(base: u16, lo: u16, hi: u16, s: u16)
    requires SeqDistance(base, lo) < 0x8000 && SeqDistance(base, hi) < 0x8000 && SeqDistance(base, s) < 0x8000
    ensures (SeqDistance(lo, hi) < 0x8000 && SeqDistance(lo, s) <= SeqDistance(lo, hi))
            <==> SeqDistance(base, lo) <= SeqDistance(base, s) <= SeqDistance(base, hi)
  {
  }

  lemma SpansIffExtremes(base: u16, f: PendingFrame)
    requires SeqWindow(base, f.packets.Keys) && f.minSeq in f.packets && f.maxSeq in f.packets
    ensures Extremes(f) <==> Spans(base, f.packets.Keys, f.minSeq, f.maxSeq)
  {
    assert f.minSeq in f.packets.Keys && f.maxSeq in f.packets.Keys;
    forall s | s in f.packets.Keys
      ensures (SeqDistance(f.minSeq, f.maxSeq) < 0x8000
               && SeqDistance(f.minSeq, s) <= SeqDistance(f.minSeq, f.maxSeq))
              <==> SeqDistance(base, f.minSeq) <= SeqDistance(base, s) <= SeqDistance(base, f.maxSeq)
    {
      BetweenInWindow(base, f.minSeq, f.maxSeq, s);
    }
  }

  lemma SpansAfterAdmit(base: u16, keys: set<u16>, lo: u16, hi: u16, s: u16)
    requires SeqWindow(base, keys + {s}) && lo in keys && hi in keys && Spans(base, keys, lo, hi)
    ensures Spans(base, keys + {s}, if SeqLess(s, lo) then s else lo, if SeqLess(hi, s) then s else hi)
  {
    assert s in keys + {s} && lo in keys + {s} && hi in keys + {s};
    SeqLessInWindow(base, s, lo);
    SeqLessInWindow(base, hi, s);
  }

  lemma AdmitKeepsExtremes(base: u16, f: PendingFrame, p: RtpPacket)
    requires ValidFrame(f) && SeqWindow(base, f.packets.Keys + {p.sequenceNumber})
    ensures Extremes(Admit(f, p))
  {
    var keys, s := f.packets.Keys, p.sequenceNumber;
    assert SeqWindow(base, keys);
    SpansIffExtremes(base, f);
    SpansAfterAdmit(base, keys, f.minSeq, f.maxSeq, s);
    assert Admit(f, p).packets.Keys == keys + {s};
    SpansIffExtremes(base, Admit(f, p));
  }

  lemma FirstPacket(timestamp: u32, arrival: int, p: RtpPacket)
    requires p.timestamp == timestamp
    ensures ValidFrame(Admit(NewFrame(timestamp, arrival), p))
  {
    var f := Admit(NewFrame(timestamp, arrival), p);
    assert f.packets == map[p.sequenceNumber := p];
    assert p.marker ==> p.sequenceNumber in f.packets && f.packets[p.sequenceNumber].marker;
  }

  lemma NextPacket(f: PendingFrame, p: RtpPacket)
    requires ValidFrame(f) && TsEquivalent(f.timestamp, p.timestamp) && p.sequenceNumber !in f.packets
    ensures ValidFrame(Admit(f, p))
  {
    var g, s := Admit(f, p), p.sequenceNumber;
    assert g.packets.Keys == f.packets.Keys + {s};
    if MarkerSeen(f) {
      var q :| q in f.packets && f.packets[q].marker;
      assert g.packets[q].marker;
    }
    assert p.marker ==> g.packets[s].marker;
    if InSeqWindow(g.packets.Keys) {
      var base: u16 :| SeqWindow(base, g.packets.Keys);
      assert SeqWindow(base, f.packets.Keys);
      AdmitKeepsExtremes(base, f, p);
    }
  }

  // ---- Completeness ------------------------------------------------------------------

  /** Video completeness as the program decides it: the marker has been seen and there
      are as many packets as the distance between the extremes. */
  predicate CompleteVideo(f: PendingFrame) {
    f.hasMarker && f.packets != map[] && SeqDistance(f.minSeq, f.maxSeq) + 1 == |f.packets|
  }

  /** No sequence number between the extremes is missing. */
  ghost predicate NoGap(f: PendingFrame) {
    forall i :: 0 <= i <= SeqDistance(f.minSeq, f.maxSeq) ==> SeqAdd(f.minSeq, i) in f.packets
  }

  ghost function Run(first: u16, n: nat): set<u16> {
    if n == 0 then {} else Run(first, n - 1) + {SeqAdd(first, n - 1)}
  }

  lemma {:induction false} RunMembers(first: u16, n: nat, s: u16)
    requires n <= 0x1_0000
    ensures s in Run(first, n) <==> SeqDistance(first, s) < n
  {
    if n > 0 {
      RunMembers(first, n - 1, s);
      assert s == SeqAdd(first, n - 1) <==> SeqDistance(first, s) == n - 1;
    }
  }

  lemma {:induction false} RunSize(first: u16, n: nat)
    requires n <= 0x1_0000
    ensures |Run(first, n)| == n
  {
    if n > 0 {
      RunSize(first, n - 1);
      RunMembers(first, n - 1, SeqAdd(first, n - 1));
    }
  }

  lemma SameSizeExactly<T>(a: set<T>, b: set<T>)
    requires a <= b
    ensures |a| == |b| <==> b <= a
  {
    assert b == a + (b - a);
    if b <= a {
      assert a == b;
    }
  }

  lemma KeysAreInRun(f: PendingFrame)
    requires Extremes(f)
    ensures f.packets.Keys <= Run(f.minSeq, SeqDistance(f.minSeq, f.maxSeq) + 1)
  {
    forall s | s in f.packets.Keys ensures s in Run(f.minSeq, SeqDistance(f.minSeq, f.maxSeq) + 1) {
      RunMembers(f.minSeq, SeqDistance(f.minSeq, f.maxSeq) + 1, s);
    }
  }

  lemma NoGapIffRunHeld(f: PendingFrame)
    ensures NoGap(f) <==> Run(f.minSeq, SeqDistance(f.minSeq, f.maxSeq) + 1) <= f.packets.Keys
  {
    var n := SeqDistance(f.minSeq, f.maxSeq) + 1;
    if NoGap(f) {
      forall s: u16 | s in Run(f.minSeq, n) ensures s in f.packets.Keys {
        RunMembers(f.minSeq, n, s);
        assert SeqAdd(f.minSeq, SeqDistance(f.minSeq, s)) == s;
      }
    }
    if Run(f.minSeq, n) <= f.packets.Keys {
      forall i | 0 <= i < n ensures SeqAdd(f.minSeq, i) in f.packets {
        assert SeqDistance(f.minSeq, SeqAdd(f.minSeq, i)) == i;
        RunMembers(f.minSeq, n, SeqAdd(f.minSeq, i));
      }
    }
  }

  /** Counting packets is as good as looking for gaps, whatever the arrival order. */
  lemma CompleteExactly(f: PendingFrame)
    requires ValidFrame(f) && InSeqWindow(f.packets.Keys)
    ensures CompleteVideo(f) <==> MarkerSeen(f) && NoGap(f)
  {
    var keys, run := f.packets.Keys, Run(f.minSeq, SeqDistance(f.minSeq, f.maxSeq) + 1);
    KeysAreInRun(f);
    NoGapIffRunHeld(f);
    RunSize(f.minSeq, SeqDistance(f.minSeq, f.maxSeq) + 1);
    assert |f.packets| == |keys|;
    SameSizeExactly(keys, run);
  }

  // ---- Playout order -----------------------------------------------------------------

  /** The stored packets met on the walk from one sequence number to another. */
  function Walk(packets: map<u16, RtpPacket>, from: u16, to: u16): seq<RtpPacket>
    decreases SeqDistance(from, to)
  {
    (if from in packets then [packets[from]] else [])
    + (if from == to then [] else Walk(packets, SeqNext(from), to))
  }

  function InOrder(f: PendingFrame): seq<RtpPacket> {
    Walk(f.packets, f.minSeq, f.maxSeq)
  }

  lemma WalkStep(packets: map<u16, RtpPacket>, from: u16, to: u16, before: seq<RtpPacket>)
    ensures before + Walk(packets, from, to)
         == (if from in packets then before + [packets[from]] else before)
            + (if from == to then [] else Walk(packets, SeqNext(from), to))
    ensures from != to ==> SeqDistance(SeqNext(from), to) == SeqDistance(from, to) - 1
  {
    var here := if from in packets then [packets[from]] else [];
    var rest := if from == to then [] else Walk(packets, SeqNext(from), to);
    Associate(before, here, rest);
    assert from !in packets ==> before + here == before;
  }

  method OrderedPackets(f: PendingFrame) returns (ordered: seq<RtpPacket>)
    ensures ordered == InOrder(f)
  {
    ordered := [];
    var s := f.minSeq;
    while true
      invariant InOrder(f) == ordered + Walk(f.packets, s, f.maxSeq)
      decreases SeqDistance(s, f.maxSeq)
    {
      WalkStep(f.packets, s, f.maxSeq, ordered);
      if s in f.packets { ordered := ordered + [f.packets[s]]; }
      if s == f.maxSeq { return; }
      s := SeqNext(s);
    }
  }

  /** Without gaps, the walk yields the packets numbered one after the other. */
  lemma {:induction false} WalkWithoutGap(packets: map<u16, RtpPacket>, from: u16, to: u16)
    requires forall i :: 0 <= i <= SeqDistance(from, to) ==> SeqAdd(from, i) in packets
    ensures |Walk(packets, from, to)| == SeqDistance(from, to) + 1
    ensures forall i :: 0 <= i <= SeqDistance(from, to) ==> Walk(packets, from, to)[i] == packets[SeqAdd(from, i)]
    decreases SeqDistance(from, to)
  {
    assert SeqAdd(from, 0) == from;
    if from != to {
      var next := SeqNext(from);
      assert SeqDistance(next, to) == SeqDistance(from, to) - 1;
      forall i | 0 <= i <= SeqDistance(next, to) ensures SeqAdd(next, i) == SeqAdd(from, i + 1) {
        SeqAddAdd(from, 1, i);
      }
      WalkWithoutGap(packets, next, to);
      forall i | 0 < i <= SeqDistance(from, to) ensures Walk(packets, from, to)[i] == packets[SeqAdd(from, i)] {
        assert Walk(packets, from, to)[i] == Walk(packets, next, to)[i - 1];
      }
    }
  }

  // ---- The gap report ------------------------------------------------------------------

  datatype SequenceGap = SequenceGap(firstMissing: u16, lastMissing: u16)

  /** Missing runs on the walk, with `open` the run that is still growing. */
  function GapsFrom(packets: map<u16, RtpPacket>, at: u16, to: u16, open: Option<SequenceGap>): seq<SequenceGap>
    decreases SeqDistance(at, to)
  {
    var grown := Grow(packets, at, open);
    var closed := if at in packets && open.Some? then [open.value] else [];
    closed + (if at != to then GapsFrom(packets, SeqNext(at), to, grown)
              else if grown.Some? then [grown.value] else [])
  }

  function Grow(packets: map<u16, RtpPacket>, at: u16, open: Option<SequenceGap>): Option<SequenceGap> {
    if at in packets then None
    else if open.Some? then Some(open.value.(lastMissing := at))
    else Some(SequenceGap(at, at))
  }

  function FrameGaps(f: PendingFrame): seq<SequenceGap> {
    GapsFrom(f.packets, f.minSeq, f.maxSeq, None)
  }

  lemma GapsStep(packets: map<u16, RtpPacket>, at: u16, to: u16, open: Option<SequenceGap>, before: seq<SequenceGap>)
    ensures var grown := Grow(packets, at, open);
            before + GapsFrom(packets, at, to, open)
            == (if at in packets && open.Some? then before + [open.value] else before)
               + (if at != to then GapsFrom(packets, SeqNext(at), to, grown)
                  else if grown.Some? then [grown.value] else [])
    ensures at != to ==> SeqDistance(SeqNext(at), to) == SeqDistance(at, to) - 1
  {
    var grown := Grow(packets, at, open);
    var closed := if at in packets && open.Some? then [open.value] else [];
    var rest := if at != to then GapsFrom(packets, SeqNext(at), to, grown)
                else if grown.Some? then [grown.value] else [];
    Associate(before, closed, rest);
    assert before + [] == before;
  }

  method CollectGaps(f: PendingFrame) returns (gaps: seq<SequenceGap>)
    ensures gaps == FrameGaps(f)
  {
    gaps := [];
    var expected, end := f.minSeq, f.maxSeq;
    var inGap := false;
    var cur := SequenceGap(0, 0);
    while true
      invariant FrameGaps(f) == gaps + GapsFrom(f.packets, expected, end, if inGap then Some(cur) else None)
      decreases SeqDistance(expected, end)
    {
      GapsStep(f.packets, expected, end, if inGap then Some(cur) else None, gaps);
      if expected !in f.packets {
        if !inGap {
          inGap := true;
          cur := cur.(firstMissing := expected);
        }
        cur := cur.(lastMissing := expected);
      } else if inGap {
        gaps := gaps + [cur];
        inGap := false;
      }
      if expected == end { break; }
      expected := SeqNext(expected);
    }
    if inGap { gaps := gaps + [cur]; }
  }

  // Positions count from the frame's first sequence number.

  ghost predicate Held(packets: map<u16, RtpPacket>, first: u16, i: int) {
    SeqAdd(first, i) in packets
  }

  ghost function Lo(first: u16, g: SequenceGap): int { SeqDistance(first, g.firstMissing) }

  ghost function Hi(first: u16, g: SequenceGap): int { SeqDistance(first, g.lastMissing) }

  /** A maximal run of missing positions between two held ones. */
  ghost predicate MaximalGap(packets: map<u16, RtpPacket>, first: u16, g: SequenceGap) {
    && 0 < Lo(first, g) <= Hi(first, g)
    && Held(packets, first, Lo(first, g) - 1) && Held(packets, first, Hi(first, g) + 1)
    && forall i :: Lo(first, g) <= i <= Hi(first, g) ==> !Held(packets, first, i)
  }

  ghost predicate Covered(first: u16, gaps: seq<SequenceGap>, i: int) {
    exists k :: 0 <= k < |gaps| && Lo(first, gaps[k]) <= i <= Hi(first, gaps[k])
  }

  /** Exactly the maximal missing runs at positions `from` and beyond, in order. */
  ghost predicate ExactGaps(packets: map<u16, RtpPacket>, first: u16, from: int, last: int, gaps: seq<SequenceGap>) {
    && (forall k :: 0 <= k < |gaps| ==>
          MaximalGap(packets, first, gaps[k]) && from <= Lo(first, gaps[k]) && Hi(first, gaps[k]) < last)
    && (forall j, k :: 0 <= j < k < |gaps| ==> Hi(first, gaps[j]) + 1 < Lo(first, gaps[k]))
    && (forall i {:trigger Covered(first, gaps, i)} ::
          from <= i <= last && !Held(packets, first, i) ==> Covered(first, gaps, i))
  }

  /** The run still open just before position `i`. */
  ghost predicate OpenRun(packets: map<u16, RtpPacket>, first: u16, i: int, open: Option<SequenceGap>) {
    match open
    case None => i == 0 || Held(packets, first, i - 1)
    case Some(g) =>
      && 0 < Lo(first, g) <= Hi(first, g) == i - 1
      && Held(packets, first, Lo(first, g) - 1)
      && forall j :: Lo(first, g) <= j < i ==> !Held(packets, first, j)
  }

  lemma ConsGap(packets: map<u16, RtpPacket>, first: u16, from: int, i: int, last: int, g: SequenceGap,
                rest: seq<SequenceGap>)
    requires MaximalGap(packets, first, g) && from == Lo(first, g) && Hi(first, g) == i - 1 && i <= last
    requires Held(packets, first, i) && ExactGaps(packets, first, i + 1, last, rest)
    ensures ExactGaps(packets, first, from, last, [g] + rest)
  {
    var all := [g] + rest;
    forall j | from <= j <= last && !Held(packets, first, j) ensures Covered(first, all, j) {
      if j < i {
        assert all[0] == g;
      } else {
        assert Covered(first, rest, j);
        var k :| 0 <= k < |rest| && Lo(first, rest[k]) <= j <= Hi(first, rest[k]);
        assert all[k + 1] == rest[k];
      }
    }
    forall j, k | 0 <= j < k < |all| ensures Hi(first, all[j]) + 1 < Lo(first, all[k]) {
      assert all[k] == rest[k - 1];
      assert j > 0 ==> all[j] == rest[j - 1];
    }
  }

  lemma GapStep(packets: map<u16, RtpPacket>, first: u16, i: nat, last: nat, open: Option<SequenceGap>)
    requires i <= last < 0x1_0000 && Held(packets, first, last)
    ensures var at, to := SeqAdd(first, i), SeqAdd(first, last);
            var rest := if i < last then GapsFrom(packets, SeqAdd(first, i + 1), to, Grow(packets, at, open)) else [];
            GapsFrom(packets, at, to, open)
            == (if Held(packets, first, i) && open.Some? then [open.value] else []) + rest
  {
    SeqAddIs(first, i);
    SeqAddIs(first, last);
    assert i < last ==> SeqAdd(first, i + 1) == SeqNext(SeqAdd(first, i));
  }

  lemma GrowStep(packets: map<u16, RtpPacket>, first: u16, i: nat, open: Option<SequenceGap>)
    requires i < 0x1_0000 && Held(packets, first, 0) && OpenRun(packets, first, i, open)
    ensures var grown := Grow(packets, SeqAdd(first, i), open);
            && OpenRun(packets, first, i + 1, grown)
            && (Held(packets, first, i) <==> grown.None?)
            && (grown.Some? ==> Lo(first, grown.value) == if open.Some? then Lo(first, open.value) else i)
  {
    assert SeqDistance(first, SeqAdd(first, i)) == i;
  }

  ghost function RunStart(first: u16, i: int, open: Option<SequenceGap>): int {
    if open.None? then i else Lo(first, open.value)
  }

  lemma HeldSkipped(packets: map<u16, RtpPacket>, first: u16, i: nat, last: nat, gaps: seq<SequenceGap>)
    requires Held(packets, first, i) && ExactGaps(packets, first, i + 1, last, gaps)
    ensures ExactGaps(packets, first, i, last, gaps)
  {
  }

  lemma ExactGapsStep(packets: map<u16, RtpPacket>, first: u16, i: nat, last: nat, open: Option<SequenceGap>,
                      grown: Option<SequenceGap>, rest: seq<SequenceGap>, gaps: seq<SequenceGap>)
    requires i <= last < 0x1_0000 && OpenRun(packets, first, i, open)
    requires grown == Grow(packets, SeqAdd(first, i), open) && Held(packets, first, 0)
    requires ExactGaps(packets, first, RunStart(first, i + 1, grown), last, rest)
    requires gaps == (if Held(packets, first, i) && open.Some? then [open.value] else []) + rest
    ensures ExactGaps(packets, first, RunStart(first, i, open), last, gaps)
  {
    GrowStep(packets, first, i, open);
    if !Held(packets, first, i) {
      assert gaps == rest;
    } else if open.Some? {
      ConsGap(packets, first, Lo(first, open.value), i, last, open.value, rest);
    } else {
      assert gaps == rest;
      HeldSkipped(packets, first, i, last, rest);
    }
  }

  /** The report from position `i` on is exact, a run being open or not. */
  ghost predicate ExactFrom(packets: map<u16, RtpPacket>, first: u16, i: nat, last: nat, open: Option<SequenceGap>)
    requires i <= last < 0x1_0000
  {
    ExactGaps(packets, first, RunStart(first, i, open), last,
              GapsFrom(packets, SeqAdd(first, i), SeqAdd(first, last), open))
  }

  lemma ExactFromNext(packets: map<u16, RtpPacket>, first: u16, i: nat, last: nat, open: Option<SequenceGap>)
    requires i < last < 0x1_0000 && Held(packets, first, 0) && Held(packets, first, last)
    requires OpenRun(packets, first, i, open)
    requires ExactFrom(packets, first, i + 1, last, Grow(packets, SeqAdd(first, i), open))
    ensures ExactFrom(packets, first, i, last, open)
  {
    var grown := Grow(packets, SeqAdd(first, i), open);
    GapStep(packets, first, i, last, open);
    ExactGapsStep(packets, first, i, last, open, grown,
                  GapsFrom(packets, SeqAdd(first, i + 1), SeqAdd(first, last), grown),
                  GapsFrom(packets, SeqAdd(first, i), SeqAdd(first, last), open));
  }

  lemma ExactFromLast(packets: map<u16, RtpPacket>, first: u16, last: nat, open: Option<SequenceGap>)
    requires last < 0x1_0000 && Held(packets, first, 0) && Held(packets, first, last)
    requires OpenRun(packets, first, last, open)
    ensures ExactFrom(packets, first, last, last, open)
  {
    GrowStep(packets, first, last, open);
    GapStep(packets, first, last, last, open);
    NothingBeyond(packets, first, last);
    ExactGapsStep(packets, first, last, last, open, None, [],
                  GapsFrom(packets, SeqAdd(first, last), SeqAdd(first, last), open));
  }

  lemma {:induction false} GapsFromExactly(packets: map<u16, RtpPacket>, first: u16, i: nat, last: nat,
                                           open: Option<SequenceGap>)
    requires i <= last < 0x1_0000 && Held(packets, first, 0) && Held(packets, first, last)
    requires OpenRun(packets, first, i, open)
    ensures ExactFrom(packets, first, i, last, open)
    decreases last - i
  {
    if i < last {
      GrowStep(packets, first, i, open);
      GapsFromExactly(packets, first, i + 1, last, Grow(packets, SeqAdd(first, i), open));
      ExactFromNext(packets, first, i, last, open);
    } else {
      ExactFromLast(packets, first, last, open);
    }
  }

  lemma NothingBeyond(packets: map<u16, RtpPacket>, first: u16, last: int)
    ensures ExactGaps(packets, first, last + 1, last, [])
  {
  }

  /** The gap report of a frame lists exactly the maximal missing runs between its
      extremes, in serial order, across a wrap of the sequence numbers too. */
  lemma GapReportExactly(f: PendingFrame)
    requires ValidFrame(f)
    ensures ExactGaps(f.packets, f.minSeq, 0, SeqDistance(f.minSeq, f.maxSeq), FrameGaps(f))
  {
    var last := SeqDistance(f.minSeq, f.maxSeq);
    assert SeqAdd(f.minSeq, 0) == f.minSeq && SeqAdd(f.minSeq, last) == f.maxSeq;
    GapsFromExactly(f.packets, f.minSeq, 0, last, None);
  }

  lemma EmptyReportExactly(packets: map<u16, RtpPacket>, first: u16, last: int, gaps: seq<SequenceGap>)
    requires ExactGaps(packets, first, 0, last, gaps)
    ensures gaps == [] <==> forall i :: 0 <= i <= last ==> Held(packets, first, i)
  {
    if gaps == [] {
      forall i | 0 <= i <= last ensures Held(packets, first, i) {
        assert Held(packets, first, i) || Covered(first, gaps, i);
      }
    } else {
      assert MaximalGap(packets, first, gaps[0]);
      assert !Held(packets, first, Lo(first, gaps[0]));
    }
  }

  /** A video frame is complete if and only if it has its marker and reports no gap. */
  lemma CompleteIffNoGapReported(f: PendingFrame)
    requires ValidFrame(f) && InSeqWindow(f.packets.Keys)
    ensures CompleteVideo(f) <==> f.hasMarker && FrameGaps(f) == []
  {
    var last := SeqDistance(f.minSeq, f.maxSeq);
    CompleteExactly(f);
    GapReportExactly(f);
    EmptyReportExactly(f.packets, f.minSeq, last, FrameGaps(f));
    assert forall i :: 0 <= i <= last ==> Held(f.packets, f.minSeq, i) == (SeqAdd(f.minSeq, i) in f.packets);
  }
}
