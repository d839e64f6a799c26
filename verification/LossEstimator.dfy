/** Packet loss from 16-bit sequence numbers alone, against counting with the true,
    unwrapped numbers (Appendix A.3 of RFC 3550). */
module LossEstimating {
  import opened Common
  import opened Serial

  /** The estimator's knowledge: numbers are unwrapped, counting from the cycle in which
      the first packet arrived. */
  datatype Loss = Fresh | Counting(base: u16, high: nat, received: nat)

  /** A number less than half a turn ahead moves the high-water mark; any other counts as
      received and no more. */
  function Observed(l: Loss, seq_: u16): Loss {
    match l
    case Fresh => Counting(seq_, seq_, 1)
    case Counting(base, high, received) =>
      var ahead := SeqDistance(high % 0x1_0000, seq_);
      Counting(base, if 0 < ahead < 0x8000 then high + ahead else high, received + 1)
  }

  function Expected(l: Loss): int {
    if l.Fresh? then 0 else l.high - l.base + 1
  }

  function Lost(l: Loss): int {
    if l.Counting? && Expected(l) > l.received then Expected(l) - l.received else 0
  }

  class LossEstimator {
    var init: bool
    var baseSeq: u16
    var maxSeq: u16
    var cycles: nat
    var received: nat

    ghost function Knows(): Loss
      reads this
    {
      if init then Counting(baseSeq, cycles * 0x1_0000 + maxSeq, received) else Fresh
    }

    /** The subtraction of the base from the mark never goes below zero. */
    ghost predicate Valid()
      reads this
    {
      if init then baseSeq <= cycles * 0x1_0000 + maxSeq else cycles == 0
    }

    constructor ()
      ensures Valid() && Knows() == Fresh
    {
      init, baseSeq, maxSeq, cycles, received := false, 0, 0, 0, 0;
    }

    /** The mark is kept as a 16-bit number and a count of wraps. */
    method Observe(sequenceNumber: u16)
      requires Valid()
      modifies this
      ensures Valid() && Knows() == Observed(old(Knows()), sequenceNumber)
    {
      if !init {
        init := true;
        baseSeq := sequenceNumber;
        maxSeq := sequenceNumber;
        received := 1;
        return;
      }
      received := received + 1;
      ghost var high := cycles * 0x1_0000 + maxSeq;
      assert high % 0x1_0000 == maxSeq;
      var delta := SeqDistance(maxSeq, sequenceNumber);
      if delta != 0 && delta < 0x8000 {
        if sequenceNumber < maxSeq {
          cycles := cycles + 1;
        }
        maxSeq := sequenceNumber;
      }
    }

    method ExpectedPackets() returns (n: int)
      ensures n == Expected(Knows())
    {
      if !init {
        return 0;
      }
      n := cycles * 0x1_0000 + maxSeq - baseSeq + 1;
    }

    method LostPackets() returns (n: int)
      ensures n == Lost(Knows())
    {
      var expected := ExpectedPackets();
      n := if init && expected > received then expected - received else 0;
    }
  }

  // ---- True numbers ------------------------------------------------------------------------

  /** What the estimator knows after packets with these true numbers arrived in order. */
  function After(arrivals: seq<int>): Loss {
    if arrivals == [] then Fresh
    else Observed(After(arrivals[..|arrivals| - 1]), arrivals[|arrivals| - 1] % 0x1_0000)
  }

  function Highest(arrivals: seq<int>): int
    requires arrivals != []
  {
    var last := arrivals[|arrivals| - 1];
    if |arrivals| == 1 then last
    else
      var before := Highest(arrivals[..|arrivals| - 1]);
      if last > before then last else before
  }

  lemma {:induction false} HighestIs(arrivals: seq<int>)
    requires arrivals != []
    ensures Highest(arrivals) in arrivals && forall n <- arrivals :: n <= Highest(arrivals)
    decreases |arrivals|
  {
    if |arrivals| > 1 {
      HighestIs(arrivals[..|arrivals| - 1]);
      assert arrivals == arrivals[..|arrivals| - 1] + [arrivals[|arrivals| - 1]];
    }
  }

  /** An arrival the 16 bits tell apart: less than half a turn ahead of the highest so far,
      or not ahead of it and not looking as if it were. */
  predicate Readable(high: int, n: int) {
    if n > high then n - high < 0x8000
    else (n - high) % 0x1_0000 == 0 || (n - high) % 0x1_0000 >= 0x8000
  }

  predicate AllReadable(arrivals: seq<int>) {
    |arrivals| <= 1
    || (AllReadable(arrivals[..|arrivals| - 1])
        && Readable(Highest(arrivals[..|arrivals| - 1]), arrivals[|arrivals| - 1]))
  }

  /** The estimator's mark is the highest true number, both counted from the first packet. */
  predicate MarkIsTrue(arrivals: seq<int>)
    requires arrivals != []
  {
    var l := After(arrivals);
    l.Counting? && l.high - l.base == Highest(arrivals) - arrivals[0]
  }

  predicate AlwaysTrue(arrivals: seq<int>) {
    arrivals == [] || (MarkIsTrue(arrivals) && AlwaysTrue(arrivals[..|arrivals| - 1]))
  }

  lemma {:induction false} AfterCounts(arrivals: seq<int>)
    requires arrivals != []
    ensures var l := After(arrivals);
            l.Counting? && l.base == arrivals[0] % 0x1_0000 && l.high >= l.base && l.received == |arrivals|
    decreases |arrivals|
  {
    if |arrivals| > 1 {
      AfterCounts(arrivals[..|arrivals| - 1]);
    }
  }

  lemma MarkStep(base: u16, high: nat, first: int, top: int, n: int)
    requires first % 0x1_0000 == base && high - base == top - first
    ensures var ahead := SeqDistance(high % 0x1_0000, n % 0x1_0000);
            var next := if 0 < ahead < 0x8000 then high + ahead else high;
            next - base == (if n > top then n else top) - first <==> Readable(top, n)
  {
    assert (high - top) % 0x1_0000 == 0;
    assert SeqDistance(high % 0x1_0000, n % 0x1_0000) == (n - top) % 0x1_0000;
  }

  /** The mark is right after every arrival exactly when every arrival was readable. */
  lemma {:induction false} MarkIsTrueExactly(arrivals: seq<int>)
    ensures AlwaysTrue(arrivals) <==> AllReadable(arrivals)
    decreases |arrivals|
  {
    if |arrivals| == 1 {
      assert After(arrivals) == Observed(Fresh, arrivals[0] % 0x1_0000);
      assert MarkIsTrue(arrivals) && AlwaysTrue([]);
    } else if |arrivals| > 1 {
      var before := arrivals[..|arrivals| - 1];
      MarkIsTrueExactly(before);
      AfterCounts(before);
      AfterCounts(arrivals);
      if AlwaysTrue(before) {
        var l := After(before);
        MarkStep(l.base, l.high, arrivals[0], Highest(before), arrivals[|arrivals| - 1]);
      }
    }
  }

  /** Half a turn back and just under half a turn ahead are always readable. */
  lemma NearIsReadable(high: int, n: int)
    requires -0x8000 <= n - high < 0x8000
    ensures Readable(high, n)
  {
  }

  // ---- Losses --------------------------------------------------------------------------------

  function Range(lo: int, hi: int): (r: set<int>)
    ensures forall n :: n in r <==> lo <= n <= hi
    ensures lo <= hi + 1 ==> |r| == hi - lo + 1
    decreases hi - lo
  {
    if lo > hi then {} else Range(lo, hi - 1) + {hi}
  }

  /** The numbers from the first packet to the highest that never arrived. */
  function Missing(arrivals: seq<int>): set<int>
    requires arrivals != []
  {
    set n | arrivals[0] <= n <= Highest(arrivals) && n !in arrivals
  }

  predicate NoDuplicates(arrivals: seq<int>) {
    forall i, j :: 0 <= i < j < |arrivals| ==> arrivals[i] != arrivals[j]
  }

  lemma NoDuplicatesStep(before: seq<int>, last: int)
    ensures NoDuplicates(before + [last]) <==> NoDuplicates(before) && last !in before
  {
    var all := before + [last];
    if NoDuplicates(all) {
      forall i, j | 0 <= i < j < |before| ensures before[i] != before[j] {
        assert all[i] != all[j];
      }
      forall i | 0 <= i < |before| ensures before[i] != last {
        assert all[i] != all[|before|];
      }
    }
  }

  function HeldFrom(arrivals: seq<int>, lo: int): set<int> {
    set n | n in arrivals && lo <= n
  }

  predicate NoneBelow(arrivals: seq<int>, lo: int) {
    forall n <- arrivals :: lo <= n
  }

  lemma HeldStep(before: seq<int>, last: int, lo: int)
    ensures HeldFrom(before + [last], lo) == HeldFrom(before, lo) + if lo <= last then {last} else {}
    ensures NoneBelow(before + [last], lo) <==> NoneBelow(before, lo) && lo <= last
  {
    assert last in before + [last];
    assert forall n <- before :: n in before + [last];
  }

  /** At most one distinct number per arrival, and one for each exactly when none repeats
      and none falls below `lo`. */
  lemma {:induction false} DistinctFrom(arrivals: seq<int>, lo: int)
    ensures |HeldFrom(arrivals, lo)| <= |arrivals|
    ensures |HeldFrom(arrivals, lo)| == |arrivals| <==> NoDuplicates(arrivals) && NoneBelow(arrivals, lo)
    decreases |arrivals|
  {
    if arrivals != [] {
      var before, last := arrivals[..|arrivals| - 1], arrivals[|arrivals| - 1];
      assert arrivals == before + [last];
      DistinctFrom(before, lo);
      HeldStep(before, last, lo);
      NoDuplicatesStep(before, last);
      assert last in before <==> last in HeldFrom(before, lo) || (last in before && last < lo);
    }
  }

  /** While the mark is true, the estimate never exceeds the number of packets missing, and
      it is that number exactly when nothing is missing or when no packet arrived twice
      and none is older than the first. */
  lemma LostExactly(arrivals: seq<int>)
    requires arrivals != [] && MarkIsTrue(arrivals)
    ensures Expected(After(arrivals)) == Highest(arrivals) - arrivals[0] + 1
    ensures 0 <= Lost(After(arrivals)) <= |Missing(arrivals)|
    ensures Lost(After(arrivals)) == |Missing(arrivals)| <==>
            || Missing(arrivals) == {}
            || (NoDuplicates(arrivals) && NoneBelow(arrivals, arrivals[0]))
  {
    var lo, hi := arrivals[0], Highest(arrivals);
    AfterCounts(arrivals);
    HighestIs(arrivals);
    DistinctFrom(arrivals, lo);
    assert Range(lo, hi) == HeldFrom(arrivals, lo) + Missing(arrivals);
    assert |Missing(arrivals)| == 0 <==> Missing(arrivals) == {};
  }
}
