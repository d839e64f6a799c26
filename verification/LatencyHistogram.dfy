/** A fixed-bucket latency histogram, and its percentiles against the order statistics of
    the samples recorded. */
module LatencyHistograms {
  import opened Common
  import opened Arithmetic

  /** Linear buckets of `width` up to `limit`, then one bucket for everything else. */
  datatype Shape = Shape(width: u32, limit: u32) {
    predicate Ok() {
      width > 0
    }

    function Overflow(): nat
      requires Ok()
    {
      limit / width
    }

    function Bucket(x: nat): (i: nat)
      requires Ok()
    {
      if x / width >= Overflow() then Overflow() else x / width
    }

    /** The value that stands for a bucket: its middle, or the limit for the last. */
    function Representative(i: nat): real
      requires Ok() && i <= Overflow()
    {
      if i == Overflow() then limit as real else (i as real + 0.5) * width as real
    }
  }

  // ---- Counting samples --------------------------------------------------------------------

  function Count(samples: seq<nat>, p: nat -> bool): (n: nat)
    ensures n <= |samples|
  {
    if samples == [] then 0
    else Count(samples[..|samples| - 1], p) + if p(samples[|samples| - 1]) then 1 else 0
  }

  lemma CountOneMore(samples: seq<nat>, x: nat, p: nat -> bool)
    ensures Count(samples + [x], p) == Count(samples, p) + if p(x) then 1 else 0
  {
    assert (samples + [x])[..|samples|] == samples;
  }

  lemma {:induction false} CountMonotone(samples: seq<nat>, p: nat -> bool, q: nat -> bool)
    requires forall x <- samples :: p(x) ==> q(x)
    ensures Count(samples, p) <= Count(samples, q)
    decreases |samples|
  {
    if samples != [] {
      CountMonotone(samples[..|samples| - 1], p, q);
    }
  }

  lemma {:induction false} CountSplit(samples: seq<nat>, p: nat -> bool, q: nat -> bool, either: nat -> bool)
    requires forall x :: either(x) <==> p(x) || q(x)
    requires forall x :: !(p(x) && q(x))
    ensures Count(samples, either) == Count(samples, p) + Count(samples, q)
    decreases |samples|
  {
    if samples != [] {
      CountSplit(samples[..|samples| - 1], p, q, either);
    }
  }

  lemma {:induction false} CountAll(samples: seq<nat>, p: nat -> bool)
    requires forall x <- samples :: p(x)
    ensures Count(samples, p) == |samples|
    decreases |samples|
  {
    if samples != [] {
      CountAll(samples[..|samples| - 1], p);
    }
  }

  lemma {:induction false} CountNone(samples: seq<nat>, p: nat -> bool)
    ensures Count(samples, p) == 0 <==> forall x <- samples :: !p(x)
    decreases |samples|
  {
    if samples != [] {
      CountNone(samples[..|samples| - 1], p);
      assert samples == samples[..|samples| - 1] + [samples[|samples| - 1]];
    }
  }

  function LessThan(x: nat): nat -> bool {
    s => s < x
  }

  function AtMost(x: nat): nat -> bool {
    s => s <= x
  }

  function InBucket(shape: Shape, i: nat): nat -> bool
    requires shape.Ok()
  {
    (s: nat) => shape.Bucket(s) == i
  }

  function InBucketsBelow(shape: Shape, i: nat): nat -> bool
    requires shape.Ok()
  {
    (s: nat) => shape.Bucket(s) < i
  }

  // ---- Order statistics --------------------------------------------------------------------

  /** `x` is the `r`-th smallest sample, counting from 1. */
  predicate IsRank(samples: seq<nat>, r: nat, x: nat) {
    x in samples && Count(samples, LessThan(x)) < r <= Count(samples, AtMost(x))
  }

  /** The rank a percentile asks for; 0 asks for the smallest sample. */
  function RankOf(target: nat): nat {
    if target == 0 then 1 else target
  }

  /** Every rank up to the number of samples has its sample. */
  lemma RankExists(samples: seq<nat>, r: nat) returns (x: nat)
    requires 1 <= r <= |samples|
    ensures IsRank(samples, r, x)
  {
    var top := Greatest(samples);
    CountAll(samples, AtMost(top));
    x := RankUpTo(samples, r, top);
  }

  function Greatest(samples: seq<nat>): (top: nat)
    requires samples != []
    ensures forall x <- samples :: x <= top
  {
    var last := samples[|samples| - 1];
    if |samples| == 1 then last
    else
      var before := Greatest(samples[..|samples| - 1]);
      assert samples == samples[..|samples| - 1] + [last];
      if last > before then last else before
  }

  lemma {:induction false} RankUpTo(samples: seq<nat>, r: nat, top: nat) returns (x: nat)
    requires 1 <= r <= Count(samples, AtMost(top))
    ensures IsRank(samples, r, x)
    decreases top
  {
    if top > 0 && r <= Count(samples, AtMost(top - 1)) {
      x := RankUpTo(samples, r, top - 1);
    } else {
      x := top;
      if top == 0 {
        CountNone(samples, LessThan(0));
      } else {
        CountMonotone(samples, LessThan(top), AtMost(top - 1));
      }
      if top !in samples {
        if top == 0 {
          CountNone(samples, AtMost(0));
        } else {
          CountMonotone(samples, AtMost(top), AtMost(top - 1));
        }
      }
    }
  }

  /** Higher ranks have no smaller samples. */
  lemma RankMonotone(samples: seq<nat>, r: nat, s: nat, x: nat, y: nat)
    requires r <= s && IsRank(samples, r, x) && IsRank(samples, s, y)
    ensures x <= y
  {
    if y < x {
      CountMonotone(samples, AtMost(y), LessThan(x));
    }
  }

  // ---- The bucket of a rank ----------------------------------------------------------------

  lemma BucketMonotone(shape: Shape, x: nat, y: nat)
    requires shape.Ok() && x <= y
    ensures shape.Bucket(x) <= shape.Bucket(y)
  {
    QuotientMonotone(x, y, shape.width);
  }

  /** Where the last bucket begins: at the last whole multiple of the width up to the
      limit. It holds the samples above the limit, as documented, and besides them exactly
      those from that multiple up to the limit, of which the limit itself is always one. */
  lemma LastBucketExactly(shape: Shape, x: nat)
    requires shape.Ok()
    ensures var begin := shape.limit / shape.width * shape.width;
            && (shape.Bucket(x) == shape.Overflow() <==> begin <= x)
            && begin <= shape.limit
            && ((shape.Bucket(x) == shape.Overflow() <==> shape.limit < x) <==> !(begin <= x <= shape.limit))
  {
    QuotientReaches(x, shape.width, shape.Overflow());
    WholePart(shape.limit, shape.width);
  }

  /** No shape keeps the documented bound: a sample of exactly the limit is counted above it. */
  lemma LimitIsInLastBucket(shape: Shape)
    requires shape.Ok()
    ensures shape.Bucket(shape.limit) == shape.Overflow()
  {
    LastBucketExactly(shape, shape.limit);
  }

  /** The first bucket at which the running count reaches the rank holds the sample of that
      rank. */
  lemma FirstReachingBucket(shape: Shape, samples: seq<nat>, r: nat, i: nat, x: nat)
    requires shape.Ok() && IsRank(samples, r, x)
    requires Count(samples, InBucketsBelow(shape, i)) < r <= Count(samples, InBucketsBelow(shape, i + 1))
    ensures shape.Bucket(x) == i
  {
    var b := shape.Bucket(x);
    if b < i {
      forall s <- samples | AtMost(x)(s) ensures InBucketsBelow(shape, i)(s) {
        BucketMonotone(shape, s, x);
      }
      CountMonotone(samples, AtMost(x), InBucketsBelow(shape, i));
    } else if b > i {
      forall s <- samples | InBucketsBelow(shape, i + 1)(s) ensures LessThan(x)(s) {
        if x <= s {
          BucketMonotone(shape, x, s);
        }
      }
      CountMonotone(samples, InBucketsBelow(shape, i + 1), LessThan(x));
    }
  }

  // ---- The histogram ------------------------------------------------------------------------

  /** Every bucket holds the number of samples that belong to it. */
  ghost predicate Tallied(shape: Shape, samples: seq<nat>, buckets: seq<nat>) {
    && shape.Ok()
    && |buckets| == shape.Overflow() + 1
    && forall i :: 0 <= i < |buckets| ==> buckets[i] == Count(samples, InBucket(shape, i))
  }

  lemma TallyOneMore(shape: Shape, samples: seq<nat>, buckets: seq<nat>, x: nat)
    requires Tallied(shape, samples, buckets)
    ensures var b := shape.Bucket(x);
            Tallied(shape, samples + [x], buckets[b := buckets[b] + 1])
  {
    var b := shape.Bucket(x);
    var after := buckets[b := buckets[b] + 1];
    forall i | 0 <= i < |after| ensures after[i] == Count(samples + [x], InBucket(shape, i)) {
      CountOneMore(samples, x, InBucket(shape, i));
    }
  }

  /** `min` and `max` are the least and the greatest sample, both 0 before the first. */
  ghost predicate Extremes(samples: seq<nat>, min: nat, max: nat) {
    if samples == [] then min == max == 0
    else min in samples && max in samples && forall x <- samples :: min <= x <= max
  }

  lemma ExtremesOneMore(samples: seq<nat>, min: nat, max: nat, x: nat)
    requires Extremes(samples, min, max)
    ensures Extremes(samples + [x], if samples == [] || x < min then x else min, if x > max then x else max)
  {
    var after := samples + [x];
    assert x in after && forall y <- samples :: y in after;
    assert forall y <- after :: y in samples || y == x;
  }

  /** How the running count over the buckets moves, and where it ends. */
  lemma RunningCount(shape: Shape, samples: seq<nat>, i: nat)
    requires shape.Ok()
    ensures Count(samples, InBucketsBelow(shape, 0)) == 0
    ensures Count(samples, InBucketsBelow(shape, i + 1)) ==
            Count(samples, InBucketsBelow(shape, i)) + Count(samples, InBucket(shape, i))
    ensures Count(samples, InBucketsBelow(shape, shape.Overflow() + 1)) == |samples|
  {
    CountNone(samples, InBucketsBelow(shape, 0));
    CountSplit(samples, InBucketsBelow(shape, i), InBucket(shape, i), InBucketsBelow(shape, i + 1));
    CountAll(samples, InBucketsBelow(shape, shape.Overflow() + 1));
  }

  class LatencyHistogram {
    const bucketUs: u32
    const maxUs: u32
    const buckets: array<nat>
    var count: nat
    var sum: nat
    var min: nat
    var max: nat
    ghost var Samples: seq<nat>

    ghost function Layout(): Shape {
      Shape(bucketUs, maxUs)
    }

    ghost predicate Valid()
      reads this, buckets
    {
      && Tallied(Layout(), Samples, buckets[..])
      && count == |Samples|
      && Extremes(Samples, min, max)
    }

    constructor (bucketUs: u32, maxUs: u32)
      ensures Valid() && Samples == [] && sum == 0 && fresh(buckets)
      ensures Layout() == Shape(if bucketUs == 0 then 1 else bucketUs, maxUs)
    {
      var width: u32 := if bucketUs == 0 then 1 else bucketUs;
      this.bucketUs := width;
      this.maxUs := maxUs;
      buckets := new nat[maxUs / width + 1](i => 0);
      count, sum, min, max := 0, 0, 0, 0;
      Samples := [];
    }

    method Record(microseconds: nat)
      requires Valid()
      modifies this, buckets
      ensures Valid() && Samples == old(Samples) + [microseconds]
      ensures sum == old(sum) + microseconds
    {
      TallyOneMore(Layout(), Samples, buckets[..], microseconds);
      ExtremesOneMore(Samples, min, max, microseconds);
      Tally(microseconds);
      if count == 0 || microseconds < min {
        min := microseconds;
      }
      if microseconds > max {
        max := microseconds;
      }
      sum := sum + microseconds;
      count := count + 1;
      Samples := Samples + [microseconds];
    }

    method Tally(microseconds: nat)
      requires Layout().Ok() && buckets.Length == Layout().Overflow() + 1
      modifies buckets
      ensures var b := Layout().Bucket(microseconds);
              buckets[..] == old(buckets[..])[b := old(buckets[..])[b] + 1]
    {
      ghost var b := Layout().Bucket(microseconds);
      var idx := microseconds / bucketUs;
      if idx >= buckets.Length {
        idx := buckets.Length - 1;
      }
      assert idx == b;
      buckets[idx] := buckets[idx] + 1;
    }

    /** The value standing for the bucket of the sample of rank `target`, rank 0 reading as
        rank 1. The scan always ends inside the loop. */
    method Percentile(target: nat) returns (value: real)
      requires Valid() && target <= count
      ensures count == 0 ==> value == 0.0
      ensures count > 0 ==> exists x :: IsRank(Samples, RankOf(target), x)
      ensures forall x :: IsRank(Samples, RankOf(target), x) ==>
                value == Layout().Representative(Layout().Bucket(x))
    {
      if count == 0 {
        return 0.0;
      }
      ghost var x := RankExists(Samples, RankOf(target));
      var i := FirstReaching(target);
      value := if i == buckets.Length - 1 then maxUs as real else (i as real + 0.5) * bucketUs as real;
    }

    method FirstReaching(target: nat) returns (i: nat)
      requires Valid() && target <= count && count > 0
      ensures i < buckets.Length
      ensures forall x :: IsRank(Samples, RankOf(target), x) ==> Layout().Bucket(x) == i
    {
      ghost var r := RankOf(target);
      var cumulative := 0;
      RunningCount(Layout(), Samples, 0);
      i := 0;
      while i < buckets.Length
        invariant 0 <= i <= buckets.Length
        invariant cumulative == Count(Samples, InBucketsBelow(Layout(), i)) < r
      {
        cumulative := cumulative + buckets[i];
        RunningCount(Layout(), Samples, i);
        assert buckets[i] == buckets[..][i];
        if cumulative >= target && buckets[i] > 0 {
          forall x | IsRank(Samples, r, x) ensures Layout().Bucket(x) == i {
            FirstReachingBucket(Layout(), Samples, r, i, x);
          }
          return;
        }
        i := i + 1;
      }
      assert false;
    }
  }

  // ---- What the percentile tells -----------------------------------------------------------------

  /** Outside the last bucket the value is within half a bucket of the sample it stands
      for; in the last it never exceeds it by a whole bucket. */
  lemma NearTheSample(shape: Shape, x: nat)
    requires shape.Ok()
    ensures var v, half := shape.Representative(shape.Bucket(x)), shape.width as real / 2.0;
            if shape.Bucket(x) < shape.Overflow() then -half < v - x as real <= half
            else v == shape.limit as real && v - x as real < shape.width as real
  {
    var q, m := x / shape.width, shape.limit / shape.width;
    WholePart(x, shape.width);
    WholePart(shape.limit, shape.width);
    if q < m {
      HalfWay(q, shape.width);
    } else {
      StepsUpTo(m, q, shape.width);
    }
  }

  lemma HalfWay(q: nat, w: nat)
    ensures (q as real + 0.5) * w as real == (q * w) as real + w as real / 2.0
  {
    assert (q * w) as real == q as real * w as real;
  }

  lemma RepresentativeMonotone(shape: Shape, i: nat, j: nat)
    requires shape.Ok() && i <= j <= shape.Overflow()
    ensures shape.Representative(i) <= shape.Representative(j)
  {
    var w := shape.width;
    if i < j {
      HalfWay(i, w);
      HalfWay(j, w);
      WholePart(shape.limit, w);
      Steps(i, j, w);
    }
  }

  /** A higher percentile is never smaller: two calls on one histogram, at ranks `k <= l`. */
  lemma PercentileMonotone(shape: Shape, samples: seq<nat>, k: nat, l: nat, x: nat, y: nat)
    requires shape.Ok() && k <= l
    requires IsRank(samples, RankOf(k), x) && IsRank(samples, RankOf(l), y)
    ensures shape.Representative(shape.Bucket(x)) <= shape.Representative(shape.Bucket(y))
  {
    RankMonotone(samples, RankOf(k), RankOf(l), x, y);
    BucketMonotone(shape, x, y);
    RepresentativeMonotone(shape, shape.Bucket(x), shape.Bucket(y));
  }
}
