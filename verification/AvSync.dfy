/** Lip-sync: each stream's RTP timestamps are mapped onto wall time through the last
    Sender Report of that stream. */
module AvSyncing {
  import opened Common
  import opened MediaClock

  datatype Anchor = Anchor(rtp: u32, wall: Nanos, rate: u32)

  /** What an anchor may hold: reports with a clock rate of zero are refused. */
  type Anchors = m: map<u32, Anchor> | forall s <- m :: m[s].rate != 0

  /** `b - a` of two timestamps, read as a signed 32-bit number. */
  function SignedDelta(a: u32, b: u32): (d: int)
    ensures -0x8000_0000 <= d < 0x8000_0000
    ensures (b - a - d) % ERA == 0
  {
    var u := (b - a) % ERA;
    if u < 0x8000_0000 then u else u - ERA
  }

  function WallOf(a: Anchor, rtp: u32): Nanos
    requires a.rate != 0
  {
    a.wall + TruncDiv(SignedDelta(a.rtp, rtp) * SECOND, a.rate)
  }

  function Reported(anchors: Anchors, ssrc: u32, rtp: u32, ntp: NtpTimestamp, rate: u32): Anchors {
    if rate == 0 then anchors else anchors[ssrc := Anchor(rtp, NtpToSystem(ntp), rate)]
  }

  class AvSync {
    var anchors: Anchors

    constructor ()
      ensures anchors == map[]
    {
      anchors := map[];
    }

    method OnSenderReport(ssrc: u32, rtp: u32, ntp: NtpTimestamp, rate: u32)
      modifies this
      ensures anchors == Reported(old(anchors), ssrc, rtp, ntp, rate)
    {
      if rate == 0 {
        return;
      }
      anchors := anchors[ssrc := Anchor(rtp, NtpToSystem(ntp), rate)];
    }

    function PlayoutTime(ssrc: u32, rtp: u32): Option<Nanos>
      reads this
    {
      Playout(anchors, ssrc, rtp)
    }
  }

  function Playout(anchors: Anchors, ssrc: u32, rtp: u32): Option<Nanos> {
    if ssrc in anchors then Some(WallOf(anchors[ssrc], rtp)) else None
  }

  // ---- Senders -----------------------------------------------------------------------------

  /** A sending stream: capture instants are read on the steady clock. */
  datatype Sender = Sender(epoch: Nanos, rate: u32)

  datatype Report = Report(ssrc: u32, at: Nanos)

  /** The anchor a Sender Report built at instant `at` leaves behind, when wall time runs
      `skew` ahead of the steady clock. */
  function AnchorAt(s: Sender, at: Nanos, skew: int): Anchor {
    Anchor(ToRtp(at, s.epoch, s.rate), NtpToSystem(ToNtp(at + skew)), s.rate)
  }

  /** The anchors left by a run of reports, all streams mixed, newest last. */
  function AfterReports(senders: map<u32, Sender>, skew: int, run: seq<Report>): Anchors
    requires forall r <- run :: r.ssrc in senders
  {
    if run == [] then map[]
    else
      var before, r := AfterReports(senders, skew, run[..|run| - 1]), run[|run| - 1];
      var s := senders[r.ssrc];
      Reported(before, r.ssrc, ToRtp(r.at, s.epoch, s.rate), ToNtp(r.at + skew), s.rate)
  }

  /** The instant of a stream's last report. */
  function LastReport(run: seq<Report>, ssrc: u32): (at: Option<Nanos>)
    ensures at.Some? ==> Report(ssrc, at.value) in run
  {
    if run == [] then None
    else if run[|run| - 1].ssrc == ssrc then Some(run[|run| - 1].at)
    else LastReport(run[..|run| - 1], ssrc)
  }

  /** Only the stream's own last report matters. */
  lemma {:induction false} AnchorIsLastReport(senders: map<u32, Sender>, skew: int, run: seq<Report>, ssrc: u32)
    requires forall r <- run :: r.ssrc in senders
    requires ssrc in senders && senders[ssrc].rate != 0
    ensures var anchors, last := AfterReports(senders, skew, run), LastReport(run, ssrc);
            && (ssrc in anchors <==> last.Some?)
            && (last.Some? ==> anchors[ssrc] == AnchorAt(senders[ssrc], last.value, skew))
    decreases |run|
  {
    if run != [] {
      AnchorIsLastReport(senders, skew, run[..|run| - 1], ssrc);
    }
  }

  // ---- Accuracy -----------------------------------------------------------------------------

  /** The two instants are near enough for a signed 32-bit difference of ticks. */
  predicate InTickWindow(s: Sender, at: Nanos, t: Nanos) {
    -0x8000_0000 <= Ticks(t, s.epoch, s.rate) - Ticks(at, s.epoch, s.rate) < 0x8000_0000
  }

  lemma DeltaIsTicks(s: Sender, at: Nanos, t: Nanos) returns (wraps: int)
    ensures SignedDelta(ToRtp(at, s.epoch, s.rate), ToRtp(t, s.epoch, s.rate)) ==
            Ticks(t, s.epoch, s.rate) - Ticks(at, s.epoch, s.rate) - wraps * ERA
    ensures InTickWindow(s, at, t) <==> wraps == 0
  {
    var x, y := Ticks(at, s.epoch, s.rate), Ticks(t, s.epoch, s.rate);
    var d := SignedDelta(x % ERA, y % ERA);
    assert x == x / ERA * ERA + x % ERA && y == y / ERA * ERA + y % ERA;
    wraps := (y % ERA - x % ERA - d) / ERA + y / ERA - x / ERA;
  }

  lemma TruncatedDelta(d: int, rate: u32)
    requires rate != 0
    ensures 0 - rate < TruncDiv(d * SECOND, rate) * rate - d * SECOND < rate
  {
  }

  /** How far playout is from the truth, in units of one `rate`-th of a nanosecond: less
      than a tick and a nanosecond early or late, a nanosecond more on the early side for
      the way through NTP, and a whole turn of the timestamp for each wrap in between. */
  lemma PlayoutError(s: Sender, at: Nanos, t: Nanos, skew: int, wraps: int)
    requires s.rate != 0 && s.epoch <= at && s.epoch <= t
    requires 0 <= at + skew < (ERA - NTP_UNIX_OFFSET) * SECOND
    requires SignedDelta(ToRtp(at, s.epoch, s.rate), ToRtp(t, s.epoch, s.rate)) ==
             Ticks(t, s.epoch, s.rate) - Ticks(at, s.epoch, s.rate) - wraps * ERA
    ensures var error := WallOf(AnchorAt(s, at, skew), ToRtp(t, s.epoch, s.rate)) - (t + skew);
            -2 * s.rate - SECOND < error * s.rate + wraps * ERA * SECOND < s.rate + SECOND
  {
    NtpRoundTrip(at + skew);
    TicksBracket(at, s.epoch, s.rate);
    TicksBracket(t, s.epoch, s.rate);
    var a, rtp := AnchorAt(s, at, skew), ToRtp(t, s.epoch, s.rate);
    var d := SignedDelta(a.rtp, rtp);
    TruncatedDelta(d, s.rate);
    var n, late := TruncDiv(d * SECOND, s.rate), at + skew - a.wall;
    assert WallOf(a, rtp) == a.wall + n;
    var reported, sampled := Ticks(at, s.epoch, s.rate), Ticks(t, s.epoch, s.rate);
    ErrorBound(at - s.epoch, t - s.epoch, reported, sampled, late, n, s.rate, wraps);
  }

  /** The arithmetic of it: `x` and `y` are the whole ticks of `u` and `v`. */
  lemma ErrorBound(u: int, v: int, x: int, y: int, late: int, n: int, rate: u32, wraps: int)
    requires rate != 0 && 0 <= late <= 1
    requires x * SECOND <= u * rate < (x + 1) * SECOND && y * SECOND <= v * rate < (y + 1) * SECOND
    requires 0 - rate < n * rate - (y - x - wraps * ERA) * SECOND < rate
    ensures -2 * rate - SECOND < (u - v - late + n) * rate + wraps * ERA * SECOND < rate + SECOND
  {
    assert (u - v - late + n) * rate == u * rate - v * rate - late * rate + n * rate;
    assert late * rate == if late == 0 then 0 else rate;
  }

  function TickLength(rate: u32): real
    requires rate != 0
  {
    SECOND as real / rate as real
  }

  /** Off by less than one tick and two nanoseconds. */
  predicate Accurate(playout: Nanos, truth: Nanos, rate: u32)
    requires rate != 0
  {
    -(TickLength(rate) + 2.0) < (playout - truth) as real < TickLength(rate) + 1.0
  }

  lemma AccurateIs(error: int, rate: u32)
    requires rate != 0
    ensures Accurate(error, 0, rate) <==> -2 * rate - SECOND < error * rate < rate + SECOND
  {
    BelowTicks(error, rate, 1);
    BelowTicks(-error, rate, 2);
    assert -error * rate == -(error * rate);
  }

  lemma BelowTicks(x: int, rate: u32, c: nat)
    requires rate != 0
    ensures x as real < TickLength(rate) + c as real <==> x * rate < SECOND + c * rate
  {
    Quotient(x as real, SECOND as real, rate as real, c as real);
    ProductAsReal(x, rate);
    ProductAsReal(c, rate);
  }

  lemma Quotient(x: real, k: real, r: real, c: real)
    requires r > 0.0
    ensures x < k / r + c <==> x * r < k + c * r
  {
    var q := k / r;
    assert q * r == k;
    if x < q + c {
      assert (q + c - x) * r > 0.0;
    } else {
      assert (x - q - c) * r >= 0.0;
    }
  }

  lemma ProductAsReal(x: int, y: int)
    ensures (x * y) as real == x as real * y as real
  {
  }

  /** Playout hits the true wall time, to a tick and two nanoseconds, exactly when the
      frame is less than half a turn of the timestamp away from the last report. */
  lemma PlayoutIsAccurateExactly(senders: map<u32, Sender>, skew: int, run: seq<Report>, ssrc: u32, t: Nanos)
    requires forall r <- run :: r.ssrc in senders
    requires ssrc in senders && senders[ssrc].rate != 0 && senders[ssrc].epoch <= t
    requires var last := LastReport(run, ssrc);
             && last.Some? && senders[ssrc].epoch <= last.value
             && 0 <= last.value + skew < (ERA - NTP_UNIX_OFFSET) * SECOND
    ensures var s := senders[ssrc];
            var playout := Playout(AfterReports(senders, skew, run), ssrc, ToRtp(t, s.epoch, s.rate));
            && playout.Some?
            && (Accurate(playout.value, t + skew, s.rate) <==> InTickWindow(s, LastReport(run, ssrc).value, t))
  {
    var s, at := senders[ssrc], LastReport(run, ssrc).value;
    AnchorIsLastReport(senders, skew, run, ssrc);
    var wraps := DeltaIsTicks(s, at, t);
    PlayoutError(s, at, t, skew, wraps);
    var error := WallOf(AnchorAt(s, at, skew), ToRtp(t, s.epoch, s.rate)) - (t + skew);
    AccurateIs(error, s.rate);
    if wraps >= 1 {
      assert wraps * ERA * SECOND >= ERA * SECOND;
    } else if wraps <= -1 {
      assert wraps * ERA * SECOND <= -ERA * SECOND;
    }
  }

  /** Two streams at one instant, each with its own epoch, rate and last report, are
      played less than a tick of each and three nanoseconds apart. */
  lemma LipSync(senders: map<u32, Sender>, skew: int, run: seq<Report>, video: u32, audio: u32, t: Nanos)
    requires forall r <- run :: r.ssrc in senders
    requires forall ssrc <- {video, audio} ::
               && ssrc in senders && senders[ssrc].rate != 0 && senders[ssrc].epoch <= t
               && var last := LastReport(run, ssrc);
               && last.Some? && senders[ssrc].epoch <= last.value
               && 0 <= last.value + skew < (ERA - NTP_UNIX_OFFSET) * SECOND
               && InTickWindow(senders[ssrc], last.value, t)
    ensures var anchors, v, a := AfterReports(senders, skew, run), senders[video], senders[audio];
            var pv := Playout(anchors, video, ToRtp(t, v.epoch, v.rate));
            var pa := Playout(anchors, audio, ToRtp(t, a.epoch, a.rate));
            var apart := TickLength(v.rate) + TickLength(a.rate) + 3.0;
            pv.Some? && pa.Some? && -apart < (pv.value - pa.value) as real < apart
  {
    PlayoutIsAccurateExactly(senders, skew, run, video, t);
    PlayoutIsAccurateExactly(senders, skew, run, audio, t);
  }
}
