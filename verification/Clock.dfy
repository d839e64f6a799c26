/** The two time scales of a media stream: RTP ticks counted from the stream's epoch,
    and NTP timestamps built from wall time (section 4 of RFC 3550). Both clocks are
    read in nanoseconds. */
module MediaClock {
  import opened Common

  /** Nanoseconds: of the steady clock, or of wall time since 1970. */
  type Nanos = int

  const SECOND: int := 1_000_000_000
  const ERA: int := 0x1_0000_0000
  /** Seconds from 1900 to 1970. */
  const NTP_UNIX_OFFSET: int := 2_208_988_800

  datatype NtpTimestamp = NtpTimestamp(seconds: u32, fraction: u32)

  /** Integer division as the program's language rounds it: toward zero. */
  function TruncDiv(a: int, b: int): int
    requires b > 0
  {
    if a >= 0 then a / b else -(-a / b)
  }

  // ---- Conversions -------------------------------------------------------------------

  /** Ticks since the epoch, before they are cut to 32 bits. */
  function Ticks(t: Nanos, epoch: Nanos, rate: u32): int {
    TruncDiv((t - epoch) * rate, SECOND)
  }

  function ToRtp(t: Nanos, epoch: Nanos, rate: u32): u32 {
    Ticks(t, epoch, rate) % ERA
  }

  function ToNtp(wall: Nanos): NtpTimestamp {
    var seconds := TruncDiv(wall, SECOND);
    var rest := wall - seconds * SECOND;
    NtpTimestamp((seconds + NTP_UNIX_OFFSET) % ERA, TruncDiv(rest * ERA, SECOND) % ERA)
  }

  function NtpToSystem(ntp: NtpTimestamp): Nanos {
    (ntp.seconds - NTP_UNIX_OFFSET) * SECOND + ntp.fraction * SECOND / ERA
  }

  // ---- Wall time through NTP and back ----------------------------------------------------

  /** The fraction of a second `f` survives to the nanosecond below, and exactly only at
      multiples of 5^9 ns: those are the ones 2^32 can divide. */
  lemma FractionThere(f: nat)
    requires f < SECOND
    ensures f * ERA / SECOND < ERA
    ensures f * ERA / SECOND * SECOND / ERA == if f % 1953125 == 0 then f else f - 1
  {
    var q, r := f * 0x1_0000_0000 / 1_000_000_000, f * 0x1_0000_0000 % 1_000_000_000;
    RemainderFree(f, q, r);
    if r == 0 {
      QuotientIs(q * 1_000_000_000, f, 0);
    } else {
      QuotientIs(q * 1_000_000_000, f - 1, 0x1_0000_0000 - r);
    }
  }

  lemma QuotientIs(x: int, q: int, r: nat)
    requires x == q * 0x1_0000_0000 + r && r < 0x1_0000_0000
    ensures x / 0x1_0000_0000 == q
  {
  }

  /** 2^32 times `f` is a multiple of 10^9 exactly if `f` is one of 5^9. */
  lemma RemainderFree(f: nat, q: nat, r: nat)
    requires f * 0x1_0000_0000 == q * 1_000_000_000 + r && r < 1_000_000_000
    ensures r == 0 <==> f % 1953125 == 0
  {
    if r == 0 {
      assert f * 0x80_0000 == 1953125 * q;
      // 1241897 is the inverse of 2^23 modulo 5^9.
      assert f * (0x80_0000 * 1241897) == 1953125 * (1241897 * q);
      MultipleOf(f, 1241897 * q - 5333907 * f);
    }
    if f % 1953125 == 0 {
      var k := f / 1953125;
      assert f == 1953125 * k;
      assert r == 1_000_000_000 * (0x80_0000 * k - q);
    }
  }

  lemma MultipleOf(x: int, k: int)
    requires x == 1953125 * k
    ensures x % 1953125 == 0
  {
  }

  /** The same for the negative rests that truncation leaves before 1970: the cut to 32
      bits turns them into the fraction's complement. */
  lemma NegativeFraction(g: nat)
    requires 0 < g < SECOND
    ensures (-(g * ERA / SECOND)) % ERA * SECOND / ERA == SECOND - g
  {
    var q, r := g * 0x1_0000_0000 / 1_000_000_000, g * 0x1_0000_0000 % 1_000_000_000;
    Complement(g, q, r);
    QuotientIs((0x1_0000_0000 - q) * 1_000_000_000, 1_000_000_000 - g, r);
  }

  lemma Complement(g: nat, q: int, r: nat)
    requires 0 < g < 1_000_000_000 && r < 1_000_000_000 && g * 0x1_0000_0000 == q * 1_000_000_000 + r
    ensures 0 < q < 0x1_0000_0000 && (-q) % 0x1_0000_0000 == 0x1_0000_0000 - q
  {
    assert q * 1_000_000_000 < 0x1_0000_0000 * 1_000_000_000;
    RemainderIs(-q, -1, 0x1_0000_0000 - q);
  }

  lemma RemainderIs(x: int, k: int, r: nat)
    requires x == k * 0x1_0000_0000 + r && r < 0x1_0000_0000
    ensures x % 0x1_0000_0000 == r
  {
  }

  /** How often the 32-bit count of seconds since 1900 has wrapped. */
  function NtpEra(wall: Nanos): int {
    (TruncDiv(wall, SECOND) + NTP_UNIX_OFFSET) / ERA
  }

  /** Exactly what comes back, for every wall time: the instant itself or the nanosecond
      before, one second too much for fractions before 1970, and 2^32 seconds less for
      every era after the first. */
  lemma NtpRoundTripExactly(wall: Nanos)
    ensures var kept :=
              if wall < 0 && wall % SECOND != 0 then wall + SECOND
              else if wall % 1953125 == 0 then wall
              else wall - 1;
            NtpToSystem(ToNtp(wall)) == kept - NtpEra(wall) * ERA * SECOND
  {
    if wall >= 0 {
      NtpFrom1970(wall);
    } else {
      WholeSecondsBefore1970(-wall);
      NtpBefore1970(-wall);
    }
  }

  lemma NtpPartsFrom1970(wall: nat)
    ensures ToNtp(wall).seconds == wall / SECOND + NTP_UNIX_OFFSET - NtpEra(wall) * ERA
    ensures wall % SECOND * ERA / SECOND < ERA && ToNtp(wall).fraction == wall % SECOND * ERA / SECOND
  {
    FractionThere(wall % SECOND);
    assert wall - wall / SECOND * SECOND == wall % SECOND;
  }

  lemma SameRemainder(wall: nat)
    ensures wall % 1953125 == wall % SECOND % 1953125
  {
    var q, rest := wall / 1_000_000_000, wall % 1_000_000_000;
    SmallRemainder(wall, 512 * q + rest / 1953125, rest % 1953125);
  }

  lemma SmallRemainder(x: nat, k: nat, r: nat)
    requires x == 1953125 * k + r && r < 1953125
    ensures x % 1953125 == r
  {
  }

  lemma NtpFrom1970(wall: nat)
    ensures NtpToSystem(ToNtp(wall)) == (if wall % 1953125 == 0 then wall else wall - 1) - NtpEra(wall) * ERA * SECOND
  {
    NtpPartsFrom1970(wall);
    FractionThere(wall % SECOND);
    SameRemainder(wall);
  }

  /** Before 1970 truncation leaves a negative rest, which the cut to 32 bits complements. */
  lemma NtpPartsBefore1970(before: nat)
    requires before > 0
    ensures TruncDiv(0 - before, SECOND) == 0 - before / SECOND
    ensures ToNtp(0 - before).seconds == (NTP_UNIX_OFFSET - before / SECOND) % ERA
    ensures ToNtp(0 - before).fraction == (0 - before % SECOND * ERA / SECOND) % ERA
  {
    var rest := 0 - before - TruncDiv(0 - before, SECOND) * SECOND;
    assert rest == 0 - before % SECOND;
    assert -(rest * ERA) == before % SECOND * ERA;
  }

  lemma WholeSecondsBefore1970(before: nat)
    ensures before % SECOND == 0 ==> (0 - before) % 1953125 == 0
    ensures (0 - before) % SECOND == 0 <==> before % SECOND == 0
  {
    var seconds := before / SECOND;
    if before % SECOND == 0 {
      assert 0 - before == 1953125 * (0 - 512 * seconds);
    }
  }

  lemma NtpBefore1970(before: nat)
    requires before > 0
    ensures NtpToSystem(ToNtp(0 - before)) ==
            (if before % SECOND != 0 then SECOND - before else 0 - before) - NtpEra(0 - before) * ERA * SECOND
  {
    NtpPartsBefore1970(before);
    var seconds, rest := before / SECOND, before % SECOND;
    var era := NtpEra(0 - before);
    assert ToNtp(0 - before).seconds == NTP_UNIX_OFFSET - seconds - era * ERA;
    if rest != 0 {
      NegativeFraction(rest);
    }
  }

  /** From 1970 to the end of the first era the round trip loses at most a nanosecond. */
  lemma NtpRoundTrip(wall: Nanos)
    requires 0 <= wall < (ERA - NTP_UNIX_OFFSET) * SECOND
    ensures wall - 1 <= NtpToSystem(ToNtp(wall)) <= wall
  {
    NtpRoundTripExactly(wall);
    assert NtpEra(wall) == 0;
  }

  // ---- Ticks ---------------------------------------------------------------------------------

  /** From the epoch on, a tick is the whole part of the elapsed time. */
  lemma TicksBracket(t: Nanos, epoch: Nanos, rate: u32)
    requires epoch <= t
    ensures 0 <= Ticks(t, epoch, rate)
    ensures Ticks(t, epoch, rate) * SECOND <= (t - epoch) * rate < (Ticks(t, epoch, rate) + 1) * SECOND
  {
    var x := (t - epoch) * rate;
    assert 0 <= x;
  }

  /** NTP counts seconds from the start of 1900, seventy years and seventeen leap days before
      1970, and fractions of them in units of 2^-32. */
  lemma NtpEpochExactly()
    ensures var days := 70 * 365 + 17;
            && NtpToSystem(NtpTimestamp(0, 0)) == -(days * 24 * 60 * 60) * SECOND
            && ToNtp(0) == NtpTimestamp(days * 24 * 60 * 60, 0)
            && ToNtp(SECOND / 2).fraction == 0x8000_0000
  {
  }
}
