/** The pieces of the compression against RFC 3174, told apart from how they are computed:
    rotations and round functions bit by bit, the schedule by bytes and bits, the constants
    by the numbers they come from, and the eighty rounds as one recurrence. */
module Sha1Standard {
  import opened Common
  import opened Bits
  import opened ByteOrder
  import opened BlockStream
  import opened Sha1Hash

  // ---- Rotations ---------------------------------------------------------------------

  lemma {:induction false} BitBeyond(v: nat, k: nat, i: nat)
    requires v < Pow2(k) && k <= i
    ensures !Bit(v, i)
  {
    if i > 0 {
      BitBeyond(v / 2, if k > 0 then k - 1 else 0, i - 1);
    }
  }

  /** The bits of a number put together from its lowest `n` bits and the others. */
  lemma {:induction false} JoinedBits(low: nat, high: nat, n: nat, i: nat)
    requires low < Pow2(n)
    ensures Bit(high * Pow2(n) + low, i) == if i < n then Bit(low, i) else Bit(high, i - n)
  {
    if n == 0 {
      assert high * Pow2(n) + low == high;
    } else {
      HalfOfJoined(low, high, n);
      if i > 0 {
        JoinedBits(low / 2, high, n - 1, i - 1);
      }
    }
  }

  lemma HalfOfJoined(low: nat, high: nat, n: nat)
    requires n > 0
    ensures (high * Pow2(n) + low) / 2 == high * Pow2(n - 1) + low / 2
    ensures (high * Pow2(n) + low) % 2 == low % 2
  {
    var rest := high * Pow2(n - 1);
    assert high * Pow2(n) == 2 * rest by {
      Swapped(high, Pow2(n - 1));
    }
  }

  lemma Swapped(a: nat, b: nat)
    ensures a * (2 * b) == 2 * (a * b)
  {
  }

  /** A word rotated left by `n`: bit `i` comes from bit `i - n`, counted modulo 32. */
  ghost predicate Rotated(v: u32, n: nat, r: u32) {
    forall i: nat {:trigger Bit(r, i)} :: i < 32 ==> Bit(r, i) == Bit(v, (i - n) % 32)
  }

  lemma RotatedFromParts(v: u32, n: nat, high: nat, low: nat, r: u32)
    requires 0 < n < 32 && high < Pow2(n) && low < Pow2(32 - n)
    requires v == high * Pow2(32 - n) + low && r == low * Pow2(n) + high
    ensures Rotated(v, n, r)
  {
    forall i: nat | i < 32 ensures Bit(r, i) == Bit(v, (i - n) % 32) {
      JoinedBits(high, low, n, i);
      JoinedBits(low, high, 32 - n, (i - n) % 32);
    }
  }

  lemma Powers()
    ensures Pow2(1) == 2 && Pow2(2) == 4 && Pow2(5) == 0x20 && Pow2(27) == 0x800_0000
    ensures Pow2(30) == 0x4000_0000 && Pow2(31) == 0x8000_0000
  {
    assert Pow2(8) == 0x100 && Pow2(12) == 0x1000 && Pow2(16) == 0x1_0000 && Pow2(20) == 0x10_0000;
    assert Pow2(24) == 0x100_0000 && Pow2(27) == 0x800_0000;
  }

  lemma Rol1Parts(v: u32)
    ensures Rol1(v) == v % 0x8000_0000 * 2 + v / 0x8000_0000
  {
  }

  lemma Rol5Parts(v: u32)
    ensures Rol5(v) == v % 0x800_0000 * 0x20 + v / 0x800_0000
  {
  }

  lemma Rol30Parts(v: u32)
    ensures Rol30(v) == v % 4 * 0x4000_0000 + v / 4
  {
    assert v * 0x4000_0000 == v / 4 * 0x1_0000_0000 + v % 4 * 0x4000_0000;
  }

  /** The three rotations of the program rotate by 1, 5 and 30. */
  lemma RotationsExactly(v: u32)
    ensures Rotated(v, 1, Rol1(v)) && Rotated(v, 5, Rol5(v)) && Rotated(v, 30, Rol30(v))
  {
    Powers();
    Rol1Parts(v);
    Rol5Parts(v);
    Rol30Parts(v);
    RotatedFromParts(v, 1, v / 0x8000_0000, v % 0x8000_0000, Rol1(v));
    RotatedFromParts(v, 5, v / 0x800_0000, v % 0x800_0000, Rol5(v));
    RotatedFromParts(v, 30, v / 4, v % 4, Rol30(v));
  }

  // ---- Round functions and constants -------------------------------------------------

  /** Section 5 of RFC 3174, bit by bit: choice, parity, majority and parity again. */
  lemma FunctionExactly(t: nat, b: u32, c: u32, d: u32, i: nat)
    requires i < 32
    ensures var x, y, z := Bit(b, i), Bit(c, i), Bit(d, i);
            Bit(F(t, b, c, d), i)
            == if t < 20 then (if x then y else z)
               else if 40 <= t < 60 then (x && y) || (y && z) || (x && z)
               else (x != y) != z
  {
    NotBits(b, i);
    AndBits(b, c, i);
    AndBits(Not32(b), d, i);
    OrBits(And32(b, c), And32(Not32(b), d), i);
    AndBits(b, d, i);
    AndBits(c, d, i);
    OrBits(And32(b, c), And32(b, d), i);
    OrBits(Or32(And32(b, c), And32(b, d)), And32(c, d), i);
    XorBits(b, c, i);
    XorBits(Xor32(b, c), d, i);
  }

  /** The round constants are the square roots of 2, 3, 5 and 10 times 2^30, rounded down. */
  lemma ConstantsExactly(t: nat)
    ensures var m := if t < 20 then 2 else if t < 40 then 3 else if t < 60 then 5 else 10;
            K(t) * K(t) <= m * 0x1000_0000_0000_0000 < (K(t) + 1) * (K(t) + 1)
  {
  }

  /** The initial hash, lowest byte first: sixteen nibbles counting up, sixteen counting
      down, and eight that do both in turn. */
  lemma InitialExactly()
    ensures [INITIAL.a, INITIAL.b, INITIAL.c, INITIAL.d, INITIAL.e] ==
            [FromNibbles([1, 0, 3, 2, 5, 4, 7, 6]), FromNibbles([9, 8, 11, 10, 13, 12, 15, 14]),
             FromNibbles([14, 15, 12, 13, 10, 11, 8, 9]), FromNibbles([6, 7, 4, 5, 2, 3, 0, 1]),
             FromNibbles([0, 15, 1, 14, 2, 13, 3, 12])]
  {
  }

  /** The number with these hexadecimal digits, lowest first. */
  function FromNibbles(d: seq<nat>): nat
    requires |d| == 8
  {
    d[0] + 0x10 * d[1] + 0x100 * d[2] + 0x1000 * d[3]
    + 0x1_0000 * d[4] + 0x10_0000 * d[5] + 0x100_0000 * d[6] + 0x1000_0000 * d[7]
  }

  // ---- The schedule ------------------------------------------------------------------

  /** The first sixteen words are the bytes of the block, highest first. Bit `i` of a later
      one is the parity of the bits before it in the words 3, 8, 14 and 16 places back. */
  lemma ScheduleExactly(block: Bytes, t: nat, i: nat)
    requires |block| == 64 && t < 80 && i < 32
    ensures t < 16 ==> BigEndian(W(block, t), 4) == block[4 * t..4 * t + 4]
    ensures t >= 16 ==>
              var j := (i - 1) % 32;
              Bit(W(block, t), i)
              == (((Bit(W(block, t - 3), j) != Bit(W(block, t - 8), j)) != Bit(W(block, t - 14), j))
                  != Bit(W(block, t - 16), j))
  {
    if t < 16 {
      WordBytesRead(block, t);
    } else {
      FourWords(W(block, t - 3), W(block, t - 8), W(block, t - 14), W(block, t - 16), i);
    }
  }

  lemma FourWords(a: u32, b: u32, c: u32, d: u32, i: nat)
    requires i < 32
    ensures var j := (i - 1) % 32;
            Bit(Rol1(Xor32(Xor32(Xor32(a, b), c), d)), i)
            == (((Bit(a, j) != Bit(b, j)) != Bit(c, j)) != Bit(d, j))
  {
    var j := (i - 1) % 32;
    RotationsExactly(Xor32(Xor32(Xor32(a, b), c), d));
    XorBits(a, b, j);
    XorBits(Xor32(a, b), c, j);
    XorBits(Xor32(Xor32(a, b), c), d, j);
  }

  lemma WordBytesRead(block: Bytes, t: nat)
    requires 4 * t + 4 <= |block|
    ensures BigEndian(BigEndianWord(block, t), 4) == block[4 * t..4 * t + 4]
  {
    var b0: int, b1: int, b2: int, b3: int := block[4 * t], block[4 * t + 1], block[4 * t + 2], block[4 * t + 3];
    var w1: nat := b0 * 0x100 + b1;
    var w2: nat := w1 * 0x100 + b2;
    assert BigEndianWord(block, t) == w2 * 0x100 + b3;
    BytesOfWord(b0, b1, b2, b3, w1, w2, w2 * 0x100 + b3);
    assert block[4 * t..4 * t + 4] == [b0, b1, b2, b3];
  }

  lemma BytesOfWord(b0: int, b1: int, b2: int, b3: int, w1: nat, w2: nat, w3: nat)
    requires 0 <= b0 < 0x100 && 0 <= b1 < 0x100 && 0 <= b2 < 0x100 && 0 <= b3 < 0x100
    requires w1 == b0 * 0x100 + b1 && w2 == w1 * 0x100 + b2 && w3 == w2 * 0x100 + b3
    ensures BigEndian(w3, 4) == [b0, b1, b2, b3]
  {
    LastByte(w2, b3, 3);
    LastByte(w1, b2, 2);
    LastByte(b0, b1, 1);
    LastByte(0, b0, 0);
  }

  lemma LastByte(v: nat, last: u8, k: nat)
    ensures BigEndian(v * 0x100 + last, k + 1) == BigEndian(v, k) + [last]
  {
    assert (v * 0x100 + last) / 0x100 == v && (v * 0x100 + last) % 0x100 == last;
  }

  // ---- The rounds as a recurrence ----------------------------------------------------

  /** The five words before a round, oldest first: in each round one is appended, and the
      three oldest are used rotated by 30. */
  ghost predicate Holds(h: Hash, line: seq<u32>) {
    && |line| >= 5
    && var n := |line| - 5;
       h.a == line[n + 4] && h.b == line[n + 3] && h.c == Rol30(line[n + 2])
       && h.d == Rol30(line[n + 1]) && h.e == Rol30(line[n])
  }

  /** `line` goes on by the recurrence of the rounds, starting with the word numbered 5. */
  ghost predicate Recurs(line: seq<u32>, w: seq<u32>) {
    && |line| == |w| + 5
    && forall t: nat {:trigger RecursAt(line, w, t)} :: t < |w| ==> RecursAt(line, w, t)
  }

  ghost predicate RecursAt(line: seq<u32>, w: seq<u32>, t: nat)
    requires t < |w| && |line| == |w| + 5
  {
    line[t + 5] == NextWord(line[t], line[t + 1], line[t + 2], line[t + 3], line[t + 4], t, w[t])
  }

  function Total(a: u32, b: u32, c: u32, d: u32, e: u32): u32 {
    (a + b + c + d + e) % 0x1_0000_0000
  }

  ghost function NextWord(a: u32, b: u32, c: u32, d: u32, e: u32, t: nat, w: u32): u32 {
    Total(Rol5(e), F(t, d, Rol30(c), Rol30(b)), Rol30(a), K(t), w)
  }

  lemma SumGoesOn(x: nat, y: u32)
    ensures Sum(x % 0x1_0000_0000, y) == (x + y) % 0x1_0000_0000
  {
  }

  lemma SumOfFive(a: u32, b: u32, c: u32, d: u32, e: u32)
    ensures Sum(Sum(Sum(Sum(a, b), c), d), e) == Total(a, b, c, d, e)
  {
    SumGoesOn(a + b, c);
    SumGoesOn(a + b + c, d);
    SumGoesOn(a + b + c + d, e);
  }

  /** One round appends the next word. */
  lemma RoundAppends(h: Hash, line: seq<u32>, t: nat, w: u32)
    requires Holds(h, line) && |line| == t + 5
    ensures var next := Round(h, t, w);
            && Holds(next, line + [next.a])
            && next.a == NextWord(line[t], line[t + 1], line[t + 2], line[t + 3], line[t + 4], t, w)
  {
    SumOfFive(Rol5(h.a), F(t, h.b, h.c, h.d), h.e, K(t), w);
  }

  lemma RecursOn(line: seq<u32>, w: seq<u32>, word: u32, next: u32)
    requires Recurs(line, w)
    requires var t := |w|;
             word == NextWord(line[t], line[t + 1], line[t + 2], line[t + 3], line[t + 4], t, next)
    ensures Recurs(line + [word], w + [next])
  {
    forall t: nat | t < |w| + 1 ensures RecursAt(line + [word], w + [next], t) {
      if t < |w| {
        assert RecursAt(line, w, t);
      }
    }
  }

  /** The rounds are one recurrence: any five words the hash stands for determine the line
      of all later ones, and the result stands for the last five. */
  lemma {:induction false} RoundsRecur(h: Hash, start: seq<u32>, w: seq<u32>) returns (line: seq<u32>)
    requires |start| == 5 && Holds(h, start)
    ensures Recurs(line, w) && line[..5] == start && Holds(Rounds(h, w), line)
  {
    if w == [] {
      line := start;
    } else {
      var n := |w| - 1;
      var before := RoundsRecur(h, start, w[..n]);
      var g := Rounds(h, w[..n]);
      RoundAppends(g, before, n, w[n]);
      RecursOn(before, w[..n], Round(g, n, w[n]).a, w[n]);
      assert w[..n] + [w[n]] == w;
      line := before + [Round(g, n, w[n]).a];
    }
  }

  /** Rotating by two undoes rotating by 30, so every hash stands for five words. */
  lemma EveryHashIsHeld(h: Hash)
    ensures Holds(h, [Back30(h.e), Back30(h.d), Back30(h.c), h.b, h.a])
  {
    BackAndForth(h.c);
    BackAndForth(h.d);
    BackAndForth(h.e);
  }

  function Back30(v: u32): u32 {
    v % 0x4000_0000 * 4 + v / 0x4000_0000
  }

  lemma BackAndForth(v: u32)
    ensures Rol30(Back30(v)) == v
  {
    Rol30Parts(Back30(v));
    assert Back30(v) / 4 == v % 0x4000_0000 && Back30(v) % 4 == v / 0x4000_0000;
  }

  /** Each word of the result is that of the hash plus one of the last five of the line. */
  ghost predicate Sums(h: Hash, line: seq<u32>, next: Hash)
    requires |line| == 85
  {
    && next.a == Sum(h.a, line[84]) && next.b == Sum(h.b, line[83]) && next.c == Sum(h.c, Rol30(line[82]))
    && next.d == Sum(h.d, Rol30(line[81])) && next.e == Sum(h.e, Rol30(line[80]))
  }

  lemma SumExactly(a: u32, b: u32)
    ensures Sum(a, b) == if a + b < 0x1_0000_0000 then a + b else a + b - 0x1_0000_0000
  {
  }

  /** Section 6.1 of RFC 3174: the compression of a block is the recurrence over its
      schedule, and each word of the result is added to the hash modulo 2^32. */
  lemma CompressionExactly(h: Hash, block: Bytes) returns (line: seq<u32>, w: seq<u32>)
    requires |block| == 64
    ensures |w| == 80 && (forall t :: 0 <= t < 80 ==> w[t] == W(block, t))
    ensures Recurs(line, w) && Holds(h, line[..5])
    ensures Sums(h, line, Compress(h, block))
  {
    w := Schedule(block);
    line := SomeLine(h, w);
    Added(h, Rounds(h, w), line);
  }

  lemma SomeLine(h: Hash, w: seq<u32>) returns (line: seq<u32>)
    ensures Recurs(line, w) && Holds(h, line[..5]) && Holds(Rounds(h, w), line)
  {
    EveryHashIsHeld(h);
    line := RoundsRecur(h, [Back30(h.e), Back30(h.d), Back30(h.c), h.b, h.a], w);
  }

  lemma Added(h: Hash, g: Hash, line: seq<u32>)
    requires |line| == 85 && Holds(g, line)
    ensures Sums(h, line, Add(h, g))
  {
  }

  // ---- Padding -----------------------------------------------------------------------

  lemma {:induction false} ZerosAt(n: nat, i: nat)
    requires i < n
    ensures Zeros(n)[i] == 0
  {
    if i < n - 1 {
      ZerosAt(n - 1, i);
    }
  }

  /** Section 4 of RFC 3174: a one bit and fewer than 512 zero bits up to eight bytes before
      the end of a block, and there the length in bits. */
  lemma PaddingExactly(m: Bytes)
    ensures var pad := Pad(|m|, LengthField(|m|)); var n := |pad| - 8;
            && (|m| + |pad|) % 64 == 0 && 1 <= n <= 64 && pad[0] == 0x80
            && (forall i :: 1 <= i < n ==> pad[i] == 0)
            && Value(pad[n..]) == |m| * 8 % 0x1_0000_0000_0000_0000
  {
    var zeros := ZerosNeeded(|m| + 1);
    forall i | 0 <= i < zeros ensures Zeros(zeros)[i] == 0 {
      ZerosAt(zeros, i);
    }
    var pad, n := Pad(|m|, LengthField(|m|)), 1 + zeros;
    assert pad[n..] == LengthField(|m|);
    assert Power(4) == 0x1_0000_0000 && Power(8) == 0x1_0000_0000_0000_0000;
    ValueOfBigEndian(BitLength(|m|), 8);
  }

  // ---- The whole digest --------------------------------------------------------------

  /** A chain of hashes over the blocks of the padded message, from the initial one on. */
  ghost predicate Chains(m: Bytes, hs: seq<Hash>) {
    var padded := m + Pad(|m|, LengthField(|m|));
    && |hs| == |padded| / 64 + 1 && hs[0] == INITIAL
    && forall k: nat {:trigger ChainsAt(padded, hs, k)} :: k < |hs| - 1 ==> ChainsAt(padded, hs, k)
  }

  ghost predicate ChainsAt(padded: Bytes, hs: seq<Hash>, k: nat)
    requires k + 1 < |hs| && |hs| == |padded| / 64 + 1
  {
    hs[k + 1] == Compress(hs[k], padded[64 * k..64 * k + 64])
  }

  lemma {:induction false} ChainReaches(padded: Bytes, hs: seq<Hash>, k: nat)
    requires |hs| == |padded| / 64 + 1 && hs[0] == INITIAL && k < |hs|
    requires forall i: nat {:trigger ChainsAt(padded, hs, i)} :: i < |hs| - 1 ==> ChainsAt(padded, hs, i)
    ensures FirstBlocks(Sha1Step, INITIAL, padded, k) == hs[k]
  {
    if k > 0 {
      ChainReaches(padded, hs, k - 1);
      assert ChainsAt(padded, hs, k - 1);
    }
  }

  /** Every such chain ends in the digest, whose twenty bytes are its five words, highest
      byte first. */
  lemma DigestExactly(m: Bytes, hs: seq<Hash>)
    requires Chains(m, hs)
    ensures var h := hs[|hs| - 1];
            && Digest(m) == h
            && Value(Output(h)[..4]) == h.a && Value(Output(h)[4..8]) == h.b && Value(Output(h)[8..12]) == h.c
            && Value(Output(h)[12..16]) == h.d && Value(Output(h)[16..]) == h.e
  {
    ChainReaches(m + Pad(|m|, LengthField(|m|)), hs, |hs| - 1);
    OutputWords(hs[|hs| - 1]);
  }

  lemma OutputWords(h: Hash)
    ensures Value(Output(h)[..4]) == h.a && Value(Output(h)[4..8]) == h.b && Value(Output(h)[8..12]) == h.c
    ensures Value(Output(h)[12..16]) == h.d && Value(Output(h)[16..]) == h.e
  {
    assert Power(4) == 0x1_0000_0000;
    ValueOfBigEndian(h.a, 4);
    ValueOfBigEndian(h.b, 4);
    ValueOfBigEndian(h.c, 4);
    ValueOfBigEndian(h.d, 4);
    ValueOfBigEndian(h.e, 4);
    FiveParts(BigEndian(h.a, 4), BigEndian(h.b, 4), BigEndian(h.c, 4), BigEndian(h.d, 4), BigEndian(h.e, 4));
  }

  lemma FiveParts(a: Bytes, b: Bytes, c: Bytes, d: Bytes, e: Bytes)
    requires |a| == |b| == |c| == |d| == |e| == 4
    ensures var s := a + b + c + d + e;
            s[..4] == a && s[4..8] == b && s[8..12] == c && s[12..16] == d && s[16..] == e
  {
  }
}
