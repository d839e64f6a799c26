/** Hashing in 64-byte blocks, streamed byte by byte: for any compression step, finishing
    a stream gives the hash of the padded message as defined in one shot. */
module BlockStream {
  import opened Common
  import opened ByteOrder

  /** A compression step: from a running hash and a block to the next running hash. */
  type Step<!H> = (H, Bytes) -> H

  // ---- One-shot definition -----------------------------------------------------------

  /** Compress the first `k` blocks of a message, one after the other. */
  function FirstBlocks<H>(f: Step<H>, h: H, m: Bytes, k: nat): H
    requires 64 * k <= |m|
  {
    if k == 0 then h else f(FirstBlocks(f, h, m, k - 1), m[64 * k - 64..64 * k])
  }

  function Blocks<H>(f: Step<H>, h: H, m: Bytes): H {
    FirstBlocks(f, h, m, |m| / 64)
  }

  function Zeros(n: nat): (z: Bytes)
    ensures |z| == n
  {
    if n == 0 then [] else Zeros(n - 1) + [0]
  }

  const TWO_TO_THE_64 := 0x1_0000_0000_0000_0000

  function BitLength(bytes: nat): nat {
    bytes * 8 % TWO_TO_THE_64
  }

  /** Zero bytes that bring a buffer of `n` bytes to 56, if need be in the next block. */
  function ZerosToFill(n: nat): nat
    requires n < 64
  {
    if n <= 56 then 56 - n else 120 - n
  }

  function ZerosNeeded(n: nat): nat {
    ZerosToFill(n % 64)
  }

  /** Section 4 of RFC 3174: a one bit, zeros, and the 8-byte field of the length. */
  function Pad(length: nat, field: Bytes): (pad: Bytes)
    requires |field| == 8
    ensures (length + |pad|) % 64 == 0
  {
    [0x80] + (Zeros(ZerosNeeded(length + 1)) + field)
  }

  /** The hash of a whole message: compress the blocks of the padded message in turn. */
  function OneShot<H>(f: Step<H>, h: H, m: Bytes, field: Bytes): H
    requires |field| == 8
  {
    Blocks(f, h, m + Pad(|m|, field))
  }

  // ---- Streaming, byte by byte ----------------------------------------------------------

  /** The running hash, the bytes of the block in progress, and the bytes seen. */
  datatype Context<H> = Context(h: H, buffer: Bytes, total: nat)

  function AbsorbByte<H>(f: Step<H>, ctx: Context<H>, x: u8): Context<H> {
    var buffer := ctx.buffer + [x];
    if |buffer| == 64 then Context(f(ctx.h, buffer), [], ctx.total + 1)
    else Context(ctx.h, buffer, ctx.total + 1)
  }

  function Absorb<H>(f: Step<H>, ctx: Context<H>, m: Bytes): Context<H> {
    if m == [] then ctx else AbsorbByte(f, Absorb(f, ctx, m[..|m| - 1]), m[|m| - 1])
  }

  /** How the program finishes: pad through the same byte-wise update. */
  function Finish<H>(f: Step<H>, ctx: Context<H>, field: Bytes): H {
    var marked := Absorb(f, ctx, [0x80]);
    var filled := Absorb(f, marked, Zeros(ZerosNeeded(|marked.buffer|)));
    Absorb(f, filled, field).h
  }

  lemma {:induction false} FirstBlocksExtended<H>(f: Step<H>, h: H, m: Bytes, more: Bytes, k: nat)
    requires 64 * k <= |m|
    ensures FirstBlocks(f, h, m + more, k) == FirstBlocks(f, h, m, k)
  {
    if k > 0 {
      FirstBlocksExtended(f, h, m, more, k - 1);
      assert (m + more)[64 * k - 64..64 * k] == m[64 * k - 64..64 * k];
    }
  }

  /** What a context knows of the message so far: the hash of its whole blocks and the
      bytes behind them. */
  ghost predicate Represents<H>(f: Step<H>, start: H, ctx: Context<H>, m: Bytes) {
    ctx == Context(Blocks(f, start, m), m[|m| / 64 * 64..], |m|)
  }

  lemma AbsorbByteRepresents<H>(f: Step<H>, start: H, ctx: Context<H>, m: Bytes, x: u8)
    requires Represents(f, start, ctx, m)
    ensures Represents(f, start, AbsorbByte(f, ctx, x), m + [x])
  {
    var k, all := |m| / 64, m + [x];
    FirstBlocksExtended(f, start, m, [x], k);
    assert all[64 * k..] == ctx.buffer + [x];
    if |all| == 64 * k + 64 {
      assert |all| / 64 == k + 1;
      assert all[64 * k..64 * k + 64] == ctx.buffer + [x];
    } else {
      assert |all| / 64 == k;
    }
  }

  lemma {:induction false} AbsorbRepresents<H>(f: Step<H>, start: H, ctx: Context<H>, m: Bytes, more: Bytes)
    requires Represents(f, start, ctx, m)
    ensures Represents(f, start, Absorb(f, ctx, more), m + more)
  {
    if more == [] {
      assert m + more == m;
    } else {
      var n := |more| - 1;
      AbsorbRepresents(f, start, ctx, m, more[..n]);
      AbsorbByteRepresents(f, start, Absorb(f, ctx, more[..n]), m + more[..n], more[n]);
      Associate(m, more[..n], [more[n]]);
      assert more[..n] + [more[n]] == more;
    }
  }

  lemma {:induction false} AbsorbPieces<H>(f: Step<H>, ctx: Context<H>, a: Bytes, b: Bytes)
    ensures Absorb(f, Absorb(f, ctx, a), b) == Absorb(f, ctx, a + b)
  {
    if b == [] {
      assert a + b == a;
    } else {
      var n := |b| - 1;
      AbsorbPieces(f, ctx, a, b[..n]);
      assert (a + b)[..|a| + n] == a + b[..n];
    }
  }

  function Concat(pieces: seq<Bytes>): Bytes {
    if pieces == [] then [] else Concat(pieces[..|pieces| - 1]) + pieces[|pieces| - 1]
  }

  function AbsorbAll<H>(f: Step<H>, ctx: Context<H>, pieces: seq<Bytes>): Context<H> {
    if pieces == [] then ctx else Absorb(f, AbsorbAll(f, ctx, pieces[..|pieces| - 1]), pieces[|pieces| - 1])
  }

  lemma {:induction false} AbsorbAllIsAbsorb<H>(f: Step<H>, ctx: Context<H>, pieces: seq<Bytes>)
    ensures AbsorbAll(f, ctx, pieces) == Absorb(f, ctx, Concat(pieces))
  {
    if pieces != [] {
      var n := |pieces| - 1;
      AbsorbAllIsAbsorb(f, ctx, pieces[..n]);
      AbsorbPieces(f, ctx, Concat(pieces[..n]), pieces[n]);
    }
  }

  lemma AbsorbThree<H>(f: Step<H>, ctx: Context<H>, a: Bytes, b: Bytes, c: Bytes)
    ensures Absorb(f, Absorb(f, Absorb(f, ctx, a), b), c) == Absorb(f, ctx, a + (b + c))
  {
    AbsorbPieces(f, Absorb(f, ctx, a), b, c);
    AbsorbPieces(f, ctx, a, b + c);
  }

  lemma BufferedAfter<H>(f: Step<H>, start: H, ctx: Context<H>, m: Bytes, a: Bytes)
    requires Represents(f, start, ctx, m)
    ensures |Absorb(f, ctx, a).buffer| == (|m| + |a|) % 64
  {
    AbsorbRepresents(f, start, ctx, m, a);
  }

  lemma ZerosInBlock(n: nat)
    requires n < 64
    ensures ZerosNeeded(n) == ZerosToFill(n)
  {
  }

  lemma ZerosNeededInBlock(n: nat)
    ensures ZerosNeeded(n % 64) == ZerosNeeded(n)
  {
  }

  lemma FinishIsAbsorb<H>(f: Step<H>, ctx: Context<H>, zeros: nat, field: Bytes)
    requires ZerosNeeded(|Absorb(f, ctx, [0x80]).buffer|) == zeros
    ensures Finish(f, ctx, field) == Absorb(f, ctx, [0x80] + (Zeros(zeros) + field)).h
  {
    AbsorbThree(f, ctx, [0x80], Zeros(zeros), field);
  }

  lemma FinishIsOneShot<H>(f: Step<H>, start: H, ctx: Context<H>, m: Bytes, field: Bytes)
    requires Represents(f, start, ctx, m) && |field| == 8
    ensures Finish(f, ctx, field) == OneShot(f, start, m, field)
  {
    BufferedAfter(f, start, ctx, m, [0x80]);
    ZerosNeededInBlock(|m| + 1);
    FinishIsAbsorb(f, ctx, ZerosNeeded(|m| + 1), field);
    AbsorbRepresents(f, start, ctx, m, Pad(|m|, field));
  }

  lemma AbsorbZero<H>(f: Step<H>, ctx: Context<H>, n: nat)
    ensures Absorb(f, ctx, Zeros(n + 1)) == AbsorbByte(f, Absorb(f, ctx, Zeros(n)), 0)
  {
    assert Zeros(n + 1)[..n] == Zeros(n);
  }

  /** Each zero byte brings the buffer one byte closer to 56, also past the end of a block. */
  lemma ZeroCounts<H>(f: Step<H>, ctx: Context<H>)
    requires |ctx.buffer| < 64 && |ctx.buffer| != 56
    ensures var left := |AbsorbByte(f, ctx, 0).buffer|; left < 64 && ZerosToFill(left) == ZerosToFill(|ctx.buffer|) - 1
  {
  }

  lemma ZeroStep<H>(f: Step<H>, start: Context<H>, ctx: Context<H>, n: nat)
    requires ctx == Absorb(f, start, Zeros(n)) && |ctx.buffer| < 64 && |ctx.buffer| != 56
    ensures AbsorbByte(f, ctx, 0) == Absorb(f, start, Zeros(n + 1))
    ensures var left := |AbsorbByte(f, ctx, 0).buffer|; left < 64 && ZerosToFill(left) == ZerosToFill(|ctx.buffer|) - 1
  {
    AbsorbZero(f, start, n);
    ZeroCounts(f, ctx);
  }

  /** However a message is cut into updates, the digest is the one-shot digest of the
      whole message. */
  lemma StreamingIsOneShot<H>(f: Step<H>, start: H, pieces: seq<Bytes>, field: Bytes)
    requires |field| == 8
    ensures Finish(f, AbsorbAll(f, Context(start, [], 0), pieces), field) == OneShot(f, start, Concat(pieces), field)
  {
    var ctx := Context(start, [], 0);
    AbsorbAllIsAbsorb(f, ctx, pieces);
    AbsorbRepresents(f, start, ctx, [], Concat(pieces));
    assert [] + Concat(pieces) == Concat(pieces);
    FinishIsOneShot(f, start, AbsorbAll(f, ctx, pieces), Concat(pieces), field);
  }
}
