/** The streaming SHA-1 of the WebSocket handshake against the one-shot definition:
    padding of section 4 and compression of section 6.1 of RFC 3174. */
module Sha1Hash {
  import opened Common
  import opened Bits
  import opened BlockStream
  import opened ByteOrder

  // ---- Compression -----------------------------------------------------------------

  datatype Hash = Hash(a: u32, b: u32, c: u32, d: u32, e: u32)

  const INITIAL := Hash(0x67452301, 0xEFCDAB89, 0x98BADCFE, 0x10325476, 0xC3D2E1F0)

  /** Addition in 32-bit unsigned arithmetic. */
  function Sum(a: u32, b: u32): u32 {
    (a + b) % 0x1_0000_0000
  }

  /** `v << 1 | v >> 31` */
  function Rol1(v: u32): u32 {
    v * 2 % 0x1_0000_0000 + v / 0x8000_0000
  }

  /** `v << 5 | v >> 27` */
  function Rol5(v: u32): u32 {
    v * 0x20 % 0x1_0000_0000 + v / 0x800_0000
  }

  /** `v << 30 | v >> 2` */
  function Rol30(v: u32): u32 {
    v * 0x4000_0000 % 0x1_0000_0000 + v / 4
  }

  function BigEndianWord(block: Bytes, i: nat): u32
    requires 4 * i + 4 <= |block|
  {
    var b0: int, b1: int, b2: int, b3: int := block[4 * i], block[4 * i + 1], block[4 * i + 2], block[4 * i + 3];
    b0 * 0x100_0000 + b1 * 0x1_0000 + b2 * 0x100 + b3
  }

  /** The message schedule W(0) .. W(79). */
  function W(block: Bytes, t: nat): u32
    requires |block| == 64
  {
    if t < 16 then BigEndianWord(block, t)
    else Rol1(Xor32(Xor32(Xor32(W(block, t - 3), W(block, t - 8)), W(block, t - 14)), W(block, t - 16)))
  }

  function F(t: nat, b: u32, c: u32, d: u32): u32 {
    if t < 20 then Or32(And32(b, c), And32(Not32(b), d))
    else if t < 40 then Xor32(Xor32(b, c), d)
    else if t < 60 then Or32(Or32(And32(b, c), And32(b, d)), And32(c, d))
    else Xor32(Xor32(b, c), d)
  }

  function K(t: nat): u32 {
    if t < 20 then 0x5A827999 else if t < 40 then 0x6ED9EBA1 else if t < 60 then 0x8F1BBCDC else 0xCA62C1D6
  }

  function Round(h: Hash, t: nat, w: u32): Hash {
    Hash(Sum(Sum(Sum(Sum(Rol5(h.a), F(t, h.b, h.c, h.d)), h.e), K(t)), w), h.a, Rol30(h.b), h.c, h.d)
  }

  /** One round per scheduled word. */
  function Rounds(h: Hash, w: seq<u32>): Hash {
    if w == [] then h
    else
      var t := |w| - 1;
      Round(Rounds(h, w[..t]), t, w[t])
  }

  function Schedule(block: Bytes): (w: seq<u32>)
    requires |block| == 64
    ensures |w| == 80 && forall t :: 0 <= t < 80 ==> w[t] == W(block, t)
  {
    seq(80, t requires 0 <= t < 80 => W(block, t))
  }

  function Add(g: Hash, h: Hash): Hash {
    Hash(Sum(g.a, h.a), Sum(g.b, h.b), Sum(g.c, h.c), Sum(g.d, h.d), Sum(g.e, h.e))
  }

  function Compress(h: Hash, block: Bytes): Hash
    requires |block| == 64
  {
    Add(h, Rounds(h, Schedule(block)))
  }

  /** The compression as a step on any bytes; only whole blocks are compressed. */
  function Sha1Step(h: Hash, block: Bytes): Hash {
    if |block| == 64 then Compress(h, block) else h
  }

  const START := Context(INITIAL, [], 0)

  /** The length in bits as a 64-bit number, which it fits for fewer than 2^61 bytes. */
  function LengthField(bytes: nat): (field: Bytes)
    ensures |field| == 8
  {
    BigEndian(BitLength(bytes), 8)
  }

  /** The SHA-1 of a whole message. */
  function Digest(m: Bytes): Hash {
    OneShot(Sha1Step, INITIAL, m, LengthField(|m|))
  }

  /** The twenty bytes of a hash. */
  function Output(h: Hash): (out: Bytes)
    ensures |out| == 20
  {
    BigEndian(h.a, 4) + BigEndian(h.b, 4) + BigEndian(h.c, 4) + BigEndian(h.d, 4) + BigEndian(h.e, 4)
  }

  /** However a message is cut into updates, the streamed SHA-1 is that of the message. */
  lemma StreamedDigest(pieces: seq<Bytes>)
    ensures var ctx := AbsorbAll(Sha1Step, START, pieces);
            Finish(Sha1Step, ctx, LengthField(ctx.total)) == Digest(Concat(pieces))
  {
    var ctx, m := AbsorbAll(Sha1Step, START, pieces), Concat(pieces);
    AbsorbAllIsAbsorb(Sha1Step, START, pieces);
    AbsorbRepresents(Sha1Step, INITIAL, START, [], m);
    assert [] + m == m;
    StreamingIsOneShot(Sha1Step, INITIAL, pieces, LengthField(|m|));
  }

  // ---- The program's object ----------------------------------------------------------------

  method RoundFunction(i: nat, b: u32, c: u32, d: u32) returns (f: u32, k: u32)
    ensures f == F(i, b, c, d) && k == K(i)
  {
    if i < 20 {
      f, k := Or32(And32(b, c), And32(Not32(b), d)), 0x5A827999;
    } else if i < 40 {
      f, k := Xor32(Xor32(b, c), d), 0x6ED9EBA1;
    } else if i < 60 {
      f, k := Or32(Or32(And32(b, c), And32(b, d)), And32(c, d)), 0x8F1BBCDC;
    } else {
      f, k := Xor32(Xor32(b, c), d), 0xCA62C1D6;
    }
  }

  method ProcessBlock(h: Hash, p: Bytes) returns (next: Hash)
    requires |p| == 64
    ensures next == Sha1Step(h, p)
  {
    var w := ScheduleOf(p);
    var a, b, c, d, e := h.a, h.b, h.c, h.d, h.e;
    for i := 0 to |w|
      invariant Hash(a, b, c, d, e) == Rounds(h, w[..i])
    {
      assert w[..i + 1][..i] == w[..i];
      var f, k := RoundFunction(i, b, c, d);
      var tmp := Sum(Sum(Sum(Sum(Rol5(a), f), e), k), w[i]);
      e := d;
      d := c;
      c := Rol30(b);
      b := a;
      a := tmp;
    }
    assert w[..|w|] == w;
    next := Hash(Sum(h.a, a), Sum(h.b, b), Sum(h.c, c), Sum(h.d, d), Sum(h.e, e));
  }

  /** `w` holds the first words of the schedule. */
  ghost predicate Scheduled(p: Bytes, w: seq<u32>)
    requires |p| == 64
  {
    forall j {:trigger w[j]} :: 0 <= j < |w| ==> w[j] == W(p, j)
  }

  lemma ScheduledNext(p: Bytes, w: seq<u32>, next: u32)
    requires |p| == 64 && Scheduled(p, w) && next == W(p, |w|)
    ensures Scheduled(p, w + [next])
  {
  }

  lemma ExpandedWord(p: Bytes, w: seq<u32>)
    requires |p| == 64 && |w| >= 16 && Scheduled(p, w)
    ensures var i := |w|; Rol1(Xor32(Xor32(Xor32(w[i - 3], w[i - 8]), w[i - 14]), w[i - 16])) == W(p, i)
  {
  }

  method ScheduleOf(p: Bytes) returns (w: seq<u32>)
    requires |p| == 64
    ensures w == Schedule(p)
  {
    w := [];
    for i := 0 to 16
      invariant |w| == i && Scheduled(p, w)
    {
      ScheduledNext(p, w, BigEndianWord(p, i));
      w := w + [BigEndianWord(p, i)];
    }
    for i := 16 to 80
      invariant |w| == i && Scheduled(p, w)
    {
      ExpandedWord(p, w);
      var next := Rol1(Xor32(Xor32(Xor32(w[i - 3], w[i - 8]), w[i - 14]), w[i - 16]));
      ScheduledNext(p, w, next);
      w := w + [next];
    }
  }

  class Sha1 {
    var h: Hash
    const buffer: array<u8>
    var bufferLen: nat
    var totalLen: nat

    ghost predicate Valid()
      reads this
    {
      buffer.Length == 64 && bufferLen < 64
    }

    ghost function Current(): Context<Hash>
      requires Valid()
      reads this, buffer
    {
      Context(h, buffer[..bufferLen], totalLen)
    }

    constructor ()
      ensures Valid() && fresh(buffer) && Current() == START
    {
      h := INITIAL;
      buffer := new u8[64](_ => 0);
      bufferLen, totalLen := 0, 0;
    }

    method UpdateByte(x: u8)
      requires Valid()
      modifies this, buffer
      ensures Valid() && Current() == AbsorbByte(Sha1Step, old(Current()), x)
    {
      buffer[bufferLen] := x;
      bufferLen := bufferLen + 1;
      assert buffer[..bufferLen] == old(buffer[..bufferLen]) + [x];
      if bufferLen == 64 {
        assert buffer[..] == buffer[..64];
        h := ProcessBlock(h, buffer[..]);
        bufferLen := 0;
      }
      totalLen := totalLen + 1;
    }

    method Update(data: Bytes)
      requires Valid()
      modifies this, buffer
      ensures Valid() && Current() == Absorb(Sha1Step, old(Current()), data)
    {
      for i := 0 to |data|
        invariant Valid() && Current() == Absorb(Sha1Step, old(Current()), data[..i])
      {
        assert data[..i + 1][..i] == data[..i];
        UpdateByte(data[i]);
      }
      assert data[..|data|] == data;
    }

    /** Zero bytes until eight bytes are left in the block. */
    method FillWithZeros()
      requires Valid()
      modifies this, buffer
      ensures Valid()
      ensures Current() == Absorb(Sha1Step, old(Current()), Zeros(ZerosToFill(old(bufferLen))))
    {
      ghost var start, n, needed := Current(), 0, ZerosToFill(bufferLen);
      while bufferLen != 56
        invariant Valid() && n <= needed && Current() == Absorb(Sha1Step, start, Zeros(n))
        invariant ZerosToFill(bufferLen) == needed - n
        decreases needed - n
      {
        OneZero(start, n);
        n := n + 1;
      }
    }

    method OneZero(ghost start: Context<Hash>, ghost n: nat)
      requires Valid() && bufferLen != 56 && Current() == Absorb(Sha1Step, start, Zeros(n))
      modifies this, buffer
      ensures Valid() && Current() == Absorb(Sha1Step, start, Zeros(n + 1))
      ensures ZerosToFill(bufferLen) == ZerosToFill(old(bufferLen)) - 1
    {
      ZeroStep(Sha1Step, start, Current(), n);
      UpdateByte(0);
    }

    /** The digest of everything absorbed so far. */
    method Finalize(ghost message: Bytes) returns (out: Bytes)
      requires Valid() && Represents(Sha1Step, INITIAL, Current(), message)
      modifies this, buffer
      ensures Valid() && out == Output(Digest(message))
    {
      FinishIsOneShot(Sha1Step, INITIAL, Current(), message, LengthField(totalLen));
      var bitLen := totalLen * 8 % TWO_TO_THE_64;
      Update([0x80]);
      ZerosInBlock(bufferLen);
      FillWithZeros();
      var length := LengthBytes(bitLen);
      Update(length);
      var a := WordBytes(h.a);
      var b := WordBytes(h.b);
      var c := WordBytes(h.c);
      var d := WordBytes(h.d);
      var e := WordBytes(h.e);
      out := a + b + c + d + e;
    }
  }

  method WordBytes(w: u32) returns (out: Bytes)
    ensures out == BigEndian(w, 4)
  {
    BigEndianFour(w);
    out := [w / 0x100_0000 % 0x100, w / 0x1_0000 % 0x100, w / 0x100 % 0x100, w % 0x100];
  }

  /** Hash a message handed over in pieces. */
  method DigestOfPieces(pieces: seq<Bytes>) returns (r: Bytes)
    ensures r == Output(Digest(Concat(pieces)))
  {
    var sha := new Sha1();
    for i := 0 to |pieces|
      invariant sha.Valid() && fresh(sha) && fresh(sha.buffer)
      invariant sha.Current() == AbsorbAll(Sha1Step, START, pieces[..i])
    {
      assert pieces[..i + 1][..i] == pieces[..i];
      sha.Update(pieces[i]);
    }
    assert pieces[..|pieces|] == pieces;
    AbsorbAllIsAbsorb(Sha1Step, START, pieces);
    AbsorbRepresents(Sha1Step, INITIAL, START, [], Concat(pieces));
    assert [] + Concat(pieces) == Concat(pieces);
    r := sha.Finalize(Concat(pieces));
  }
}
