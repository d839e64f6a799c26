/** Numbers as bytes, most significant first. */
module ByteOrder {
  import opened Common

  type Bytes = seq<u8>

  /** The last `k` bytes of a number, most significant first. */
  function BigEndian(v: nat, k: nat): (out: Bytes)
    ensures |out| == k
  {
    if k == 0 then [] else BigEndian(v / 0x100, k - 1) + [v % 0x100]
  }

  function Value(data: Bytes): nat {
    if data == [] then 0 else Value(data[..|data| - 1]) * 0x100 + data[|data| - 1]
  }

  function Power(k: nat): nat {
    if k == 0 then 1 else 0x100 * Power(k - 1)
  }

  lemma {:induction false} ValueOfBigEndian(v: nat, k: nat)
    requires v < Power(k)
    ensures Value(BigEndian(v, k)) == v
  {
    if k > 0 {
      ValueOfBigEndian(v / 0x100, k - 1);
      assert BigEndian(v, k)[..k - 1] == BigEndian(v / 0x100, k - 1);
    }
  }

  function ShiftRight(v: nat, bytes: nat): nat {
    if bytes == 0 then v else ShiftRight(v / 0x100, bytes - 1)
  }

  lemma {:induction false} ShiftStep(v: nat, i: nat)
    ensures ShiftRight(v, i + 1) == ShiftRight(v, i) / 0x100
  {
    if i > 0 {
      ShiftStep(v / 0x100, i - 1);
    }
  }

  /** The byte at place `i` counts powers of 256 as many places from the end. */
  lemma {:induction false} BigEndianAt(v: nat, k: nat, i: nat)
    requires i < k
    ensures BigEndian(v, k)[i] == ShiftRight(v, k - 1 - i) % 0x100
  {
    if i < k - 1 {
      BigEndianAt(v / 0x100, k - 1, i);
    }
  }

  lemma QuotientTwice(v: nat)
    ensures v / 0x100 / 0x100 == v / 0x1_0000 && v / 0x1_0000 / 0x100 == v / 0x100_0000
  {
  }

  lemma BigEndianStep(v: nat, k: nat)
    ensures BigEndian(v, k + 1) == BigEndian(v / 0x100, k) + [v % 0x100]
  {
  }

  lemma BigEndianFour(v: nat)
    ensures BigEndian(v, 4) == [v / 0x100_0000 % 0x100, v / 0x1_0000 % 0x100, v / 0x100 % 0x100, v % 0x100]
  {
    var b, c, d := v / 0x100, v / 0x1_0000, v / 0x100_0000;
    QuotientTwice(v);
    BigEndianStep(d, 0);
    BigEndianStep(c, 1);
    BigEndianStep(b, 2);
    BigEndianStep(v, 3);
  }

  /** The eight bytes of a 64-bit length, highest first. */
  method LengthBytes(len: nat) returns (out: Bytes)
    ensures out == BigEndian(len, 8)
  {
    out := [];
    var i := 8;
    while i > 0
      invariant 0 <= i <= 8 && out == BigEndian(ShiftRight(len, i), 8 - i)
    {
      i := i - 1;
      ShiftStep(len, i);
      out := out + [ShiftRight(len, i) % 0x100];
    }
  }
}
