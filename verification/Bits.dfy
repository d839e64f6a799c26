/** Bitwise operators on unsigned integers, bit by bit from the lowest. */
module Bits {
  import opened Common

  function Pow2(k: nat): nat {
    if k == 0 then 1 else 2 * Pow2(k - 1)
  }

  function And(a: nat, b: nat): nat
    decreases a + b
  {
    if a == 0 || b == 0 then 0 else (if a % 2 == 1 && b % 2 == 1 then 1 else 0) + 2 * And(a / 2, b / 2)
  }

  function Or(a: nat, b: nat): nat
    decreases a + b
  {
    if a == 0 && b == 0 then 0 else (if a % 2 == 1 || b % 2 == 1 then 1 else 0) + 2 * Or(a / 2, b / 2)
  }

  function Xor(a: nat, b: nat): nat
    decreases a + b
  {
    if a == 0 && b == 0 then 0 else (if a % 2 == b % 2 then 0 else 1) + 2 * Xor(a / 2, b / 2)
  }

  /** The operators stay within the width of their operands. */
  lemma {:induction false} WithinWidth(a: nat, b: nat, k: nat)
    requires a < Pow2(k) && b < Pow2(k)
    ensures And(a, b) < Pow2(k) && Or(a, b) < Pow2(k) && Xor(a, b) < Pow2(k)
  {
    if k > 0 {
      WithinWidth(a / 2, b / 2, k - 1);
    }
  }

  /** Bit `i`, counted from the lowest. */
  predicate Bit(v: nat, i: nat) {
    if i == 0 then v % 2 == 1 else Bit(v / 2, i - 1)
  }

  lemma {:induction false} NoBits(i: nat)
    ensures !Bit(0, i)
  {
    if i > 0 {
      NoBits(i - 1);
    }
  }

  /** The operators act on each bit by itself. */
  lemma {:induction false} AndBits(a: nat, b: nat, i: nat)
    ensures Bit(And(a, b), i) == (Bit(a, i) && Bit(b, i))
  {
    if a == 0 || b == 0 {
      NoBits(i);
    } else if i > 0 {
      AndBits(a / 2, b / 2, i - 1);
    }
  }

  lemma {:induction false} OrBits(a: nat, b: nat, i: nat)
    ensures Bit(Or(a, b), i) == (Bit(a, i) || Bit(b, i))
  {
    if a == 0 && b == 0 {
      NoBits(i);
    } else if i > 0 {
      OrBits(a / 2, b / 2, i - 1);
    }
  }

  lemma {:induction false} XorBits(a: nat, b: nat, i: nat)
    ensures Bit(Xor(a, b), i) == (Bit(a, i) != Bit(b, i))
  {
    if a == 0 && b == 0 {
      NoBits(i);
    } else if i > 0 {
      XorBits(a / 2, b / 2, i - 1);
    }
  }

  lemma NotBits(a: u32, i: nat)
    requires i < 32
    ensures Bit(Not32(a), i) == !Bit(a, i)
  {
    Widths();
    ComplementBits(a, 32, i);
  }

  lemma {:induction false} ComplementBits(a: nat, k: nat, i: nat)
    requires i < k && a < Pow2(k)
    ensures Bit(Pow2(k) - 1 - a, i) == !Bit(a, i)
  {
    if i > 0 {
      assert (Pow2(k) - 1 - a) / 2 == Pow2(k - 1) - 1 - a / 2;
      ComplementBits(a / 2, k - 1, i - 1);
    }
  }

  lemma Widths()
    ensures Pow2(8) == 0x100 && Pow2(32) == 0x1_0000_0000
  {
    assert Pow2(4) == 16;
    assert Pow2(16) == 0x1_0000 by { assert Pow2(12) == 0x1000; }
    assert Pow2(24) == 0x100_0000 by { assert Pow2(20) == 0x10_0000; }
    assert Pow2(28) == 0x1000_0000;
  }

  lemma {:induction false} XorTwice(a: nat, b: nat)
    ensures Xor(Xor(a, b), b) == a
    decreases a + b
  {
    if a != 0 || b != 0 {
      var x := Xor(a, b);
      assert x / 2 == Xor(a / 2, b / 2) && (x % 2 == 0 <==> a % 2 == b % 2);
      XorTwice(a / 2, b / 2);
    }
  }

  function And32(a: u32, b: u32): u32 {
    Widths();
    WithinWidth(a, b, 32);
    And(a, b)
  }

  function Or32(a: u32, b: u32): u32 {
    Widths();
    WithinWidth(a, b, 32);
    Or(a, b)
  }

  function Xor32(a: u32, b: u32): u32 {
    Widths();
    WithinWidth(a, b, 32);
    Xor(a, b)
  }

  function Not32(a: u32): u32 {
    0xFFFF_FFFF - a
  }

  function Xor8(a: u8, b: u8): u8 {
    Widths();
    WithinWidth(a, b, 8);
    Xor(a, b)
  }
}
