/** Base64 as the handshake writes it, with a decoder from section 4 of RFC 4648. */
module Base64 {
  import opened Common

  type Bytes = seq<u8>

  /** Digit values 0 to 63 as A-Z, a-z, 0-9, + and /. */
  function Digit(i: nat): char
    requires i < 64
  {
    if i < 26 then 'A' + i as char
    else if i < 52 then 'a' + (i - 26) as char
    else if i < 62 then '0' + (i - 52) as char
    else if i == 62 then '+' else '/'
  }

  function DigitValue(c: char): (v: Option<nat>)
    ensures v.Some? ==> v.value < 64
  {
    if 'A' <= c <= 'Z' then Some(c as nat - 'A' as nat)
    else if 'a' <= c <= 'z' then Some(c as nat - 'a' as nat + 26)
    else if '0' <= c <= '9' then Some(c as nat - '0' as nat + 52)
    else if c == '+' then Some(62) else if c == '/' then Some(63) else None
  }

  lemma DigitReadBack(i: nat)
    requires i < 64
    ensures DigitValue(Digit(i)) == Some(i) && Digit(i) != '='
  {
  }

  // ---- Encoding ------------------------------------------------------------------------

  /** The 24-bit number of up to three bytes, the missing ones being zero. */
  function Group(a: u8, b: u8, c: u8): (n: nat)
    ensures n < 0x100_0000
  {
    var x: int, y: int, z: int := a, b, c;
    x * 0x1_0000 + y * 0x100 + z
  }

  function EncodeGroup(n: nat): (s: string)
    ensures |s| == 4
  {
    [Digit(n / 0x4_0000 % 64), Digit(n / 0x1000 % 64), Digit(n / 64 % 64), Digit(n % 64)]
  }

  /** The last group, of one or two bytes. */
  function EncodeTail(data: Bytes): (s: string)
    requires 1 <= |data| <= 2
    ensures |s| == 4
  {
    var n := Group(data[0], if |data| == 2 then data[1] else 0, 0);
    [Digit(n / 0x4_0000 % 64), Digit(n / 0x1000 % 64), if |data| == 2 then Digit(n / 64 % 64) else '=', '=']
  }

  function Encode(data: Bytes): string
    decreases |data|
  {
    if data == [] then ""
    else if |data| < 3 then EncodeTail(data)
    else EncodeGroup(Group(data[0], data[1], data[2])) + Encode(data[3..])
  }

  method Base64Of(data: Bytes) returns (out: string)
    ensures out == Encode(data)
  {
    var len := |data|;
    out := "";
    var i := 0;
    assert data[0..] == data;
    while i + 2 < len
      invariant 0 <= i <= len && Encode(data) == out + Encode(data[i..])
    {
      var n := Group(data[i], data[i + 1], data[i + 2]);
      var group := [Digit(n / 0x4_0000 % 64), Digit(n / 0x1000 % 64), Digit(n / 64 % 64), Digit(n % 64)];
      assert data[i..][3..] == data[i + 3..];
      Associate(out, group, Encode(data[i + 3..]));
      out := out + group;
      i := i + 3;
    }
    if i < len {
      var n := Group(data[i], if i + 1 < len then data[i + 1] else 0, 0);
      var third := if i + 1 < len then Digit(n / 64 % 64) else '=';
      out := out + [Digit(n / 0x4_0000 % 64), Digit(n / 0x1000 % 64), third, '='];
    }
  }

  // ---- Decoding, by the standard ----------------------------------------------------------

  function Value4(a: nat, b: nat, c: nat, d: nat): nat {
    a * 0x4_0000 + b * 0x1000 + c * 64 + d
  }

  function Bytes3(n: nat): Bytes
    requires n < 0x100_0000
  {
    [n / 0x1_0000, n / 0x100 % 0x100, n % 0x100]
  }

  /** Four characters as the bytes they stand for; padding only at the very end. */
  function DecodeGroup(s: string, last: bool): (r: Option<Bytes>)
    requires |s| == 4
  {
    var a, b, c, d := DigitValue(s[0]), DigitValue(s[1]), DigitValue(s[2]), DigitValue(s[3]);
    if a.None? || b.None? then None
    else if last && s[2] == '=' && s[3] == '=' then
      Some(Bytes3(Value4(a.value, b.value, 0, 0))[..1])
    else if c.None? then None
    else if last && s[3] == '=' then
      Some(Bytes3(Value4(a.value, b.value, c.value, 0))[..2])
    else if d.None? then None
    else Some(Bytes3(Value4(a.value, b.value, c.value, d.value)))
  }

  function Decode(s: string): Option<Bytes>
    decreases |s|
  {
    if s == "" then Some([])
    else if |s| < 4 then None
    else
      var head, rest := DecodeGroup(s[..4], |s| == 4), Decode(s[4..]);
      if head.None? || rest.None? then None else Some(head.value + rest.value)
  }

  // ---- Round trip -------------------------------------------------------------------------

  lemma GroupDigits(n: nat)
    requires n < 0x100_0000
    ensures Value4(n / 0x4_0000 % 64, n / 0x1000 % 64, n / 64 % 64, n % 64) == n
  {
    var p := n / 64;
    var q := p / 64;
    var r := q / 64;
    DivTwice(n, 64, 64);
    DivTwice(n, 0x1000, 64);
    assert n == 64 * p + n % 64 && p == 64 * q + p % 64 && q == 64 * r + q % 64;
    assert r % 64 == r;
  }

  lemma DivTwice(n: nat, a: nat, b: nat)
    requires (a == 64 || a == 0x1000) && b == 64
    ensures n / a / b == n / (a * b)
  {
  }

  lemma ByteBehind(x: nat, y: nat)
    requires y < 0x100
    ensures (x * 0x100 + y) / 0x100 == x && (x * 0x100 + y) % 0x100 == y
  {
  }

  lemma GroupBytes(a: u8, b: u8, c: u8)
    ensures Bytes3(Group(a, b, c)) == [a, b, c]
  {
    var x: int, y: int, z: int := a, b, c;
    var n := Group(a, b, c);
    ByteBehind(x * 0x100 + y, z);
    ByteBehind(x, y);
    assert n / 0x100 == x * 0x100 + y && n / 0x1_0000 == n / 0x100 / 0x100;
  }

  lemma DecodeEncodedGroup(a: u8, b: u8, c: u8, last: bool)
    ensures DecodeGroup(EncodeGroup(Group(a, b, c)), last) == Some([a, b, c])
  {
    var n := Group(a, b, c);
    DigitReadBack(n / 0x4_0000 % 64);
    DigitReadBack(n / 0x1000 % 64);
    DigitReadBack(n / 64 % 64);
    DigitReadBack(n % 64);
    GroupDigits(n);
    GroupBytes(a, b, c);
  }

  lemma UnusedDigits(a: u8, b: u8)
    ensures Group(a, b, 0) % 64 == 0 && Group(a, 0, 0) / 64 % 64 == 0
  {
    var x: int, y: int := a, b;
    assert Group(a, b, 0) == 64 * (x * 0x400 + y * 4);
    assert Group(a, 0, 0) == 64 * (64 * (x * 16));
  }

  /** Two digits carry one byte. */
  lemma DecodeOneByte(a: u8)
    ensures DecodeGroup(EncodeTail([a]), true) == Some([a])
  {
    var n := Group(a, 0, 0);
    DigitReadBack(n / 0x4_0000 % 64);
    DigitReadBack(n / 0x1000 % 64);
    GroupDigits(n);
    UnusedDigits(a, 0);
    GroupBytes(a, 0, 0);
    assert Bytes3(n)[..1] == [a];
  }

  /** Three digits carry two bytes. */
  lemma DecodeTwoBytes(a: u8, b: u8)
    ensures DecodeGroup(EncodeTail([a, b]), true) == Some([a, b])
  {
    var n := Group(a, b, 0);
    DigitReadBack(n / 0x4_0000 % 64);
    DigitReadBack(n / 0x1000 % 64);
    DigitReadBack(n / 64 % 64);
    GroupDigits(n);
    UnusedDigits(a, b);
    GroupBytes(a, b, 0);
    assert Bytes3(n)[..2] == [a, b];
  }

  lemma DecodeEncodedTail(data: Bytes)
    requires 1 <= |data| <= 2
    ensures DecodeGroup(EncodeTail(data), true) == Some(data)
  {
    if |data| == 1 {
      assert data == [data[0]];
      DecodeOneByte(data[0]);
    } else {
      assert data == [data[0], data[1]];
      DecodeTwoBytes(data[0], data[1]);
    }
  }

  lemma DecodeGroupFirst(group: string, rest: string)
    requires |group| == 4
    ensures var head, more := DecodeGroup(group, rest == ""), Decode(rest);
            Decode(group + rest) == if head.None? || more.None? then None else Some(head.value + more.value)
  {
    assert (group + rest)[..4] == group && (group + rest)[4..] == rest;
  }

  lemma DecodeShort(data: Bytes)
    requires 1 <= |data| <= 2
    ensures Decode(EncodeTail(data)) == Some(data)
  {
    var tail := EncodeTail(data);
    DecodeEncodedTail(data);
    DecodeGroupFirst(tail, "");
    assert tail + "" == tail;
    assert data + [] == data;
  }

  lemma DecodeLong(a: u8, b: u8, c: u8, rest: string, more: Bytes)
    requires Decode(rest) == Some(more)
    ensures Decode(EncodeGroup(Group(a, b, c)) + rest) == Some([a, b, c] + more)
  {
    DecodeEncodedGroup(a, b, c, rest == "");
    DecodeGroupFirst(EncodeGroup(Group(a, b, c)), rest);
  }

  /** Decoding by the standard gives back every byte string. */
  lemma {:induction false} DecodeInvertsEncode(data: Bytes)
    ensures Decode(Encode(data)) == Some(data)
    decreases |data|
  {
    if data == [] {
    } else if |data| < 3 {
      DecodeShort(data);
    } else {
      DecodeInvertsEncode(data[3..]);
      DecodeLong(data[0], data[1], data[2], Encode(data[3..]), data[3..]);
      assert [data[0], data[1], data[2]] + data[3..] == data;
    }
  }

  /** Four characters for every three bytes begun. */
  lemma {:induction false} EncodedLength(data: Bytes, groups: nat)
    requires 3 * groups - 2 <= |data| <= 3 * groups
    ensures |Encode(data)| == 4 * groups
    decreases |data|
  {
    if |data| >= 3 {
      EncodedLength(data[3..], groups - 1);
    }
  }

  /** The alphabet of section 4 of RFC 4648: capitals, small letters and decimal digits in
      their order, then plus and slash. */
  lemma AlphabetExactly(i: nat)
    requires i < 63
    ensures Digit(0) == 'A' && Digit(25) == 'Z' && Digit(26) == 'a' && Digit(51) == 'z'
    ensures Digit(52) == '0' && Digit(61) == '9' && Digit(62) == '+' && Digit(63) == '/'
    ensures i !in {25, 51, 61, 62} ==> Digit(i + 1) as int == Digit(i) as int + 1
  {
  }

  lemma LastDigit(n: nat, d: nat)
    requires d < 64
    ensures (n * 64 + d) / 64 == n && (n * 64 + d) % 64 == d
  {
  }

  lemma DivTwice64(n: nat)
    ensures n / 0x1000 == n / 64 / 64 && n / 0x4_0000 == n / 64 / 64 / 64
  {
  }

  lemma EncodedDigits(n: nat, a: nat, b: nat, c: nat, d: nat)
    requires a < 64 && b < 64 && c < 64 && d < 64 && n == a * 0x4_0000 + b * 0x1000 + c * 64 + d
    ensures EncodeGroup(n) == [Digit(a), Digit(b), Digit(c), Digit(d)]
  {
    LastDigit(a * 0x1000 + b * 64 + c, d);
    LastDigit(a * 64 + b, c);
    LastDigit(a, b);
    LastDigit(0, a);
    DivTwice64(n);
  }

  lemma EncodedFoo()
    ensures EncodeGroup(0x666F6F) == "Zm9v" && EncodeGroup(0x626172) == "YmFy"
  {
    EncodedDigits(0x666F6F, 25, 38, 61, 47);
    EncodedDigits(0x626172, 24, 38, 5, 50);
    assert Digit(25) == 'Z' && Digit(38) == 'm' && Digit(61) == '9' && Digit(47) == 'v';
    assert Digit(24) == 'Y' && Digit(5) == 'F' && Digit(50) == 'y';
  }

  lemma EncodedTails()
    ensures EncodeTail([0x66]) == "Zg==" && EncodeTail([0x66, 0x6F]) == "Zm8="
  {
  }

  lemma EncodedParts(a: u8, b: u8, c: u8, rest: Bytes)
    ensures Encode([a, b, c] + rest) == EncodeGroup(Group(a, b, c)) + Encode(rest)
  {
    assert ([a, b, c] + rest)[3..] == rest;
  }

  /** The test vectors of section 10 of RFC 4648 for "f", "fo", "foo" and "foobar". */
  lemma TestVectors()
    ensures Encode([0x66]) == "Zg==" && Encode([0x66, 0x6F]) == "Zm8="
    ensures Encode([0x66, 0x6F, 0x6F]) == "Zm9v"
    ensures Encode([0x66, 0x6F, 0x6F] + [0x62, 0x61, 0x72]) == "Zm9v" + "YmFy"
  {
    EncodedTails();
    EncodedFoo();
    EncodedParts(0x66, 0x6F, 0x6F, []);
    EncodedParts(0x62, 0x61, 0x72, []);
    EncodedParts(0x66, 0x6F, 0x6F, [0x62, 0x61, 0x72]);
    assert [0x66, 0x6F, 0x6F] + [] == [0x66, 0x6F, 0x6F] && [0x62, 0x61, 0x72] + [] == [0x62, 0x61, 0x72];
  }
}
