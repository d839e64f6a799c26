/** The RTP packet and its wire format, sections 5.1 and 5.3.1 of RFC 3550.
    The bit masks and shifts of the program are written as division and remainder
    by powers of two. */
module Rtp {
  import opened Common

  const FIXED_HEADER_BYTES := 12
  const VERSION := 2
  const MAX_CSRCS := 15

  datatype RtpPacket = RtpPacket(
    version: u8,
    padding: bool,
    extension: bool,
    marker: bool,
    payloadType: u8,
    sequenceNumber: u16,
    timestamp: u32,
    ssrc: u32,
    csrcs: seq<u32>,
    payload: seq<u8>)

  // ---- Big-endian integers ---------------------------------------------------

  function PutU16(v: u16): seq<u8> {
    [v / 0x100, v % 0x100]
  }

  function PutU32(v: u32): seq<u8> {
    PutU16(v / 0x1_0000) + PutU16(v % 0x1_0000)
  }

  function GetU16(data: seq<u8>, at: nat): u16
    requires at + 2 <= |data|
  {
    var high: int, low: int := data[at], data[at + 1];
    high * 0x100 + low
  }

  function GetU32(data: seq<u8>, at: nat): u32
    requires at + 4 <= |data|
  {
    var high: int, low: int := GetU16(data, at), GetU16(data, at + 2);
    high * 0x1_0000 + low
  }

  function PutAll(values: seq<u32>): (out: seq<u8>)
    ensures |out| == 4 * |values|
  {
    if values == [] then [] else PutAll(values[..|values| - 1]) + PutU32(values[|values| - 1])
  }

  function GetAll(data: seq<u8>, at: nat, n: nat): (values: seq<u32>)
    requires at + 4 * n <= |data|
    ensures |values| == n
  {
    if n == 0 then [] else GetAll(data, at, n - 1) + [GetU32(data, at + 4 * (n - 1))]
  }

  lemma GetPutU16(data: seq<u8>, at: nat, v: u16)
    requires at + 2 <= |data| && data[at..at + 2] == PutU16(v)
    ensures GetU16(data, at) == v
  {
    assert data[at] == data[at..at + 2][0] && data[at + 1] == data[at..at + 2][1];
  }

  lemma PutGetU16(data: seq<u8>, at: nat)
    requires at + 2 <= |data|
    ensures PutU16(GetU16(data, at)) == data[at..at + 2]
  {
  }

  lemma GetPutU32(data: seq<u8>, at: nat, v: u32)
    requires at + 4 <= |data| && data[at..at + 4] == PutU32(v)
    ensures GetU32(data, at) == v
  {
    assert data[at..at + 2] == data[at..at + 4][..2] == PutU16(v / 0x1_0000);
    assert data[at + 2..at + 4] == data[at..at + 4][2..] == PutU16(v % 0x1_0000);
    GetPutU16(data, at, v / 0x1_0000);
    GetPutU16(data, at + 2, v % 0x1_0000);
  }

  lemma PutGetU32(data: seq<u8>, at: nat)
    requires at + 4 <= |data|
    ensures PutU32(GetU32(data, at)) == data[at..at + 4]
  {
    var high, low := GetU16(data, at), GetU16(data, at + 2);
    assert GetU32(data, at) / 0x1_0000 == high && GetU32(data, at) % 0x1_0000 == low;
    PutGetU16(data, at);
    PutGetU16(data, at + 2);
    assert data[at..at + 4] == data[at..at + 2] + data[at + 2..at + 4];
  }

  lemma SliceWithin<T>(data: seq<T>, at: nat, s: seq<T>, i: nat, j: nat)
    requires at + |s| <= |data| && data[at..at + |s|] == s && i <= j <= |s|
    ensures data[at + i..at + j] == s[i..j]
  {
    var slice := data[at..at + |s|];
    assert forall k :: 0 <= k < |s| ==> slice[k] == data[at + k];
  }

  lemma {:induction false} GetPutAll(data: seq<u8>, at: nat, values: seq<u32>)
    requires at + 4 * |values| <= |data| && data[at..at + 4 * |values|] == PutAll(values)
    ensures GetAll(data, at, |values|) == values
  {
    if values != [] {
      var n := |values| - 1;
      var s := PutAll(values);
      SliceWithin(data, at, s, 0, 4 * n);
      SliceWithin(data, at, s, 4 * n, 4 * n + 4);
      assert s[..4 * n] == PutAll(values[..n]) && s[4 * n..] == PutU32(values[n]);
      GetPutAll(data, at, values[..n]);
      GetPutU32(data, at + 4 * n, values[n]);
    }
  }

  lemma {:induction false} GotAt(data: seq<u8>, at: nat, n: nat, k: nat)
    requires at + 4 * n <= |data| && k < n
    ensures GetAll(data, at, n)[k] == GetU32(data, at + 4 * k)
  {
    if k < n - 1 {
      GotAt(data, at, n - 1, k);
    }
  }

  lemma {:induction false} PutGot(data: seq<u8>, at: nat, values: seq<u32>)
    requires at + 4 * |values| <= |data|
    requires forall k :: 0 <= k < |values| ==> values[k] == GetU32(data, at + 4 * k)
    ensures PutAll(values) == data[at..at + 4 * |values|]
  {
    if values != [] {
      var n := |values| - 1;
      PutGot(data, at, values[..n]);
      PutGetU32(data, at + 4 * n);
      Adjacent(data, at, at + 4 * n, at + 4 * n + 4);
    }
  }

  lemma PutGetAll(data: seq<u8>, at: nat, n: nat)
    requires at + 4 * n <= |data|
    ensures PutAll(GetAll(data, at, n)) == data[at..at + 4 * n]
  {
    var values := GetAll(data, at, n);
    forall k | 0 <= k < n ensures values[k] == GetU32(data, at + 4 * k) {
      GotAt(data, at, n, k);
    }
    PutGot(data, at, values);
  }

  lemma Adjacent<T>(data: seq<T>, i: nat, j: nat, k: nat)
    requires i <= j <= k <= |data|
    ensures data[i..j] + data[j..k] == data[i..k]
  {
  }

  // ---- The first two bytes ----------------------------------------------------

  /** The fields packed in the first byte: V(2) P(1) X(1) CC(4). */
  function FirstByte(version: u8, padding: bool, extension: bool, cc: nat): u8
    requires cc <= MAX_CSRCS
  {
    version % 4 * 64 + (if padding then 32 else 0) + (if extension then 16 else 0) + cc
  }

  function VersionBits(b0: u8): u8 { b0 / 64 }

  predicate PaddingBit(b0: u8) { b0 / 32 % 2 == 1 }

  predicate ExtensionBit(b0: u8) { b0 / 16 % 2 == 1 }

  function CsrcCount(b0: u8): (cc: nat) ensures cc <= MAX_CSRCS { b0 % 16 }

  lemma FirstByteFields(version: u8, padding: bool, extension: bool, cc: nat)
    requires cc <= MAX_CSRCS
    ensures var b0 := FirstByte(version, padding, extension, cc);
            VersionBits(b0) == version % 4 && PaddingBit(b0) == padding
            && ExtensionBit(b0) == extension && CsrcCount(b0) == cc
  {
  }

  lemma FirstByteRestored(b0: u8)
    ensures FirstByte(VersionBits(b0), PaddingBit(b0), ExtensionBit(b0), CsrcCount(b0)) == b0
  {
  }

  /** The second byte: M(1) PT(7). */
  function SecondByte(marker: bool, payloadType: u8): u8 {
    payloadType % 128 + (if marker then 128 else 0)
  }

  predicate MarkerBit(b1: u8) { b1 / 128 == 1 }

  function TypeBits(b1: u8): (pt: u8) ensures pt < 128 { b1 % 128 }

  lemma SecondByteFields(marker: bool, payloadType: u8)
    ensures MarkerBit(SecondByte(marker, payloadType)) == marker
    ensures TypeBits(SecondByte(marker, payloadType)) == payloadType % 128
  {
  }

  lemma SecondByteRestored(b1: u8)
    ensures SecondByte(MarkerBit(b1), TypeBits(b1)) == b1
  {
  }

  // ---- What the program writes -----------------------------------------------

  function FixedHeader(p: RtpPacket, cc: nat): (out: seq<u8>)
    requires cc <= MAX_CSRCS
    ensures |out| == FIXED_HEADER_BYTES
  {
    [FirstByte(p.version, p.padding, p.extension, cc), SecondByte(p.marker, p.payloadType)]
    + PutU16(p.sequenceNumber) + PutU32(p.timestamp) + PutU32(p.ssrc)
  }

  /** The datagram `serialize` builds: at most fifteen CSRCs, the P and X bits as set,
      but neither an extension body nor padding. */
  function Datagram(p: RtpPacket): seq<u8> {
    var cc := Min(|p.csrcs|, MAX_CSRCS);
    FixedHeader(p, cc) + PutAll(p.csrcs[..cc]) + p.payload
  }

  method FirstBytes(p: RtpPacket, cc: nat) returns (out: seq<u8>)
    requires cc <= MAX_CSRCS
    ensures out == FixedHeader(p, cc)
  {
    out := [];
    var b0: int := p.version % 4 * 64;
    if p.padding { b0 := b0 + 32; }
    if p.extension { b0 := b0 + 16; }
    b0 := b0 + cc % 16;
    out := out + [b0];
    var b1: int := p.payloadType % 128;
    if p.marker { b1 := b1 + 128; }
    out := out + [b1];
    out := out + PutU16(p.sequenceNumber);
    out := out + PutU32(p.timestamp);
    out := out + PutU32(p.ssrc);
  }

  method Serialize(p: RtpPacket) returns (out: seq<u8>)
    ensures out == Datagram(p)
  {
    var cc := if |p.csrcs| > 15 then 15 else |p.csrcs|;
    out := FirstBytes(p, cc);
    for i := 0 to cc
      invariant out == FixedHeader(p, cc) + PutAll(p.csrcs[..i])
    {
      assert p.csrcs[..i + 1][..i] == p.csrcs[..i];
      out := out + PutU32(p.csrcs[i]);
    }
    out := out + p.payload;
  }

  // ---- What the program reads -------------------------------------------------

  /** Offset just past the CSRC list and the header extension, if the input is long
      enough to hold them. */
  function PayloadOffset(data: seq<u8>, cc: nat, extension: bool): (offset: Option<nat>)
    ensures offset.Some? ==> FIXED_HEADER_BYTES + 4 * cc <= offset.value <= |data|
  {
    var offset := FIXED_HEADER_BYTES + 4 * cc;
    if |data| < offset then None
    else if !extension then Some(offset)
    else if |data| < offset + 4 then None
    else
      var words: int := GetU16(data, offset + 2);
      if |data| < offset + 4 + words * 4 then None else Some(offset + 4 + words * 4)
  }

  /** Number of padding octets, the last of which holds the count itself. */
  function PaddingBytes(data: seq<u8>, offset: nat, padding: bool): (pad: Option<nat>)
    requires offset <= |data|
    ensures pad.Some? ==> offset + pad.value <= |data|
  {
    if !padding then Some(0)
    else if |data| <= offset then None
    else
      var pad := data[|data| - 1];
      if pad == 0 || pad > |data| - offset then None else Some(pad)
  }

  /** The packet that a datagram carries, or the protocol error. */
  function Decode(data: seq<u8>): Result<RtpPacket> {
    if |data| < FIXED_HEADER_BYTES || VersionBits(data[0]) != VERSION then Err(Protocol)
    else
      var cc, padding, extension := CsrcCount(data[0]), PaddingBit(data[0]), ExtensionBit(data[0]);
      var offset := PayloadOffset(data, cc, extension);
      if offset == None then Err(Protocol) else
      var pad := PaddingBytes(data, offset.value, padding);
      if pad == None then Err(Protocol) else
      Ok(RtpPacket(VERSION, padding, extension, MarkerBit(data[1]), TypeBits(data[1]),
                   GetU16(data, 2), GetU32(data, 4), GetU32(data, 8),
                   GetAll(data, FIXED_HEADER_BYTES, cc), data[offset.value..|data| - pad.value]))
  }

  method ReadCsrcs(data: seq<u8>, cc: nat) returns (csrcs: seq<u32>, offset: nat)
    requires FIXED_HEADER_BYTES + 4 * cc <= |data|
    ensures csrcs == GetAll(data, FIXED_HEADER_BYTES, cc) && offset == FIXED_HEADER_BYTES + 4 * cc
  {
    csrcs, offset := [], FIXED_HEADER_BYTES;
    for i := 0 to cc
      invariant offset == FIXED_HEADER_BYTES + 4 * i
      invariant csrcs == GetAll(data, FIXED_HEADER_BYTES, i)
    {
      csrcs := csrcs + [GetU32(data, offset)];
      offset := offset + 4;
    }
  }

  method Parse(data: seq<u8>) returns (r: Result<RtpPacket>)
    ensures r == Decode(data)
  {
    var len := |data|;
    if len < FIXED_HEADER_BYTES { return Err(Protocol); }
    var b0 := data[0];
    var version := VersionBits(b0);
    if version != VERSION { return Err(Protocol); }
    var padding, extension, cc := PaddingBit(b0), ExtensionBit(b0), CsrcCount(b0);
    var b1 := data[1];
    var marker, payloadType := MarkerBit(b1), TypeBits(b1);
    var sequenceNumber := GetU16(data, 2);
    var timestamp, ssrc := GetU32(data, 4), GetU32(data, 8);

    var offset := FIXED_HEADER_BYTES;
    if len < offset + cc * 4 { return Err(Protocol); }
    var csrcs: seq<u32>;
    csrcs, offset := ReadCsrcs(data, cc);

    if extension {
      if len < offset + 4 { return Err(Protocol); }
      var words: int := GetU16(data, offset + 2);
      offset := offset + 4 + words * 4;
      if len < offset { return Err(Protocol); }
    }

    var end := len;
    if padding {
      if end <= offset { return Err(Protocol); }
      var pad := data[len - 1];
      if pad == 0 || pad > end - offset { return Err(Protocol); }
      end := end - pad;
    }
    return Ok(RtpPacket(version, padding, extension, marker, payloadType,
                        sequenceNumber, timestamp, ssrc, csrcs, data[offset..end]));
  }

  // ---- The standard's full format ---------------------------------------------

  /** A header extension: a 16-bit profile and a body of whole 32-bit words. */
  datatype Extension = Extension(profile: u16, body: seq<u8>)

  ghost predicate ValidExtension(e: Extension) {
    |e.body| % 4 == 0 && |e.body| / 4 < 0x1_0000
  }

  ghost predicate Encodable(p: RtpPacket) {
    p.version == VERSION && p.payloadType < 128 && |p.csrcs| <= MAX_CSRCS
  }

  ghost function ExtensionBytes(present: bool, e: Extension): seq<u8>
    requires ValidExtension(e)
  {
    if present then PutU16(e.profile) + PutU16(|e.body| / 4) + e.body else []
  }

  ghost function PaddingTail(present: bool, fill: seq<u8>): seq<u8>
    requires |fill| < 255
  {
    if present then fill + [|fill| + 1] else []
  }

  ghost function Assemble(header: seq<u8>, p: RtpPacket, e: Extension, fill: seq<u8>): seq<u8>
    requires ValidExtension(e) && |fill| < 255
  {
    header + PutAll(p.csrcs) + ExtensionBytes(p.extension, e) + p.payload + PaddingTail(p.padding, fill)
  }

  /** The datagram of section 5.1 of RFC 3550, with extension body and padding. */
  ghost function FullEncode(p: RtpPacket, e: Extension, fill: seq<u8>): seq<u8>
    requires Encodable(p) && ValidExtension(e) && |fill| < 255
  {
    Assemble(FixedHeader(p, |p.csrcs|), p, e, fill)
  }

  /** What the parser reads back from any fixed header. */
  lemma HeaderReadBack(p: RtpPacket, cc: nat, rest: seq<u8>)
    requires cc <= MAX_CSRCS
    ensures var data := FixedHeader(p, cc) + rest;
            && VersionBits(data[0]) == p.version % 4
            && PaddingBit(data[0]) == p.padding
            && ExtensionBit(data[0]) == p.extension
            && CsrcCount(data[0]) == cc
            && MarkerBit(data[1]) == p.marker
            && TypeBits(data[1]) == p.payloadType % 128
            && GetU16(data, 2) == p.sequenceNumber
            && GetU32(data, 4) == p.timestamp
            && GetU32(data, 8) == p.ssrc
  {
    var data := FixedHeader(p, cc) + rest;
    FirstByteFields(p.version, p.padding, p.extension, cc);
    SecondByteFields(p.marker, p.payloadType);
    assert data[2..4] == PutU16(p.sequenceNumber);
    assert data[4..8] == PutU32(p.timestamp);
    assert data[8..12] == PutU32(p.ssrc);
    GetPutU16(data, 2, p.sequenceNumber);
    GetPutU32(data, 4, p.timestamp);
    GetPutU32(data, 8, p.ssrc);
  }

  lemma HeaderRestored(data: seq<u8>)
    requires Decode(data).Ok?
    ensures FixedHeader(Decode(data).value, CsrcCount(data[0])) == data[..12]
  {
    FirstByteRestored(data[0]);
    SecondByteRestored(data[1]);
    PutGetU16(data, 2);
    PutGetU32(data, 4);
    PutGetU32(data, 8);
    assert data[..12] == [data[0], data[1]] + data[2..4] + data[4..8] + data[8..12];
  }

  lemma OffsetReadBack(data: seq<u8>, cc: nat, extension: bool, e: Extension)
    requires ValidExtension(e)
    requires var at := 12 + 4 * cc; var ext := ExtensionBytes(extension, e);
             at + |ext| <= |data| && data[at..at + |ext|] == ext
    ensures PayloadOffset(data, cc, extension) == Some(12 + 4 * cc + |ExtensionBytes(extension, e)|)
  {
    var at, ext := 12 + 4 * cc, ExtensionBytes(extension, e);
    if extension {
      var words := |e.body| / 4;
      assert ext[2..4] == PutU16(words);
      SliceWithin(data, at, ext, 2, 4);
      GetPutU16(data, at + 2, words);
    }
  }

  lemma PaddingReadBack(data: seq<u8>, offset: nat, padding: bool, fill: seq<u8>)
    requires |fill| < 255
    requires var tail := PaddingTail(padding, fill);
             offset + |tail| <= |data| && data[|data| - |tail|..] == tail
    ensures PaddingBytes(data, offset, padding) == Some(|PaddingTail(padding, fill)|)
  {
    var tail := PaddingTail(padding, fill);
    if padding {
      assert data[|data| - 1] == data[|data| - |tail|..][|fill|];
    }
  }

  lemma PartsOf<T>(a: seq<T>, b: seq<T>, c: seq<T>, d: seq<T>, e: seq<T>)
    ensures var s, i, j, k := a + b + c + d + e, |a| + |b|, |a| + |b| + |c|, |a| + |b| + |c| + |d|;
            s[|a|..i] == b && s[i..j] == c && s[j..k] == d && s[k..] == e && s == a + (b + c + d + e)
  {
  }

  lemma JoinParts<T>(s: seq<T>, a: seq<T>, h: nat, b: seq<T>, i: nat, c: seq<T>, j: nat, d: seq<T>, k: nat, e: seq<T>)
    requires h <= i <= j <= k <= |s|
    requires a == s[..h] && b == s[h..i] && c == s[i..j] && d == s[j..k] && e == s[k..]
    ensures s == a + b + c + d + e
  {
  }

  /** Everything before the payload that the parser reads, as a packet describes it. */
  ghost predicate HeaderMatches(data: seq<u8>, p: RtpPacket) {
    && |data| >= FIXED_HEADER_BYTES
    && VersionBits(data[0]) == p.version
    && PaddingBit(data[0]) == p.padding
    && ExtensionBit(data[0]) == p.extension
    && CsrcCount(data[0]) == |p.csrcs|
    && MarkerBit(data[1]) == p.marker
    && TypeBits(data[1]) == p.payloadType
    && GetU16(data, 2) == p.sequenceNumber
    && GetU32(data, 4) == p.timestamp
    && GetU32(data, 8) == p.ssrc
  }

  lemma HeaderMatchesEncoding(p: RtpPacket, rest: seq<u8>)
    requires Encodable(p)
    ensures HeaderMatches(FixedHeader(p, |p.csrcs|) + rest, p)
  {
    HeaderReadBack(p, |p.csrcs|, rest);
  }

  lemma HeaderMatchesExtended(header: seq<u8>, rest: seq<u8>, p: RtpPacket)
    requires |header| == 12 && HeaderMatches(header, p)
    ensures HeaderMatches(header + rest, p)
  {
  }

  lemma DecodeAssembled(data: seq<u8>, p: RtpPacket, offset: nat, pad: nat)
    requires Encodable(p) && HeaderMatches(data, p)
    requires PayloadOffset(data, |p.csrcs|, p.extension) == Some(offset)
    requires PaddingBytes(data, offset, p.padding) == Some(pad)
    requires GetAll(data, 12, |p.csrcs|) == p.csrcs
    requires data[offset..|data| - pad] == p.payload
    ensures Decode(data) == Ok(p)
  {
  }

  /** The bytes after the fixed header are these parts, one after the other. */
  ghost predicate HasParts(data: seq<u8>, csrcs: seq<u8>, ext: seq<u8>, payload: seq<u8>, tail: seq<u8>) {
    var at := 12 + |csrcs|;
    && |data| == at + |ext| + |payload| + |tail|
    && data[12..at] == csrcs
    && data[at..at + |ext|] == ext
    && data[at + |ext|..|data| - |tail|] == payload
    && data[|data| - |tail|..] == tail
  }

  lemma AssembledParts(header: seq<u8>, p: RtpPacket, e: Extension, fill: seq<u8>)
    requires ValidExtension(e) && |fill| < 255
    requires |header| == 12 && HeaderMatches(header, p)
    ensures var data := Assemble(header, p, e, fill);
            && HeaderMatches(data, p)
            && HasParts(
                 data, PutAll(p.csrcs), ExtensionBytes(p.extension, e), p.payload, PaddingTail(p.padding, fill))
  {
    var csrcs, ext, tail := PutAll(p.csrcs), ExtensionBytes(p.extension, e), PaddingTail(p.padding, fill);
    PartsOf(header, csrcs, ext, p.payload, tail);
    HeaderMatchesExtended(header, csrcs + ext + p.payload + tail, p);
  }

  /** What each step of the parser reads from such bytes: the contributors and where the
      payload begins, then how much padding follows it. */
  lemma HeadRead(data: seq<u8>, p: RtpPacket, e: Extension, tail: seq<u8>)
    requires ValidExtension(e)
    requires HasParts(data, PutAll(p.csrcs), ExtensionBytes(p.extension, e), p.payload, tail)
    ensures GetAll(data, 12, |p.csrcs|) == p.csrcs
    ensures PayloadOffset(data, |p.csrcs|, p.extension) == Some(12 + 4 * |p.csrcs| + |ExtensionBytes(p.extension, e)|)
  {
    GetPutAll(data, 12, p.csrcs);
    var ext := ExtensionBytes(p.extension, e);
    assert PayloadOffset(data, |p.csrcs|, p.extension) == Some(12 + 4 * |p.csrcs| + |ext|) by {
      OffsetReadBack(data, |p.csrcs|, p.extension, e);
    }
  }

  lemma PartsRead(data: seq<u8>, p: RtpPacket, e: Extension, fill: seq<u8>) returns (offset: nat, pad: nat)
    requires ValidExtension(e) && |fill| < 255
    requires HasParts(data, PutAll(p.csrcs), ExtensionBytes(p.extension, e), p.payload, PaddingTail(p.padding, fill))
    ensures && 12 + 4 * |p.csrcs| <= offset <= |data| - pad
            && GetAll(data, 12, |p.csrcs|) == p.csrcs
            && PayloadOffset(data, |p.csrcs|, p.extension) == Some(offset)
            && PaddingBytes(data, offset, p.padding) == Some(pad)
            && data[offset..|data| - pad] == p.payload
  {
    HeadRead(data, p, e, PaddingTail(p.padding, fill));
    offset, pad := 12 + 4 * |p.csrcs| + |ExtensionBytes(p.extension, e)|, |PaddingTail(p.padding, fill)|;
    PaddingReadBack(data, offset, p.padding, fill);
  }

  lemma DecodeInvertsAssemble(header: seq<u8>, p: RtpPacket, e: Extension, fill: seq<u8>)
    requires Encodable(p) && ValidExtension(e) && |fill| < 255
    requires |header| == 12 && HeaderMatches(header, p)
    ensures Decode(Assemble(header, p, e, fill)) == Ok(p)
  {
    var data := Assemble(header, p, e, fill);
    AssembledParts(header, p, e, fill);
    var offset, pad := PartsRead(data, p, e, fill);
    DecodeAssembled(data, p, offset, pad);
  }

  /** The parser inverts the full encoder, extension body and padding included. */
  lemma DecodeInvertsFullEncode(p: RtpPacket, e: Extension, fill: seq<u8>)
    requires Encodable(p) && ValidExtension(e) && |fill| < 255
    ensures Decode(FullEncode(p, e, fill)) == Ok(p)
  {
    var header := FixedHeader(p, |p.csrcs|);
    HeaderMatchesEncoding(p, []);
    assert header + [] == header;
    DecodeInvertsAssemble(header, p, e, fill);
  }

  /** The extension and the padding fill that an accepted datagram carries. */
  ghost function ExtensionOf(data: seq<u8>): Extension
    requires Decode(data).Ok?
  {
    var at := FIXED_HEADER_BYTES + 4 * CsrcCount(data[0]);
    if !ExtensionBit(data[0]) then Extension(0, [])
    else Extension(GetU16(data, at), data[at + 4..PayloadOffset(data, CsrcCount(data[0]), true).value])
  }

  ghost function FillOf(data: seq<u8>): seq<u8>
    requires Decode(data).Ok?
  {
    if !PaddingBit(data[0]) then [] else data[|data| - data[|data| - 1]..|data| - 1]
  }

  lemma ExtensionRestored(data: seq<u8>)
    requires Decode(data).Ok?
    ensures var cc, extension := CsrcCount(data[0]), ExtensionBit(data[0]);
            ValidExtension(ExtensionOf(data)) &&
            ExtensionBytes(extension, ExtensionOf(data)) == data[12 + 4 * cc..PayloadOffset(data, cc, extension).value]
  {
    var at := 12 + 4 * CsrcCount(data[0]);
    if ExtensionBit(data[0]) {
      var past := PayloadOffset(data, CsrcCount(data[0]), true).value;
      PutGetU16(data, at);
      PutGetU16(data, at + 2);
      assert |ExtensionOf(data).body| == 4 * GetU16(data, at + 2);
      assert data[at..past] == data[at..at + 2] + data[at + 2..at + 4] + data[at + 4..past];
    }
  }

  lemma PaddingRestored(data: seq<u8>, offset: nat)
    requires Decode(data).Ok? && offset <= |data|
    requires PaddingBytes(data, offset, PaddingBit(data[0])).Some?
    ensures |FillOf(data)| < 255
    ensures PaddingTail(PaddingBit(data[0]), FillOf(data))
         == data[|data| - PaddingBytes(data, offset, PaddingBit(data[0])).value..]
  {
  }

  lemma AcceptedFields(data: seq<u8>)
    requires Decode(data).Ok?
    ensures var p, cc := Decode(data).value, CsrcCount(data[0]);
            var at, past := 12 + 4 * cc, PayloadOffset(data, cc, p.extension).value;
            var pad := PaddingBytes(data, past, p.padding);
            && pad.Some? && at <= past <= |data| - pad.value
            && p.csrcs == GetAll(data, 12, cc)
            && p.payload == data[past..|data| - pad.value]
            && p.extension == ExtensionBit(data[0]) && p.padding == PaddingBit(data[0])
  {
  }

  lemma AssembleFrom(data: seq<u8>, p: RtpPacket, e: Extension, fill: seq<u8>, at: nat, past: nat, end: nat)
    requires 12 <= at <= past <= end <= |data|
    requires ValidExtension(e) && |fill| < 255
    requires PutAll(p.csrcs) == data[12..at] && ExtensionBytes(p.extension, e) == data[at..past]
    requires p.payload == data[past..end] && PaddingTail(p.padding, fill) == data[end..]
    ensures data == Assemble(data[..12], p, e, fill)
  {
    JoinParts(data, data[..12], 12, data[12..at], at, data[at..past], past, data[past..end], end, data[end..]);
  }

  /** Where the parser found the parts of an accepted datagram. */
  lemma AcceptedParts(data: seq<u8>) returns (at: nat, past: nat, end: nat)
    requires Decode(data).Ok?
    ensures var p := Decode(data).value;
            && 12 <= at <= past <= end <= |data|
            && ValidExtension(ExtensionOf(data)) && |FillOf(data)| < 255
            && PutAll(p.csrcs) == data[12..at]
            && ExtensionBytes(p.extension, ExtensionOf(data)) == data[at..past]
            && p.payload == data[past..end]
            && PaddingTail(p.padding, FillOf(data)) == data[end..]
  {
    var p, cc := Decode(data).value, CsrcCount(data[0]);
    at, past := 12 + 4 * cc, PayloadOffset(data, cc, p.extension).value;
    end := |data| - PaddingBytes(data, past, p.padding).value;
    AcceptedFields(data);
    assert PutAll(p.csrcs) == data[12..at] by { PutGetAll(data, 12, cc); }
    ExtensionRestored(data);
    PaddingRestored(data, past);
  }

  lemma AcceptedAssembles(data: seq<u8>)
    requires Decode(data).Ok?
    ensures ValidExtension(ExtensionOf(data)) && |FillOf(data)| < 255
    ensures data == Assemble(data[..12], Decode(data).value, ExtensionOf(data), FillOf(data))
  {
    var at, past, end := AcceptedParts(data);
    AssembleFrom(data, Decode(data).value, ExtensionOf(data), FillOf(data), at, past, end);
  }

  /** The parser accepts nothing but the full format: every accepted datagram is the
      full encoding of the packet it returns. */
  lemma AcceptedIsFullEncoding(data: seq<u8>)
    requires Decode(data).Ok?
    ensures var p, e, fill := Decode(data).value, ExtensionOf(data), FillOf(data);
            Encodable(p) && ValidExtension(e) && |fill| < 255 && data == FullEncode(p, e, fill)
  {
    HeaderRestored(data);
    AcceptedAssembles(data);
  }

  // ---- The exact round trip of the program's own writer ------------------------

  lemma PlainRoundTrip(p: RtpPacket)
    requires Encodable(p) && !p.padding && !p.extension
    ensures Decode(Datagram(p)) == Ok(p)
  {
    var none := Extension(0, []);
    DecodeInvertsFullEncode(p, none, []);
    assert p.csrcs[..|p.csrcs|] == p.csrcs;
    assert Datagram(p) == FullEncode(p, none, []);
  }

  /** What the peer reads of a packet of the right version without P, X and contributors:
      the packet itself, but for a payload type that does not fit its seven bits. */
  lemma PlainIsRead(p: RtpPacket)
    requires p.version == VERSION && !p.padding && !p.extension && p.csrcs == []
    ensures Decode(Datagram(p)) == Ok(p.(payloadType := p.payloadType % 128))
  {
    var q := p.(payloadType := p.payloadType % 128);
    PlainRoundTrip(q);
    assert p.csrcs[..0] == q.csrcs[..0];
    assert FixedHeader(p, 0) == FixedHeader(q, 0);
    assert Datagram(p) == Datagram(q);
  }

  /** Which packets survive `parse(serialize(p))`: exactly those whose header fields
      fit and which set neither the P nor the X bit. */
  lemma SerializeRoundTripExactly(p: RtpPacket)
    ensures Decode(Datagram(p)) == Ok(p) <==> Encodable(p) && !p.padding && !p.extension
  {
    if Encodable(p) && !p.padding && !p.extension {
      PlainRoundTrip(p);
    } else {
      var cc := Min(|p.csrcs|, MAX_CSRCS);
      var rest := PutAll(p.csrcs[..cc]) + p.payload;
      assert Datagram(p) == FixedHeader(p, cc) + rest;
      HeaderReadBack(p, cc, rest);
    }
  }

  /** Re-serializing a parsed datagram without extension and padding restores it. */
  lemma ParseThenSerialize(data: seq<u8>)
    requires Decode(data).Ok?
    requires !Decode(data).value.padding && !Decode(data).value.extension
    ensures Datagram(Decode(data).value) == data
  {
    AcceptedIsFullEncoding(data);
    var p := Decode(data).value;
    assert p.csrcs[..|p.csrcs|] == p.csrcs;
  }

  // ---- The format byte by byte -------------------------------------------------

  /** A number of four bytes, highest first. */
  predicate IsWord(data: seq<u8>, at: nat, v: u32)
    requires at + 4 <= |data|
  {
    var b0: int, b1: int, b2: int, b3: int := data[at], data[at + 1], data[at + 2], data[at + 3];
    b0 * 0x100_0000 + b1 * 0x1_0000 + b2 * 0x100 + b3 == v
  }

  predicate IsHalf(data: seq<u8>, at: nat, v: u16)
    requires at + 2 <= |data|
  {
    var high: int, low: int := data[at], data[at + 1];
    high * 0x100 + low == v
  }

  lemma WordIs(data: seq<u8>, at: nat, v: u32)
    requires at + 4 <= |data| && data[at..at + 4] == PutU32(v)
    ensures IsWord(data, at, v)
  {
    GetPutU32(data, at, v);
    assert GetU32(data, at) == v;
  }

  lemma HalfIs(data: seq<u8>, at: nat, v: u16)
    requires at + 2 <= |data| && data[at..at + 2] == PutU16(v)
    ensures IsHalf(data, at, v)
  {
    GetPutU16(data, at, v);
  }

  lemma {:induction false} WordOfAll(values: seq<u32>, k: nat)
    requires k < |values|
    ensures PutAll(values)[4 * k..4 * k + 4] == PutU32(values[k])
  {
    var n := |values| - 1;
    var front := PutAll(values[..n]);
    if k < n {
      WordOfAll(values[..n], k);
      assert PutAll(values)[4 * k..4 * k + 4] == front[4 * k..4 * k + 4];
    }
  }

  /** Figure 1 of RFC 3550: where the writer puts each field of the fixed header, whatever
      follows it. */
  lemma HeaderLayout(p: RtpPacket, cc: nat, rest: seq<u8>)
    requires cc <= 15
    ensures var d := FixedHeader(p, cc) + rest;
            && d[0] == p.version % 4 * 64 + (if p.padding then 32 else 0) + (if p.extension then 16 else 0) + cc
            && d[1] == (if p.marker then 128 else 0) + p.payloadType % 128
            && IsHalf(d, 2, p.sequenceNumber) && IsWord(d, 4, p.timestamp) && IsWord(d, 8, p.ssrc)
  {
    var d := FixedHeader(p, cc) + rest;
    assert d[2..4] == PutU16(p.sequenceNumber);
    assert d[4..8] == PutU32(p.timestamp);
    assert d[8..12] == PutU32(p.ssrc);
    HalfIs(d, 2, p.sequenceNumber);
    WordIs(d, 4, p.timestamp);
    WordIs(d, 8, p.ssrc);
  }

  /** The datagram written: after the fixed header the first fifteen contributors, then the
      payload. */
  lemma DatagramLayout(p: RtpPacket, k: nat)
    ensures var d, cc := Datagram(p), if |p.csrcs| < 15 then |p.csrcs| else 15;
            && |d| == 12 + 4 * cc + |p.payload|
            && (k < cc ==> IsWord(d, 12 + 4 * k, p.csrcs[k]))
            && d[12 + 4 * cc..] == p.payload
  {
    var d, cc := Datagram(p), Min(|p.csrcs|, MAX_CSRCS);
    var values := p.csrcs[..cc];
    if k < cc {
      WordOfAll(values, k);
      assert d[12..12 + 4 * cc] == PutAll(values);
      SliceWithin(d, 12, PutAll(values), 4 * k, 4 * k + 4);
      WordIs(d, 12 + 4 * k, p.csrcs[k]);
    }
  }

  /** Section 5.3.1 of RFC 3550, and the padding of section 5.1: where the full format keeps
      the profile, the number of words, the body and the count of padding octets. */
  lemma FullLayout(p: RtpPacket, e: Extension, fill: seq<u8>)
    requires Encodable(p) && ValidExtension(e) && |fill| < 255
    ensures var d, at := FullEncode(p, e, fill), 12 + 4 * |p.csrcs|;
            var past := at + if p.extension then 4 + |e.body| else 0;
            && (p.extension ==> |d| >= past && IsHalf(d, at, e.profile) && IsHalf(d, at + 2, |e.body| / 4)
                                && d[at + 4..past] == e.body)
            && |d| == past + |p.payload| + (if p.padding then |fill| + 1 else 0)
            && d[past..past + |p.payload|] == p.payload
            && (p.padding ==> d[|d| - 1] == |fill| + 1)
  {
    var header, csrcs, ext := FixedHeader(p, |p.csrcs|), PutAll(p.csrcs), ExtensionBytes(p.extension, e);
    var tail := PaddingTail(p.padding, fill);
    var d, at := FullEncode(p, e, fill), 12 + 4 * |p.csrcs|;
    PartsOf(header, csrcs, ext, p.payload, tail);
    assert |header + csrcs| == at && |d| == at + |ext| + |p.payload| + |tail|;
    assert d[at..at + |ext|] == ext && d[|d| - |tail|..] == tail;
    if p.extension {
      ExtensionLayout(d, at, e);
    }
    if p.padding {
      LastOfTail(d, tail);
    }
  }

  lemma ExtensionLayout(d: seq<u8>, at: nat, e: Extension)
    requires ValidExtension(e) && at + 4 + |e.body| <= |d|
    requires d[at..at + 4 + |e.body|] == ExtensionBytes(true, e)
    ensures IsHalf(d, at, e.profile) && IsHalf(d, at + 2, |e.body| / 4) && d[at + 4..at + 4 + |e.body|] == e.body
  {
    var ext := ExtensionBytes(true, e);
    assert ext[..2] == PutU16(e.profile) && ext[2..4] == PutU16(|e.body| / 4) && ext[4..] == e.body;
    SliceWithin(d, at, ext, 0, 2);
    SliceWithin(d, at, ext, 2, 4);
    SliceWithin(d, at, ext, 4, |ext|);
    HalfIs(d, at, e.profile);
    HalfIs(d, at + 2, |e.body| / 4);
  }

  lemma LastOfTail(d: seq<u8>, tail: seq<u8>)
    requires 0 < |tail| <= |d| && d[|d| - |tail|..] == tail
    ensures d[|d| - 1] == tail[|tail| - 1]
  {
    assert d[|d| - 1] == d[|d| - |tail|..][|tail| - 1];
  }
}
