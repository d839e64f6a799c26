/** WebSocket framing as the signaling client does it: sections 5.2 and 5.3 of RFC 6455.
    Reading from the socket is taking bytes from a sequence; random masks are inputs. */
module WebSocket {
  import opened Common
  import opened Bits
  import opened ByteOrder

  const MAX_SIZE := 0x1_0000_0000_0000_0000

  const TEXT: u8 := 1
  const CLOSE: u8 := 8
  const PING: u8 := 9
  const PONG: u8 := 10

  // ---- Masking -----------------------------------------------------------------------

  function Masked(data: Bytes, mask: Bytes): (out: Bytes)
    requires |mask| == 4
    ensures |out| == |data|
  {
    if data == [] then []
    else
      var n := |data| - 1;
      Masked(data[..n], mask) + [Xor8(data[n], mask[n % 4])]
  }

  lemma {:induction false} MaskedTwice(data: Bytes, mask: Bytes)
    requires |mask| == 4
    ensures Masked(Masked(data, mask), mask) == data
  {
    if data != [] {
      var n := |data| - 1;
      var out := Masked(data, mask);
      assert out[..n] == Masked(data[..n], mask);
      MaskedTwice(data[..n], mask);
      XorTwice(data[n], mask[n % 4]);
    }
  }

  // ---- Lengths -------------------------------------------------------------------------

  /** The low seven bits of the second header byte. */
  function ShortLength(len: nat): (n: nat)
    ensures n < 0x80
  {
    if len < 126 then len else if len <= 0xFFFF then 126 else 127
  }

  function ExtendedLength(len: nat): Bytes {
    if len < 126 then [] else if len <= 0xFFFF then BigEndian(len, 2) else BigEndian(len, 8)
  }

  /** Bytes of extended length that a short length announces. */
  function ExtendedSize(short: nat): nat {
    if short == 126 then 2 else if short == 127 then 8 else 0
  }

  lemma LengthRoundTrip(len: nat)
    requires len < MAX_SIZE
    ensures |ExtendedLength(len)| == ExtendedSize(ShortLength(len))
    ensures (if ExtendedLength(len) == [] then ShortLength(len) else Value(ExtendedLength(len))) == len
  {
    assert Power(2) == 0x1_0000;
    assert Power(8) == MAX_SIZE by {
      assert Power(4) == 0x1_0000_0000;
    }
    if 126 <= len <= 0xFFFF {
      ValueOfBigEndian(len, 2);
    } else if len > 0xFFFF {
      ValueOfBigEndian(len, 8);
    }
  }

  // ---- Frames ---------------------------------------------------------------------------

  datatype Frame = Frame(fin: bool, opcode: u8, mask: Option<Bytes>, payload: Bytes)

  ghost predicate ValidFrame(f: Frame) {
    && f.opcode < 16 && |f.payload| < MAX_SIZE
    && (f.mask.Some? ==> |f.mask.value| == 4)
  }

  function FirstByte(f: Frame): u8
    requires f.opcode < 16
  {
    (if f.fin then 0x80 else 0) + f.opcode
  }

  function SecondByte(masked: bool, short: nat): u8
    requires short < 0x80
  {
    (if masked then 0x80 else 0) + short
  }

  function MaskBytes(mask: Option<Bytes>): Bytes {
    if mask.Some? then mask.value else []
  }

  function Covered(mask: Option<Bytes>, payload: Bytes): (out: Bytes)
    requires mask.Some? ==> |mask.value| == 4
    ensures |out| == |payload|
  {
    if mask.Some? then Masked(payload, mask.value) else payload
  }

  /** A frame on the wire, in its shortest form. */
  function Encode(f: Frame): Bytes
    requires ValidFrame(f)
  {
    var len := |f.payload|;
    [FirstByte(f), SecondByte(f.mask.Some?, ShortLength(len))]
    + (ExtendedLength(len) + (MaskBytes(f.mask) + Covered(f.mask, f.payload)))
  }

  /** The frame that a client sends for a text. */
  method TextFrame(text: Bytes, mask: Bytes) returns (frame: Bytes)
    requires |text| < MAX_SIZE && |mask| == 4
    ensures frame == Encode(Frame(true, TEXT, Some(mask), text))
  {
    var len := |text|;
    frame := Head(len);
    ghost var header := frame;
    frame := frame + mask;
    for i := 0 to len
      invariant frame == header + mask + Masked(text[..i], mask)
    {
      assert text[..i + 1][..i] == text[..i];
      frame := frame + [Xor8(text[i], mask[i % 4])];
    }
    assert text[..len] == text;
    assert header + mask + Masked(text, mask)
        == [0x81, 0x80 + ShortLength(len)] + (ExtendedLength(len) + (mask + Masked(text, mask)));
  }

  /** The opcode and the length of a masked text frame. */
  method Head(len: nat) returns (head: Bytes)
    requires len < MAX_SIZE
    ensures head == [0x81, 0x80 + ShortLength(len)] + ExtendedLength(len)
  {
    head := [0x81];
    if len < 126 {
      head := head + [0x80 + len];
    } else if len <= 0xFFFF {
      head := head + [0x80 + 126];
      head := head + [len / 0x100 % 0x100, len % 0x100];
      assert BigEndian(len, 2) == [len / 0x100 % 0x100, len % 0x100];
    } else {
      head := head + [0x80 + 127];
      var ext := LengthBytes(len);
      head := head + ext;
    }
  }

  // ---- Reading one frame ---------------------------------------------------------------

  datatype Read = Eof | Got(frame: Frame, next: nat)

  /** The frame that starts at `at`, if all its bytes are there. Its mask is reported but
      the payload is already unmasked. */
  function ReadFrame(data: Bytes, at: nat): (r: Read)
    requires at <= |data|
    ensures r.Got? ==> at + 2 <= r.next <= |data| && r.frame.opcode < 16
  {
    if at + 2 > |data| then Eof
    else
      var short := data[at + 1] % 0x80;
      var k := ExtendedSize(short);
      if at + 2 + k > |data| then Eof
      else
        var ext := data[at + 2..at + 2 + k];
        var len := if k == 0 then short else Value(ext);
        ReadBody(data, at, at + 2 + k + MaskSize(data[at + 1]), len)
  }

  function MaskSize(second: u8): nat { if second / 0x80 == 1 then 4 else 0 }

  /** The mask, if the header at `at` announces one, and the payload that begins at `body`. */
  function ReadBody(data: Bytes, at: nat, body: nat, len: nat): (r: Read)
    requires at + 2 <= |data| && at + 2 + MaskSize(data[at + 1]) <= body
    ensures r.Got? ==> r.next == body + len <= |data| && r.frame.opcode < 16
  {
    if body + len > |data| then Eof
    else
      var mask := if data[at + 1] / 0x80 == 1 then Some(data[body - 4..body]) else None;
      Got(Frame(data[at] / 0x80 == 1, data[at] % 0x10, mask, Covered(mask, data[body..body + len])), body + len)
  }

  lemma HeaderBits(f: Frame, short: nat)
    requires f.opcode < 16 && short < 0x80
    ensures FirstByte(f) / 0x80 == (if f.fin then 1 else 0) && FirstByte(f) % 0x10 == f.opcode
    ensures SecondByte(f.mask.Some?, short) / 0x80 == (if f.mask.Some? then 1 else 0)
    ensures SecondByte(f.mask.Some?, short) % 0x80 == short
  {
  }

  lemma CoveredTwice(mask: Option<Bytes>, payload: Bytes)
    requires mask.Some? ==> |mask.value| == 4
    ensures Covered(mask, Covered(mask, payload)) == payload
  {
    if mask.Some? {
      MaskedTwice(payload, mask.value);
    }
  }

  lemma Slices(pre: Bytes, h: Bytes, e: Bytes, m: Bytes, p: Bytes, rest: Bytes)
    requires |h| == 2
    ensures var data, at := pre + (h + (e + (m + p)) + rest), |pre|;
            && |data| == at + 2 + |e| + |m| + |p| + |rest|
            && data[at] == h[0] && data[at + 1] == h[1]
            && data[at + 2..at + 2 + |e|] == e
            && data[at + 2 + |e|..at + 2 + |e| + |m|] == m
            && data[at + 2 + |e| + |m|..at + 2 + |e| + |m| + |p|] == p
  {
  }

  /** The parser's steps, given what it finds at each. */
  lemma HeaderFound(data: Bytes, at: nat, ext: Bytes, len: nat)
    requires at + 2 + |ext| <= |data| && data[at + 2..at + 2 + |ext|] == ext
    requires var short := data[at + 1] % 0x80;
             |ext| == ExtendedSize(short) && len == if ext == [] then short else Value(ext)
    ensures ReadFrame(data, at) == ReadBody(data, at, at + 2 + |ext| + MaskSize(data[at + 1]), len)
  {
  }

  lemma BodyFound(data: Bytes, at: nat, f: Frame, mask: Bytes, body: nat)
    requires at + 2 + |mask| <= body && body + |f.payload| <= |data|
    requires data[at] / 0x80 == (if f.fin then 1 else 0) && data[at] % 0x10 == f.opcode
    requires data[at + 1] / 0x80 == (if f.mask.Some? then 1 else 0)
    requires mask == MaskBytes(f.mask) && (f.mask.Some? ==> |mask| == 4)
    requires data[body - |mask|..body] == mask && Covered(f.mask, data[body..body + |f.payload|]) == f.payload
    ensures ReadBody(data, at, body, |f.payload|) == Got(f, body + |f.payload|)
  {
  }

  lemma HeaderRead(data: Bytes, at: nat, f: Frame, e: Bytes)
    requires ValidFrame(f) && e == ExtendedLength(|f.payload|)
    requires at + 2 + |e| <= |data| && data[at + 2..at + 2 + |e|] == e
    requires data[at + 1] == SecondByte(f.mask.Some?, ShortLength(|f.payload|))
    ensures ReadFrame(data, at) == ReadBody(data, at, at + 2 + |e| + |MaskBytes(f.mask)|, |f.payload|)
  {
    HeaderBits(f, ShortLength(|f.payload|));
    LengthRoundTrip(|f.payload|);
    HeaderFound(data, at, e, |f.payload|);
  }

  lemma BodyRead(data: Bytes, at: nat, f: Frame, m: Bytes, p: Bytes, body: nat)
    requires ValidFrame(f) && m == MaskBytes(f.mask) && p == Covered(f.mask, f.payload)
    requires at + 2 + |m| <= body && body + |p| <= |data|
    requires data[at] == FirstByte(f) && data[at + 1] == SecondByte(f.mask.Some?, ShortLength(|f.payload|))
    requires data[body - |m|..body] == m && data[body..body + |p|] == p
    ensures MaskSize(data[at + 1]) == |m| && ReadBody(data, at, body, |f.payload|) == Got(f, body + |p|)
  {
    HeaderBits(f, ShortLength(|f.payload|));
    CoveredTwice(f.mask, f.payload);
    BodyFound(data, at, f, m, body);
  }

  lemma ReadParts(data: Bytes, at: nat, f: Frame, e: Bytes, m: Bytes, p: Bytes)
    requires ValidFrame(f)
    requires e == ExtendedLength(|f.payload|) && m == MaskBytes(f.mask) && p == Covered(f.mask, f.payload)
    requires at + 2 + |e| + |m| + |p| <= |data|
    requires data[at] == FirstByte(f) && data[at + 1] == SecondByte(f.mask.Some?, ShortLength(|f.payload|))
    requires data[at + 2..at + 2 + |e|] == e
    requires data[at + 2 + |e|..at + 2 + |e| + |m|] == m
    requires data[at + 2 + |e| + |m|..at + 2 + |e| + |m| + |p|] == p
    ensures ReadFrame(data, at) == Got(f, at + 2 + |e| + |m| + |p|)
  {
    BodyRead(data, at, f, m, p, at + 2 + |e| + |m|);
    HeaderRead(data, at, f, e);
  }

  lemma ReadAssembled(pre: Bytes, f: Frame, h: Bytes, e: Bytes, m: Bytes, p: Bytes, rest: Bytes)
    requires ValidFrame(f)
    requires h == [FirstByte(f), SecondByte(f.mask.Some?, ShortLength(|f.payload|))]
    requires e == ExtendedLength(|f.payload|) && m == MaskBytes(f.mask) && p == Covered(f.mask, f.payload)
    ensures ReadFrame(pre + (h + (e + (m + p)) + rest), |pre|) == Got(f, |pre| + |h + (e + (m + p))|)
  {
    Slices(pre, h, e, m, p, rest);
    ReadParts(pre + (h + (e + (m + p)) + rest), |pre|, f, e, m, p);
  }

  /** A frame reads back as itself, wherever it stands and whatever follows it. */
  lemma FrameRoundTrip(pre: Bytes, f: Frame, rest: Bytes)
    requires ValidFrame(f)
    ensures ReadFrame(pre + (Encode(f) + rest), |pre|) == Got(f, |pre| + |Encode(f)|)
  {
    var header := [FirstByte(f), SecondByte(f.mask.Some?, ShortLength(|f.payload|))];
    var e, m, p := ExtendedLength(|f.payload|), MaskBytes(f.mask), Covered(f.mask, f.payload);
    assert Encode(f) == header + (e + (m + p));
    ReadAssembled(pre, f, header, e, m, p, rest);
  }

  /** No other header announces a length in fewer bytes than the writer uses. */
  lemma WriterUsesShortestForm(data: Bytes, at: nat)
    requires at <= |data| && ReadFrame(data, at).Got?
    ensures ExtendedSize(data[at + 1] % 0x80) >= |ExtendedLength(|ReadFrame(data, at).frame.payload|)|
  {
    var short := data[at + 1] % 0x80;
    if short == 126 {
      var ext := data[at + 2..at + 4];
      assert Value(ext[..1]) == Value(ext[..1][..0]) * 0x100 + ext[0];
      assert Value(ext) == Value(ext[..1]) * 0x100 + ext[1];
      assert |ReadFrame(data, at).frame.payload| == Value(ext) <= 0xFFFF;
    }
  }

  // ---- The receive loop -----------------------------------------------------------------

  datatype End = Closed | EndOfInput | Fragmented

  datatype Reception = Reception(texts: seq<Bytes>, end: End, consumed: nat)

  /** The texts delivered from position `at` on, and how the loop ends. */
  function Received(data: Bytes, at: nat): Reception
    requires at <= |data|
    decreases |data| - at
  {
    match ReadFrame(data, at)
    case Eof => Reception([], EndOfInput, at)
    case Got(f, next) =>
      if f.opcode == CLOSE then Reception([], Closed, next)
      else if f.opcode == PING || f.opcode == PONG then Received(data, next)
      else if !f.fin then Reception([], Fragmented, next)
      else
        var rest := Received(data, next);
        if f.opcode == TEXT then rest.(texts := [f.payload] + rest.texts) else rest
  }

  /** The payload length, and where the bytes after it begin. */
  method TakeSize(data: Bytes, at: nat) returns (size: Option<(nat, nat)>)
    requires at + 2 <= |data|
    ensures var short := data[at + 1] % 0x80;
            var pos := at + 2 + ExtendedSize(short);
            size == if pos > |data| then None
                    else Some((if ExtendedSize(short) == 0 then short else Value(data[at + 2..pos]), pos))
  {
    var len: nat := data[at + 1] % 0x80;
    if len == 126 {
      if at + 4 > |data| { return None; }
      len := TakeLength(data[at + 2..at + 4]);
      return Some((len, at + 4));
    }
    if len == 127 {
      if at + 10 > |data| { return None; }
      len := TakeLength(data[at + 2..at + 10]);
      return Some((len, at + 10));
    }
    size := Some((len, at + 2));
  }

  /** One turn of reading: header, extended length, mask and payload, each if it is there. */
  method TakeFrame(data: Bytes, at: nat) returns (r: Read)
    requires at <= |data|
    ensures r == ReadFrame(data, at)
  {
    if at + 2 > |data| { return Eof; }
    var size := TakeSize(data, at);
    if size.None? { return Eof; }
    var (len, pos) := size.value;
    HeaderFound(data, at, data[at + 2..pos], len);
    r := TakeBody(data, at, pos, len);
  }

  method TakeBody(data: Bytes, at: nat, start: nat, len: nat) returns (r: Read)
    requires at + 2 <= start <= |data|
    ensures r == ReadBody(data, at, start + MaskSize(data[at + 1]), len)
  {
    var pos := start;
    if data[at + 1] / 0x80 != 1 {
      if pos + len > |data| { return Eof; }
      return Got(Frame(data[at] / 0x80 == 1, data[at] % 0x10, None, data[pos..pos + len]), pos + len);
    }
    if pos + 4 > |data| { return Eof; }
    var mask := data[pos..pos + 4];
    pos := pos + 4;
    if pos + len > |data| { return Eof; }
    assert data[pos - 4..pos] == mask;
    var payload := Unmask(data[pos..pos + len], mask);
    r := Got(Frame(data[at] / 0x80 == 1, data[at] % 0x10, Some(mask), payload), pos + len);
  }

  method TakeLength(ext: Bytes) returns (len: nat)
    ensures len == Value(ext)
  {
    len := 0;
    for i := 0 to |ext|
      invariant len == Value(ext[..i])
    {
      assert ext[..i + 1][..i] == ext[..i];
      len := len * 0x100 + ext[i];
    }
    assert ext[..|ext|] == ext;
  }

  method Unmask(data: Bytes, mask: Bytes) returns (payload: Bytes)
    requires |mask| == 4
    ensures payload == Masked(data, mask)
  {
    payload := data;
    for i := 0 to |data|
      invariant payload == Masked(data[..i], mask) + data[i..]
    {
      assert data[..i + 1][..i] == data[..i];
      payload := payload[i := Xor8(payload[i], mask[i % 4])];
    }
    assert data[..|data|] == data;
  }

  method ReceiveLoop(data: Bytes) returns (r: Reception)
    ensures r == Received(data, 0)
  {
    var texts: seq<Bytes> := [];
    var at := 0;
    while true
      invariant at <= |data|
      invariant Received(data, 0) == Received(data, at).(texts := texts + Received(data, at).texts)
      decreases |data| - at
    {
      assert texts + [] == texts;
      var read := TakeFrame(data, at);
      match read
      case Eof => return Reception(texts, EndOfInput, at);
      case Got(f, next) =>
        if f.opcode == CLOSE { return Reception(texts, Closed, next); }
        if f.opcode == PING || f.opcode == PONG {
        } else if !f.fin {
          return Reception(texts, Fragmented, next);
        } else if f.opcode == TEXT {
          Associate(texts, [f.payload], Received(data, next).texts);
          texts := texts + [f.payload];
        }
        at := next;
    }
  }

  // ---- A stream of frames ---------------------------------------------------------------

  function EncodeAll(frames: seq<Frame>): Bytes
    requires forall k :: 0 <= k < |frames| ==> ValidFrame(frames[k])
  {
    if frames == [] then [] else Encode(frames[0]) + EncodeAll(frames[1..])
  }

  /** What a list of frames means to the receiver. */
  function Meaning(frames: seq<Frame>): (seq<Bytes>, End) {
    if frames == [] then ([], EndOfInput)
    else
      var f := frames[0];
      if f.opcode == CLOSE then ([], Closed)
      else if f.opcode == PING || f.opcode == PONG then Meaning(frames[1..])
      else if !f.fin then ([], Fragmented)
      else
        var (texts, end) := Meaning(frames[1..]);
        (if f.opcode == TEXT then [f.payload] + texts else texts, end)
  }

  /** The loop has delivered what the frames mean, and stopped where they make it stop. */
  predicate Delivers(r: Reception, frames: seq<Frame>, end: nat) {
    (r.texts, r.end) == Meaning(frames) && (r.end == EndOfInput ==> r.consumed == end)
  }

  lemma OneFrameDelivers(data: Bytes, at: nat, frames: seq<Frame>, next: nat)
    requires at <= |data| && frames != [] && ReadFrame(data, at) == Got(frames[0], next)
    requires Delivers(Received(data, next), frames[1..], |data|)
    ensures Delivers(Received(data, at), frames, |data|)
  {
  }

  /** Whatever frames are sent, masked or not, the loop delivers exactly their texts up to
      a close or a fragment, and consumes every byte if it meets neither. */
  lemma {:induction false} StreamRoundTrip(pre: Bytes, frames: seq<Frame>)
    requires forall k :: 0 <= k < |frames| ==> ValidFrame(frames[k])
    ensures var data := pre + EncodeAll(frames);
            Delivers(Received(data, |pre|), frames, |data|)
    decreases |frames|
  {
    if frames == [] {
      assert pre + EncodeAll(frames) == pre;
    } else {
      var f, rest := frames[0], EncodeAll(frames[1..]);
      var data := pre + (Encode(f) + rest);
      assert ReadFrame(data, |pre|) == Got(f, |pre + Encode(f)|) by { FrameRoundTrip(pre, f, rest); }
      assert (pre + Encode(f)) + rest == data by { Associate(pre, Encode(f), rest); }
      StreamRoundTrip(pre + Encode(f), frames[1..]);
      OneFrameDelivers(data, |pre|, frames, |pre + Encode(f)|);
    }
  }

  function TextFrames(texts: seq<Bytes>, masks: seq<Bytes>): seq<Frame>
    requires |texts| == |masks|
  {
    if texts == [] then []
    else [Frame(true, TEXT, Some(masks[0]), texts[0])] + TextFrames(texts[1..], masks[1..])
  }

  lemma {:induction false} TextFramesMean(texts: seq<Bytes>, masks: seq<Bytes>)
    requires |texts| == |masks|
    requires forall k :: 0 <= k < |texts| ==> |texts[k]| < MAX_SIZE && |masks[k]| == 4
    ensures forall k :: 0 <= k < |TextFrames(texts, masks)| ==> ValidFrame(TextFrames(texts, masks)[k])
    ensures Meaning(TextFrames(texts, masks)) == (texts, EndOfInput)
  {
    if texts != [] {
      TextFramesMean(texts[1..], masks[1..]);
      var frames, rest := TextFrames(texts, masks), TextFrames(texts[1..], masks[1..]);
      assert frames[1..] == rest;
      assert forall k :: 0 < k < |frames| ==> frames[k] == rest[k - 1];
      assert [texts[0]] + texts[1..] == texts;
    }
  }

  /** Any list of texts under any masks is read back as exactly those texts, with every
      byte consumed. */
  lemma TextsRoundTrip(texts: seq<Bytes>, masks: seq<Bytes>)
    requires |texts| == |masks|
    requires forall k :: 0 <= k < |texts| ==> |texts[k]| < MAX_SIZE && |masks[k]| == 4
    ensures (forall k :: 0 <= k < |TextFrames(texts, masks)| ==> ValidFrame(TextFrames(texts, masks)[k]))
    ensures var data := EncodeAll(TextFrames(texts, masks));
            Received(data, 0) == Reception(texts, EndOfInput, |data|)
  {
    TextFramesMean(texts, masks);
    StreamRoundTrip([], TextFrames(texts, masks));
    assert [] + EncodeAll(TextFrames(texts, masks)) == EncodeAll(TextFrames(texts, masks));
  }

  // ---- The format byte by byte -------------------------------------------------------------

  /** Section 5.3 of RFC 6455: byte `i` is combined with byte `i` modulo 4 of the mask, bit
      by bit. */
  lemma {:induction false} MaskedExactly(data: Bytes, mask: Bytes, i: nat, bit: nat)
    requires |mask| == 4 && i < |data|
    ensures Bit(Masked(data, mask)[i], bit) == (Bit(data[i], bit) != Bit(mask[i % 4], bit))
    decreases |data|
  {
    if i < |data| - 1 {
      MaskedExactly(data[..|data| - 1], mask, i, bit);
    } else {
      XorBits(data[i], mask[i % 4], bit);
    }
  }

  /** Section 5.2 of RFC 6455: the first byte holds FIN and the opcode; the second MASK and a
      length up to 125, or 126 with two more bytes of it, or 127 with eight, highest first;
      then come the mask and the payload. */
  lemma HeaderExactly(f: Frame, i: nat)
    requires ValidFrame(f)
    ensures var out, len, m := Encode(f), |f.payload|, if f.mask.Some? then 4 else 0;
            var k := if len <= 125 then 0 else if len <= 65535 then 2 else 8;
            && |out| == 2 + k + m + len
            && out[0] == (if f.fin then 128 else 0) + f.opcode
            && out[1] == (if f.mask.Some? then 128 else 0) + (if k == 0 then len else if k == 2 then 126 else 127)
            && (i < k ==> out[2 + i] == ShiftRight(len, k - 1 - i) % 256)
            && (f.mask.Some? ==> out[2 + k..6 + k] == f.mask.value)
            && out[2 + k + m..] == if f.mask.Some? then Masked(f.payload, f.mask.value) else f.payload
  {
    var len := |f.payload|;
    var e := ExtendedLength(len);
    FourParts([FirstByte(f), SecondByte(f.mask.Some?, ShortLength(len))], e, MaskBytes(f.mask),
              Covered(f.mask, f.payload));
    if i < |e| {
      BigEndianAt(len, |e|, i);
    }
  }

  lemma FourParts(h: Bytes, e: Bytes, m: Bytes, p: Bytes)
    requires |h| == 2
    ensures var s, k := h + (e + (m + p)), 2 + |e|;
            && |s| == k + |m| + |p| && s[0] == h[0] && s[1] == h[1]
            && (forall i {:trigger e[i]} :: 0 <= i < |e| ==> s[2 + i] == e[i])
            && s[k..k + |m|] == m && s[k + |m|..] == p
  {
  }

  /** Close, ping and pong are the opcodes 8, 9 and 10, and text is 1. */
  lemma OpcodesExactly(f: Frame, rest: seq<Frame>)
    ensures Meaning([f] + rest) ==
            if f.opcode == 8 then ([], Closed)
            else if f.opcode == 9 || f.opcode == 10 then Meaning(rest)
            else if !f.fin then ([], Fragmented)
            else ((if f.opcode == 1 then [f.payload] else []) + Meaning(rest).0, Meaning(rest).1)
  {
    assert ([f] + rest)[1..] == rest;
    assert [] + Meaning(rest).0 == Meaning(rest).0;
  }
}
