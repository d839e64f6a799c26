/** I420 frames laid over pool buffers: a luma plane and two chroma planes of half its
    width and height, rounded up. */
module VideoFrames {
  import opened Common
  import opened Arithmetic
  import opened FramePooling

  datatype Plane = Plane(offset: nat, stride: nat)

  /** Planes are luma, then the two chroma planes. */
  datatype VideoFrame =
    | Invalid
    | I420(width: nat, height: nat, y: Plane, u: Plane, v: Plane, buffer: Buffer)

  function Half(n: nat): nat {
    (n + 1) / 2
  }

  function I420Size(w: nat, h: nat): nat {
    w * h + 2 * (Half(w) * Half(h))
  }

  function MakeI420(buf: Option<Buffer>, w: int, h: int): VideoFrame {
    if buf.None? || w <= 0 || h <= 0 then Invalid
    else
      var ySize, cSize := w * h, Half(w) * Half(h);
      if buf.value.capacity < ySize + 2 * cSize then Invalid
      else
        var base := buf.value.offset;
        I420(w, h, Plane(base, w), Plane(base + ySize, Half(w)), Plane(base + ySize + cSize, Half(w)), buf.value)
  }

  lemma FrameFitsExactly(buf: Option<Buffer>, w: int, h: int)
    ensures MakeI420(buf, w, h).I420? <==>
            buf.Some? && w > 0 && h > 0 && I420Size(w, h) <= buf.value.capacity
  {
  }

  lemma SizeMonotone(w: nat, h: nat, w': nat, h': nat)
    requires w <= w' && h <= h'
    ensures I420Size(w, h) <= I420Size(w', h')
  {
    ProductMonotone(w, h, w', h');
    ProductMonotone(Half(w), Half(h), Half(w'), Half(h'));
  }

  // ---- Samples -----------------------------------------------------------------------------

  datatype Channel = Luma | ChromaU | ChromaV

  /** One stored sample of a picture: a channel, a column and a row. */
  datatype Sample = Sample(channel: Channel, x: nat, y: nat)

  function Columns(f: VideoFrame, c: Channel): nat
    requires f.I420?
  {
    if c.Luma? then f.width else Half(f.width)
  }

  function Rows(f: VideoFrame, c: Channel): nat
    requires f.I420?
  {
    if c.Luma? then f.height else Half(f.height)
  }

  predicate InPicture(f: VideoFrame, s: Sample) {
    f.I420? && s.x < Columns(f, s.channel) && s.y < Rows(f, s.channel)
  }

  /** Where code walking the plane by its pointer and stride finds a sample. */
  function Address(f: VideoFrame, s: Sample): int
    requires f.I420?
  {
    var p := match s.channel case Luma => f.y case ChromaU => f.u case ChromaV => f.v;
    p.offset + s.y * p.stride + s.x
  }

  /** The samples of one channel run through `rows * stride` bytes without repeating. */
  lemma InPlane(stride: nat, rows: nat, x: nat, y: nat)
    requires x < stride && y < rows
    ensures 0 <= y * stride + x < rows * stride
  {
    Steps(y, rows, stride);
  }

  lemma CellsAreDistinct(stride: nat, x: nat, y: nat, x': nat, y': nat)
    requires x < stride && x' < stride && y * stride + x == y' * stride + x'
    ensures x == x' && y == y'
  {
    if y < y' {
      Steps(y, y', stride);
    } else if y' < y {
      Steps(y', y, stride);
    }
  }

  /** Where the plane of a channel lies in a buffer, and how long it is. */
  function PlaneStart(w: nat, h: nat, c: Channel): nat {
    match c case Luma => 0 case ChromaU => w * h case ChromaV => w * h + Half(w) * Half(h)
  }

  function PlaneSize(w: nat, h: nat, c: Channel): nat {
    if c.Luma? then w * h else Half(w) * Half(h)
  }

  /** Planes follow each other without overlap and end with the buffer a frame needs. */
  lemma PlanesAreDisjoint(w: nat, h: nat, c: Channel, d: Channel)
    ensures PlaneStart(w, h, c) + PlaneSize(w, h, c) <= I420Size(w, h)
    ensures c == d || PlaneStart(w, h, c) + PlaneSize(w, h, c) <= PlaneStart(w, h, d)
                   || PlaneStart(w, h, d) + PlaneSize(w, h, d) <= PlaneStart(w, h, c)
  {
  }

  /** The position of a sample within its plane. */
  function Cell(f: VideoFrame, s: Sample): nat
    requires f.I420?
  {
    s.y * Columns(f, s.channel) + s.x
  }

  lemma AddressIs(buf: Option<Buffer>, w: int, h: int, s: Sample)
    requires MakeI420(buf, w, h).I420?
    ensures var f := MakeI420(buf, w, h);
            Address(f, s) == buf.value.offset + PlaneStart(w, h, s.channel) + Cell(f, s)
  {
  }

  lemma CellInPlane(buf: Option<Buffer>, w: int, h: int, s: Sample)
    requires InPicture(MakeI420(buf, w, h), s)
    ensures Cell(MakeI420(buf, w, h), s) < PlaneSize(w, h, s.channel)
  {
    var f := MakeI420(buf, w, h);
    InPlane(Columns(f, s.channel), Rows(f, s.channel), s.x, s.y);
    Commute(w, h);
    Commute(Half(w), Half(h));
  }

  lemma Commute(a: nat, b: nat)
    ensures a * b == b * a
  {
  }

  /** Every sample has its own byte of the buffer. */
  lemma SamplesAreDistinct(buf: Option<Buffer>, w: int, h: int, s: Sample, t: Sample)
    requires InPicture(MakeI420(buf, w, h), s) && InPicture(MakeI420(buf, w, h), t)
    ensures Contains(buf.value, Address(MakeI420(buf, w, h), s))
    ensures Address(MakeI420(buf, w, h), s) == Address(MakeI420(buf, w, h), t) ==> s == t
  {
    var f := MakeI420(buf, w, h);
    AddressIs(buf, w, h, s);
    AddressIs(buf, w, h, t);
    CellInPlane(buf, w, h, s);
    CellInPlane(buf, w, h, t);
    PlanesAreDisjoint(w, h, s.channel, t.channel);
    FrameFitsExactly(buf, w, h);
    if s.channel == t.channel && Cell(f, s) == Cell(f, t) {
      CellsAreDistinct(Columns(f, s.channel), s.x, s.y, t.x, t.y);
    }
  }

  /** No sample of a live frame shares its byte with another: not within the frame, and not
      with any frame over another live buffer of the pool, whatever their dimensions. */
  lemma FramesShareNothing(count: nat, size: nat, slot: nat, slot': nat, w: int, h: int, w': int, h': int,
                           s: Sample, t: Sample)
    requires slot < count && slot' < count && (slot == slot' ==> w == w' && h == h')
    requires InPicture(MakeI420(Some(BufferOf(slot, size)), w, h), s)
    requires InPicture(MakeI420(Some(BufferOf(slot', size)), w', h'), t)
    ensures var a, b := Address(MakeI420(Some(BufferOf(slot, size)), w, h), s),
                        Address(MakeI420(Some(BufferOf(slot', size)), w', h'), t);
            0 <= a < count * size && (a == b ==> slot == slot' && s == t)
  {
    var a := Address(MakeI420(Some(BufferOf(slot, size)), w, h), s);
    SamplesAreDistinct(Some(BufferOf(slot, size)), w, h, s, s);
    SamplesAreDistinct(Some(BufferOf(slot', size)), w', h', t, t);
    SlotsAreDisjoint(count, size, slot, slot', a);
    if slot == slot' {
      SamplesAreDistinct(Some(BufferOf(slot, size)), w, h, s, t);
    }
  }

  /** The chroma planes are halved in both directions, rounding up: each luma sample has its
      chroma samples at half its column and row, and none of them is without a luma sample. */
  lemma ChromaIsHalved(buf: Option<Buffer>, w: int, h: int, x: nat, y: nat)
    requires MakeI420(buf, w, h).I420?
    ensures var f := MakeI420(buf, w, h);
            forall c: Channel :: !c.Luma? ==>
              && (InPicture(f, Sample(Luma, x, y)) ==> InPicture(f, Sample(c, x / 2, y / 2)))
              && (InPicture(f, Sample(c, x, y)) ==> InPicture(f, Sample(Luma, 2 * x, 2 * y)))
  {
  }
}
