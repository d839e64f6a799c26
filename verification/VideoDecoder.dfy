/** The frame pool behind the H.264 decoder, sized on demand. */
module VideoDecoding {
  import opened Common
  import opened FramePooling
  import opened VideoFrames

  const POOL_DEPTH: nat := 8

  class VideoDecoder {
    var pool: FramePool?
    var poolW: nat
    var poolH: nat

    ghost predicate Valid()
      reads this, pool
    {
      if pool == null then poolW == poolH == 0
      else pool.Valid() && pool.count == POOL_DEPTH && pool.bufferSize == I420Size(poolW, poolH)
    }

    constructor ()
      ensures Valid() && pool == null
    {
      pool := null;
      poolW, poolH := 0, 0;
    }

    /** A larger picture replaces the pool by one that fits it and everything before it;
        frames over the old pool's buffers are not touched. */
    method EnsurePool(w: int, h: int)
      requires Valid()
      modifies this
      ensures Valid() && pool != null && w <= poolW && h <= poolH
      ensures var fits := old(pool) != null && w <= old(poolW) && h <= old(poolH);
              && (fits ==> pool == old(pool))
              && (!fits ==> fresh(pool) && pool.live == {})
      ensures poolW == (if w > old(poolW) then w else old(poolW))
      ensures poolH == (if h > old(poolH) then h else old(poolH))
    {
      if pool != null && w <= poolW && h <= poolH {
        return;
      }
      var pw := if w > poolW then w else poolW;
      var ph := if h > poolH then h else poolH;
      pool := new FramePool(I420Size(pw, ph), POOL_DEPTH);
      poolW := pw;
      poolH := ph;
    }

    /** A frame for a decoded picture of `w` by `h`. It fails exactly when eight frames are
        still held, or when the picture has no area. */
    method FrameFor(w: int, h: int) returns (frame: Result<VideoFrame>)
      requires Valid()
      modifies this, pool
      ensures Valid() && pool != null
      ensures old(pool) != null && pool != old(pool) ==> unchanged(old(pool))
      ensures var held := if pool == old(pool) then old(if pool == null then {} else pool.live) else {};
              && (frame == Err(ResourceExhausted) <==> |held| == 8)
              && (frame == Err(Internal) <==> |held| < 8 && (w <= 0 || h <= 0))
              && (frame.Ok? ==>
                    && frame.value.I420? && frame.value.width == w && frame.value.height == h
                    && frame.value == MakeI420(Some(BufferOf(frame.value.buffer.slot, pool.bufferSize)), w, h)
                    && frame.value.buffer.slot !in held
                    && pool.live == held + {frame.value.buffer.slot})
    {
      EnsurePool(w, h);
      ghost var held := pool.live;
      var buf := pool.Acquire();
      if buf.None? {
        return Err(ResourceExhausted);
      }
      var out := MakeI420(buf, w, h);
      if w > 0 && h > 0 {
        SizeMonotone(w, h, poolW, poolH);
      }
      FrameFitsExactly(buf, w, h);
      if out.Invalid? {
        pool.Release(buf.value.slot);
        return Err(Internal);
      }
      frame := Ok(out);
    }
  }
}
