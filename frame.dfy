// The frame type of the renderer's older API (render/frame.h:11-21): a size
// and a pointer to row-major pixels, copied by value. frame.c is not part of
// this model; its init, read and draw are taken to behave as their renamed
// successors image_init, image_read and image_draw (render/image.c:4-23).
module Frames {
  import opened Vec2
  import opened Pixels
  import opened Grid

  datatype Frame = Frame(size: Vec2i, frameBuffer: array?<Pixel>)

  /** The buffer exists and holds at least size.x * size.y pixels. */
  predicate Valid(f: Frame)
  {
    f.frameBuffer != null && f.size.x * f.size.y <= f.frameBuffer.Length
  }

  /**
   * frameInit on values: code 1 for a zero area, code 2 for a null buffer
   * (checked in that order), else the frame takes the size and buffer.
   */
  function FrameInit(f: Frame, size: Vec2i, buf: array?<Pixel>): (res: (Frame, int))
    ensures res.1 == 1 <==> size.x * size.y == 0
    ensures res.1 == 2 <==> size.x * size.y != 0 && buf == null
    ensures res.1 == 0 <==> size.x * size.y != 0 && buf != null
    ensures res.1 != 0 ==> res.0 == f
    ensures res.1 == 0 ==> res.0 == Frame(size, buf)
  {
    if size.x * size.y == 0 then (f, 1)
    else if buf == null then (f, 2)
    else (Frame(size, buf), 0)
  }

  /** frameRead */
  function Read(f: Frame, pos: Vec2i): (p: Pixel)
    reads f.frameBuffer
    requires Valid(f) && InBounds(pos, f.size)
    ensures exists i :: 0 <= i < f.size.x * f.size.y && i % f.size.x == pos.x && i / f.size.x == pos.y && p == f.frameBuffer[i]
  {
    IndexCoords(pos, f.size);
    f.frameBuffer[Index(pos, f.size)]
  }

  /** frameDraw: exactly the cell at pos changes. */
  method Draw(f: Frame, pos: Vec2i, color: Pixel)
    requires Valid(f) && InBounds(pos, f.size)
    modifies f.frameBuffer
    ensures f.frameBuffer[..] == old(f.frameBuffer[..])[Index(pos, f.size) := color]
  {
    f.frameBuffer[Index(pos, f.size)] := color;
  }
}
