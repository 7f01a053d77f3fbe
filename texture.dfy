// A texture: a size and a borrowed row-major pixel buffer
// (render/texture.h:13-16, render/texture.c).
module Textures {
  import opened Vec2
  import opened Pixels
  import opened Grid

  class Texture {
    var size: Vec2i
    /** The pixel pointer; null until a successful init. */
    var framebuffer: array?<Pixel>

    /** The buffer exists and holds at least size.x * size.y pixels. */
    predicate Valid()
      reads this
    {
      framebuffer != null && size.x * size.y <= framebuffer.Length
    }

    /** A zero-filled struct: size (0, 0) and a null buffer. */
    constructor ()
      ensures size == Vec2.Zero && framebuffer == null
    {
      size := Vec2.Zero;
      framebuffer := null;
    }

    /**
     * texture_init. The caller's buffer, when there is one, must hold
     * size.x * size.y pixels; C cannot check that.
     */
    method Init(newSize: Vec2i, buf: array?<Pixel>) returns (code: int)
      requires buf != null ==> newSize.x * newSize.y <= buf.Length
      modifies this
      ensures code == 1 <==> newSize.x * newSize.y == 0
      ensures code == 2 <==> newSize.x * newSize.y != 0 && buf == null
      ensures code == 0 || code == 1 || code == 2
      ensures code != 0 ==> size == old(size) && framebuffer == old(framebuffer)
      ensures code == 0 ==> size == newSize && framebuffer == buf && Valid()
    {
      if newSize.x * newSize.y == 0 {
        return 1;
      }
      if buf == null {
        return 2;
      }
      framebuffer := buf;
      size := newSize;
      return 0;
    }

    /** texture_read */
    function Read(pos: Vec2i): (p: Pixel)
      reads this, framebuffer
      requires Valid() && InBounds(pos, size)
      ensures exists i :: 0 <= i < size.x * size.y && i % size.x == pos.x && i / size.x == pos.y && p == framebuffer[i]
    {
      IndexCoords(pos, size);
      framebuffer[Index(pos, size)]
    }

    /** texture_draw: exactly the cell at pos changes. */
    method Draw(pos: Vec2i, color: Pixel)
      requires Valid() && InBounds(pos, size)
      modifies framebuffer
      ensures Valid()
      ensures framebuffer[..] == old(framebuffer[..])[Index(pos, size) := color]
      ensures Read(pos) == color
      ensures forall q :: InBounds(q, size) && q != pos ==> Read(q) == old(Read(q))
    {
      var i := Index(pos, size);
      ghost var before := framebuffer[..];
      framebuffer[i] := color;
      assert framebuffer[..] == before[i := color];
      forall q | InBounds(q, size) && q != pos
        ensures Read(q) == old(Read(q))
      {
        IndexInjective(pos, q, size);
        var j := Index(q, size);
        assert j != i;
        assert framebuffer[j] == old(framebuffer[j]);
      }
    }

    /**
     * The integer part of texture_readF: u and v are the float coordinates
     * already scaled and truncated to uint16_t. Both wrap modulo the width,
     * so the read is in bounds exactly when the wrapped row is below the
     * height (always so for textures no wider than tall).
     */
    function ReadF(u: Uint16, v: Uint16): (p: Pixel)
      reads this, framebuffer
      requires Valid() && 0 < size.x && v % size.x < size.y
      ensures p == Read(Vec2i(u % size.x, v % size.x))
    {
      WrapIndexIsIndex(u, v, size);
      framebuffer[WrapIndex(u, v, size)]
    }
  }
}
