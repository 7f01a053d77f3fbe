// Row-major addressing shared by every pixel buffer of the engine: cell
// (x, y) of a buffer of width w is element x + y*w (render/texture.c:33,44,
// render/image.c:18,22), and the wrap-around index of the float readers
// (render/texture.c:55-57, render/image.c:26-28).
module Grid {
  import opened Vec2

  /** uint16_t */
  type Uint16 = x: int | 0 <= x < 0x1_0000

  predicate InBounds(pos: Vec2i, size: Vec2i)
  {
    0 <= pos.x < size.x && 0 <= pos.y < size.y
  }

  /** The element a cell is stored in: row-major with stride size.x. */
  function Index(pos: Vec2i, size: Vec2i): (i: nat)
    requires InBounds(pos, size)
    ensures i < size.x * size.y
  {
    MulMonotone(pos.y, size.y - 1, size.x);
    assert (size.y - 1) * size.x + size.x == size.x * size.y;
    pos.x + pos.y * size.x
  }

  lemma MulAtLeast(d: int, w: int)
    requires d >= 1 && w > 0
    ensures d * w >= w
  {
    assert d * w == (d - 1) * w + w;
    assert (d - 1) * w >= 0;
  }

  lemma MulMonotone(a: int, b: int, c: int)
    requires a <= b && c >= 0
    ensures a * c <= b * c
  {
    assert b * c - a * c == (b - a) * c;
  }

  /** Euclidean division has a unique quotient and remainder. */
  lemma DivModUnique(i: int, w: int, q: int, r: int)
    requires w > 0 && 0 <= r < w && i == q * w + r
    ensures i / w == q && i % w == r
  {
    var q', r' := i / w, i % w;
    assert q' * w + r' == q * w + r;
    if q > q' {
      assert (q - q') * w == q * w - q' * w;
      MulAtLeast(q - q', w);
    } else if q < q' {
      assert (q' - q) * w == q' * w - q * w;
      MulAtLeast(q' - q, w);
    }
  }

  /** The column and the row of a cell are recovered from its index. */
  lemma IndexCoords(pos: Vec2i, size: Vec2i)
    requires InBounds(pos, size)
    ensures Index(pos, size) % size.x == pos.x
    ensures Index(pos, size) / size.x == pos.y
  {
    DivModUnique(Index(pos, size), size.x, pos.y, pos.x);
  }

  /** Distinct in-bounds positions address distinct cells. */
  lemma IndexInjective(p: Vec2i, q: Vec2i, size: Vec2i)
    requires InBounds(p, size) && InBounds(q, size)
    ensures Index(p, size) == Index(q, size) <==> p == q
  {
    if Index(p, size) == Index(q, size) {
      IndexCoords(p, size);
      IndexCoords(q, size);
    }
  }

  /**
   * The integer part of texture_readF / image_readF: the truncated texel
   * coordinates u and v are both reduced modulo the WIDTH.
   */
  function WrapIndex(u: Uint16, v: Uint16, size: Vec2i): (i: nat)
    requires size.x > 0
    ensures i < size.x * size.x
  {
    var x := u % size.x;
    var y := v % size.x;
    assert y * size.x <= (size.x - 1) * size.x;
    x + y * size.x
  }

  /** When the texture is no wider than tall, the wrapped index stays inside it. */
  lemma WrapIndexInBounds(u: Uint16, v: Uint16, size: Vec2i)
    requires 0 < size.x <= size.y
    ensures WrapIndex(u, v, size) < size.x * size.y
  {
    assert size.x * size.x <= size.x * size.y;
  }

  /**
   * Whenever the wrapped row is a row of the buffer, the wrap-around index
   * is the row-major element of the wrapped cell.
   */
  lemma WrapIndexIsIndex(u: Uint16, v: Uint16, size: Vec2i)
    requires 0 < size.x && v % size.x < size.y
    ensures InBounds(Vec2i(u % size.x, v % size.x), size)
    ensures WrapIndex(u, v, size) == Index(Vec2i(u % size.x, v % size.x), size)
  {
  }

  /** When the texture is wider than tall, row v = width-1 lies past its end. */
  lemma WrapIndexEscapes(size: Vec2i)
    requires 0 < size.y < size.x <= 0x1_0000
    ensures WrapIndex(0, size.x - 1, size) >= size.x * size.y
  {
    var w, h := size.x, size.y;
    DivModUnique(0, w, 0, 0);
    DivModUnique(w - 1, w, 0, w - 1);
    assert WrapIndex(0, w - 1, size) == (w - 1) * w;
    assert (w - 1) * w - h * w == (w - 1 - h) * w;
    assert (w - 1 - h) * w >= 0;
  }

  /** The wrap evidently intended: u modulo the width, v modulo the height. */
  function IntendedWrapIndex(u: Uint16, v: Uint16, size: Vec2i): (i: nat)
    requires size.x > 0 && size.y > 0
    ensures i < size.x * size.y
    ensures i % size.x == u % size.x && i / size.x == v % size.y
  {
    var pos := Vec2i(u % size.x, v % size.y);
    IndexCoords(pos, size);
    Index(pos, size)
  }
}
