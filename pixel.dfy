// The active pixel format of the engine, BGRA8888 (render/pixel.h:8,52-62),
// and its constructors and projections (render/pixel.c:138-193).
module Pixels {

  /** uint8_t */
  type Byte = x: int | 0 <= x < 256

  /** Field order of the struct is the byte order in memory: b, g, r, a. */
  datatype Pixel = Pixel(b: Byte, g: Byte, r: Byte, a: Byte)

  /** The four bytes of a pixel as they are laid out in memory. */
  function Layout(p: Pixel): seq<Byte>
  {
    [p.b, p.g, p.r, p.a]
  }

  /** PIXELBLACK: opaque black, alpha 255. */
  const Black: Pixel := Pixel(0, 0, 0, 255)

  /** PIXELWHITE */
  const White: Pixel := Pixel(255, 255, 255, 255)

  /** The pixel whose four bytes are all zero, as left behind by a memset to 0. */
  const Zero: Pixel := Pixel(0, 0, 0, 0)

  /** pixelFromRGBA: each named channel is kept, stored in b, g, r, a order. */
  function FromRGBA(r: Byte, g: Byte, b: Byte, a: Byte): (p: Pixel)
    ensures p.r == r && p.g == g && p.b == b && p.a == a
    ensures Layout(p) == [b, g, r, a]
  {
    Pixel(b, g, r, a)
  }

  /** pixelFromUInt8: a grey level becomes an opaque grey pixel. */
  function FromUInt8(v: Byte): (p: Pixel)
    ensures p.r == v && p.g == v && p.b == v && p.a == 255
  {
    Pixel(v, v, v, 255)
  }

  /** pixelToUInt8: the floor of the mean of the three colour channels. */
  function ToUInt8(p: Pixel): (v: Byte)
    ensures 3 * v <= p.r + p.g + p.b < 3 * v + 3
    ensures p.r == p.g == p.b ==> v == p.g
  {
    (p.r + p.g + p.b) / 3
  }

  /**
   * pixelMul: each colour channel is scaled on its own and alpha is kept.
   * The float product and its truncating cast, (uint8_t)(c * f), are the
   * parameter `scale`.
   */
  function Mul(p: Pixel, scale: Byte -> Byte): (q: Pixel)
    ensures q.a == p.a
  {
    Pixel(scale(p.b), scale(p.g), scale(p.r), p.a)
  }

  lemma GreyRoundTrip(v: Byte)
    ensures ToUInt8(FromUInt8(v)) == v
  {
  }

  lemma GreyOfRGBA(r: Byte, g: Byte, b: Byte, a: Byte)
    ensures ToUInt8(FromRGBA(r, g, b, a)) == (r + g + b) / 3
  {
  }

  /** A channel of the product depends only on the same channel of the input. */
  lemma MulChannelwise(p: Pixel, q: Pixel, scale: Byte -> Byte)
    ensures p.b == q.b ==> Mul(p, scale).b == Mul(q, scale).b
    ensures p.g == q.g ==> Mul(p, scale).g == Mul(q, scale).g
    ensures p.r == q.r ==> Mul(p, scale).r == Mul(q, scale).r
  {
  }

  /** PIXELBLACK and PIXELWHITE are the opaque greys of the lowest and highest level. */
  lemma BlackAndWhiteAreGreys()
    ensures Black == FromUInt8(0) && White == FromUInt8(255)
    ensures ToUInt8(Black) == 0 && ToUInt8(White) == 255
  {
  }

  /** The zero-filled pixel a clear leaves is not the clear colour PIXELBLACK. */
  lemma ZeroIsNotBlack()
    ensures Zero != Black && Zero.a == 0 && Black.a == 255
  {
  }
}
