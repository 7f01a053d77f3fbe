// The RGBA8888 and UINT8 build variants of the pixel functions
// (render/pixel.c:3-57 and 81-136, render/pixel.h:11-17 and 40-50).
module PixelFormats {
  import opened Pixels

  /** RGBA8888: memory order r, g, b, a. */
  datatype Rgba = Rgba(r: Byte, g: Byte, b: Byte, a: Byte)

  function RgbaLayout(p: Rgba): seq<Byte>
  {
    [p.r, p.g, p.b, p.a]
  }

  function RgbaFromRGBA(r: Byte, g: Byte, b: Byte, a: Byte): (p: Rgba)
    ensures p.r == r && p.g == g && p.b == b && p.a == a
    ensures RgbaLayout(p) == [r, g, b, a]
  {
    Rgba(r, g, b, a)
  }

  function RgbaFromUInt8(v: Byte): (p: Rgba)
    ensures p.r == v && p.g == v && p.b == v && p.a == 255
  {
    Rgba(v, v, v, 255)
  }

  function RgbaToUInt8(p: Rgba): (v: Byte)
    ensures 3 * v <= p.r + p.g + p.b < 3 * v + 3
  {
    (p.r + p.g + p.b) / 3
  }

  function RgbaMul(p: Rgba, scale: Byte -> Byte): (q: Rgba)
    ensures q.a == p.a
  {
    Rgba(scale(p.r), scale(p.g), scale(p.b), p.a)
  }

  /** The two four-channel formats hold the same channels, in a different byte order. */
  function ToBgra(p: Rgba): Pixel
  {
    Pixel(p.b, p.g, p.r, p.a)
  }

  lemma RgbaAgreesWithBgra(r: Byte, g: Byte, b: Byte, a: Byte, v: Byte, p: Rgba, scale: Byte -> Byte)
    ensures ToBgra(RgbaFromRGBA(r, g, b, a)) == FromRGBA(r, g, b, a)
    ensures ToBgra(RgbaMul(p, scale)) == Mul(ToBgra(p), scale)
    ensures ToBgra(RgbaFromUInt8(v)) == FromUInt8(v)
    ensures RgbaToUInt8(RgbaFromRGBA(r, g, b, a)) == ToUInt8(FromRGBA(r, g, b, a))
    ensures RgbaLayout(RgbaFromRGBA(r, g, b, a)) != Layout(FromRGBA(r, g, b, a)) <==> r != b
  {
  }

  lemma RgbaGreyRoundTrip(v: Byte)
    ensures RgbaToUInt8(RgbaFromUInt8(v)) == v
  {
  }

  /** UINT8: a single grey channel. */
  datatype Grey = Grey(g: Byte)

  /** pixelFromRGBA in UINT8 stores the floor of the mean of r, g and b; alpha is dropped. */
  function GreyFromRGBA(r: Byte, g: Byte, b: Byte, a: Byte): (p: Grey)
    ensures 3 * p.g <= r + g + b < 3 * p.g + 3
  {
    Grey((r + g + b) / 3)
  }

  function GreyFromUInt8(v: Byte): (p: Grey)
    ensures p.g == v
  {
    Grey(v)
  }

  function GreyToUInt8(p: Grey): (v: Byte)
    ensures v == p.g
  {
    p.g
  }

  /** pixelMul in UINT8: the grey level is scaled. */
  function GreyMul(p: Grey, scale: Byte -> Byte): (q: Grey)
    ensures GreyToUInt8(q) == scale(GreyToUInt8(p))
  {
    Grey(scale(p.g))
  }

  lemma GreyFormatRoundTrip(v: Byte, p: Grey)
    ensures GreyToUInt8(GreyFromUInt8(v)) == v
    ensures GreyFromUInt8(GreyToUInt8(p)) == p
  {
  }

  /** Converting colour to grey gives the same level in the UINT8 and BGRA8888 builds. */
  lemma GreyAgreesWithBgra(r: Byte, g: Byte, b: Byte, a: Byte)
    ensures GreyToUInt8(GreyFromRGBA(r, g, b, a)) == ToUInt8(FromRGBA(r, g, b, a))
  {
  }
}
