/** The RGBA pixel record every pixel source and raster in the pipeline
    exchanges. Channels are plain integers: a computed channel can leave the
    byte range, and only storing it into a byte buffer brings it back. */
module Pixels {
  import opened Bytes

  datatype Pixel = Pixel(r: int, g: int, b: int, a: int)

  /** The default background of every pixel source: transparent black. */
  const TransparentBlack: Pixel := Pixel(0, 0, 0, 0)

  predicate IsBytePixel(p: Pixel) {
    0 <= p.r < 256 && 0 <= p.g < 256 && 0 <= p.b < 256 && 0 <= p.a < 256
  }

  /** The pixel that reads back after `p` is written into a byte buffer. */
  function Stored(p: Pixel): (q: Pixel)
    ensures IsBytePixel(q)
    ensures IsBytePixel(p) ==> q == p
  {
    Pixel(ToUint8(p.r), ToUint8(p.g), ToUint8(p.b), ToUint8(p.a))
  }

  datatype Channel = R | G | B | A

  function Chan(p: Pixel, c: Channel): int {
    match c
    case R => p.r
    case G => p.g
    case B => p.b
    case A => p.a
  }
}
