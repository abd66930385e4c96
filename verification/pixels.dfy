/**
 * The RGBA bytes of a canvas `ImageData`: pixel p occupies bytes `4p` to `4p + 3`
 * (red, green, blue, alpha).
 */
module Pixels {
  import opened Js

  datatype Px = Px(r: Byte, g: Byte, b: Byte, a: Byte)

  /** Pixel p of RGBA bytes. */
  function PixelAt(d: seq<Byte>, p: nat): Px
    requires 4 * p + 3 < |d|
  {
    Px(d[4 * p], d[4 * p + 1], d[4 * p + 2], d[4 * p + 3])
  }

  /** `d` is `d0` with every pixel replaced by its image under f. */
  ghost predicate Mapped(d: seq<Byte>, d0: seq<Byte>, f: Px -> Px)
  {
    |d| == |d0| && |d0| % 4 == 0 &&
    forall p :: 0 <= p && 4 * p + 3 < |d0| ==> PixelAt(d, p) == f(PixelAt(d0, p))
  }
}
