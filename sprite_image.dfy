/** The decoded image as the converter sees it, and the converter's fixed constants.
    The image decoder itself is not modelled: a decoded image is a width, a height
    and a grid of RGBA pixels with 8-bit channels, stored row by row. */
module SpriteImage {

  /** An 8-bit unsigned channel value. */
  newtype Byte = b: int | 0 <= b < 256

  /** The side length the converter accepts: sprites are exactly 16 by 16 pixels. */
  const SPRITE_SIZE: nat := 16

  /** A pixel is "on" when its alpha channel is at least this value. */
  const ALPHA_THRESHOLD: Byte := 128

  /** One pixel in 32-bit RGBA form. */
  datatype Rgba32 = Rgba32(r: Byte, g: Byte, b: Byte, a: Byte)

  /** A decoded image: `rows[y][x]` is the pixel in column `x` of row `y`. */
  datatype Image = Image(width: nat, height: nat, rows: seq<seq<Rgba32>>) {

    /** The grid has `height` rows of `width` pixels each, as every decoded image does. */
    predicate Valid() {
      |rows| == height && forall y :: 0 <= y < |rows| ==> |rows[y]| == width
    }

    /** The alpha value of pixel `(x, y)`. */
    function Alpha(x: nat, y: nat): (a: Byte)
      requires Valid() && x < width && y < height
    {
      rows[y][x].a
    }
  }

  /** Whether a pixel counts as "on": its alpha is at or above the threshold. */
  predicate IsOn(p: Rgba32) {
    p.a >= ALPHA_THRESHOLD
  }
}
