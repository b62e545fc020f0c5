/** The pixel data both renderers consume: 8-bit RGBA pixels in a rectangular
    grid, already resized to the target box. */
module Pixels {

  /** An 8-bit channel value, as a `byte` field of `Rgba32` or a PIL tuple entry. */
  type Byte = x: nat | x < 256

  /** The colour part of a pixel; it is all that a colour directive carries. */
  datatype Rgb = Rgb(r: Byte, g: Byte, b: Byte)

  datatype Rgba = Rgba(r: Byte, g: Byte, b: Byte, a: Byte) {

    /** Binary transparency: only alpha 0 is transparent, every other alpha
        is drawn as fully opaque. */
    predicate Transparent() {
      a == 0
    }

    function Color(): Rgb {
      Rgb(r, g, b)
    }
  }

  /** A pixel grid of `width` columns and `height` rows, stored row by row,
      top row first. */
  datatype Image = Image(width: nat, height: nat, rows: seq<seq<Rgba>>) {

    predicate Valid() {
      && |rows| == height
      && forall y :: 0 <= y < |rows| ==> |rows[y]| == width
    }

    /** The pixel in column `x` of row `y`, the reading `Source[x, y]` and
        `getpixel((x, y))` make. */
    function At(x: nat, y: nat): Rgba
      requires Valid() && x < width && y < height
    {
      rows[y][x]
    }
  }

  /** A width and a height, in pixels. */
  datatype Size = Size(width: nat, height: nat)
}
