/**
 * The decoded tile image, standing in for Jimp's bitmap: a width, a height
 * and the colour of every pixel, each unpacked into its four byte channels
 * (what `Jimp.intToRGBA` yields for `getPixelColor(x, y)`).
 */
module Images {

  /** One 8-bit colour channel. */
  type Byte = b: int | 0 <= b < 256

  datatype Rgba = Rgba(r: Byte, g: Byte, b: Byte, a: Byte)

  /** `grid[x][y]` is the colour of pixel column `x`, row `y`. */
  datatype Image = Image(width: nat, height: nat, grid: seq<seq<Rgba>>) {

    /** The grid holds exactly `width` columns of `height` pixels. */
    ghost predicate Valid() {
      |grid| == width && forall x :: 0 <= x < |grid| ==> |grid[x]| == height
    }

    /** `getPixelColor(x, y)` unpacked into channels. */
    function PixelAt(x: nat, y: nat): Rgba
      requires Valid() && x < width && y < height
    {
      grid[x][y]
    }
  }
}
