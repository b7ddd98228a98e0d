// The decoded pixel grid that bmpgrep reads both images into. Decoding the
// BMP file itself is done by a library outside this model; here an image is
// already in memory, row by row, each channel a byte value.

module Raster {

  /** One RGB pixel; the alpha channel is never compared and is not modelled. */
  datatype Pixel = Pixel(r: int, g: int, b: int)

  predicate IsChannel(c: int) { 0 <= c <= 255 }

  predicate ValidPixel(p: Pixel) { IsChannel(p.r) && IsChannel(p.g) && IsChannel(p.b) }

  /** `rows[y][x]` is the pixel in column `x` of row `y`. */
  datatype Image = Image(width: nat, height: nat, rows: seq<seq<Pixel>>)

  predicate Valid(img: Image)
  {
    |img.rows| == img.height &&
    forall y :: 0 <= y < |img.rows| ==>
      |img.rows[y]| == img.width &&
      forall x :: 0 <= x < |img.rows[y]| ==> ValidPixel(img.rows[y][x])
  }

  /** Random access to a pixel; only defined inside the image. */
  function At(img: Image, x: int, y: int): (p: Pixel)
    requires Valid(img)
    requires 0 <= x < img.width && 0 <= y < img.height
    ensures ValidPixel(p)
  {
    img.rows[y][x]
  }
}
