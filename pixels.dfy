/** Pixel buffers as the browser's `ImageData` lays them out: a width, a
    height and a flat row-major sequence of RGBA bytes, four per pixel. */
module Pixels {

  /** One channel value of an `ImageData` buffer (a `Uint8ClampedArray` element). */
  type byte = b: int | 0 <= b < 256

  /** Bytes per pixel: red, green, blue, alpha. */
  const ChannelCount: nat := 4

  /** Offset of the alpha byte inside a pixel. */
  const AlphaChannel: nat := 3

  datatype PixelBuffer = PixelBuffer(width: nat, height: nat, data: seq<byte>)

  /** An axis-aligned rectangle: its top-left corner and its size. */
  datatype Box = Box(x: nat, y: nat, width: nat, height: nat)

  /** The layout invariant `ImageData` guarantees: exactly four bytes per pixel. */
  predicate WellFormed(img: PixelBuffer) {
    |img.data| == img.width * img.height * ChannelCount
  }

  /** Index of the first (red) byte of pixel (x, y) in a buffer `width` pixels wide. */
  function PixelIndex(width: nat, x: nat, y: nat): nat {
    (y * width + x) * ChannelCount
  }

  /** All four bytes of a pixel inside a `width` by `height` buffer are in bounds. */
  lemma PixelIndexInBounds(width: nat, height: nat, x: nat, y: nat)
    requires x < width && y < height
    ensures PixelIndex(width, x, y) + ChannelCount <= width * height * ChannelCount
  {
    assert y * width + x + 1 <= y * width + width == (y + 1) * width;
    assert (y + 1) * width <= height * width by {
      MultiplyMonotone(y + 1, height, width);
    }
  }

  lemma MultiplyMonotone(a: nat, b: nat, k: nat)
    requires a <= b
    ensures a * k <= b * k
  {
  }

  /** Channel `c` of pixel (x, y). */
  function Channel(img: PixelBuffer, x: nat, y: nat, c: nat): byte
    requires WellFormed(img)
    requires x < img.width && y < img.height && c < ChannelCount
  {
    PixelIndexInBounds(img.width, img.height, x, y);
    img.data[PixelIndex(img.width, x, y) + c]
  }

  /** A pixel is visible when it lies in the image and its alpha byte is not 0;
      any non-zero alpha, however faint, counts as content. */
  predicate Visible(img: PixelBuffer, x: nat, y: nat)
    requires WellFormed(img)
  {
    x < img.width && y < img.height && Channel(img, x, y, AlphaChannel) > 0
  }

  /** Every alpha byte of the image is 0. */
  predicate Transparent(img: PixelBuffer)
    requires WellFormed(img)
  {
    forall x: nat, y: nat | x < img.width && y < img.height :: Channel(img, x, y, AlphaChannel) == 0
  }

  /** The box lies entirely inside the image. */
  predicate Inside(b: Box, img: PixelBuffer) {
    b.x + b.width <= img.width && b.y + b.height <= img.height
  }

  /** The right-most column and the bottom row of a non-empty box. */
  function LastColumn(b: Box): nat
    requires 1 <= b.width
  {
    b.x + b.width - 1
  }

  function LastRow(b: Box): nat
    requires 1 <= b.height
  {
    b.y + b.height - 1
  }

  predicate Contains(b: Box, x: nat, y: nat) {
    b.x <= x < b.x + b.width && b.y <= y < b.y + b.height
  }
}
