/** Cropping: copying a rectangle of a pixel buffer into a new buffer of the
    rectangle's size, four channel bytes per pixel. */
module Cropping {
  import opened Pixels
  import Bounds

  /** Euclidean division is determined by any quotient/remainder pair. */
  lemma DivModUnique(n: int, d: int, q: int, r: int)
    requires 0 < d && 0 <= r < d && n == q * d + r
    ensures n / d == q && n % d == r
  {
    var q', r' := n / d, n % d;
    assert n == q' * d + r';
    assert (q - q') * d == r' - r;
    if q' < q {
      MultiplyMonotone(1, q - q', d);
    } else if q < q' {
      MultiplyMonotone(1, q' - q, d);
    }
  }

  /** A pixel number below width * height names a row below height. */
  lemma RowInBounds(pixel: nat, width: nat, height: nat)
    requires pixel < width * height
    ensures 0 < width && pixel / width < height
  {
  }

  /** Byte `c` of the pixel at (col, row) in a buffer `width` pixels wide sits
      at a linear index whose quotient and remainder recover col, row and c. */
  lemma SplitByteIndex(width: nat, col: nat, row: nat, c: nat)
    requires col < width && c < ChannelCount
    ensures (PixelIndex(width, col, row) + c) / ChannelCount == row * width + col
    ensures (PixelIndex(width, col, row) + c) % ChannelCount == c
    ensures (row * width + col) / width == row
    ensures (row * width + col) % width == col
  {
    DivModUnique(PixelIndex(width, col, row) + c, ChannelCount, row * width + col, c);
    DivModUnique(row * width + col, width, row, col);
  }

  /** The source byte that lands at linear index `i` of the crop of `img` to `b`. */
  function SourceByte(img: PixelBuffer, b: Box, i: nat): byte
    requires WellFormed(img) && Inside(b, img)
    requires i < b.width * b.height * ChannelCount
  {
    var pixel := i / ChannelCount;
    assert pixel < b.width * b.height;
    RowInBounds(pixel, b.width, b.height);
    var row, col := pixel / b.width, pixel % b.width;
    Channel(img, b.x + col, b.y + row, i % ChannelCount)
  }

  /** The crop of `img` to `b`, defined byte by byte: byte i of the result is
      channel i % 4 of the pixel whose offset inside the box is given by the
      quotient and remainder of i / 4 by the box width. */
  function Cropped(img: PixelBuffer, b: Box): (r: PixelBuffer)
    requires WellFormed(img) && Inside(b, img)
    ensures WellFormed(r) && r.width == b.width && r.height == b.height
  {
    var size := b.width * b.height * ChannelCount;
    PixelBuffer(b.width, b.height, seq(size, i requires 0 <= i < size => SourceByte(img, b, i)))
  }

  lemma SourceByteAt(img: PixelBuffer, b: Box, col: nat, row: nat, c: nat)
    requires WellFormed(img) && Inside(b, img)
    requires col < b.width && row < b.height && c < ChannelCount
    ensures PixelIndex(b.width, col, row) + c < b.width * b.height * ChannelCount
    ensures SourceByte(img, b, PixelIndex(b.width, col, row) + c) ==
            Channel(img, b.x + col, b.y + row, c)
  {
    PixelIndexInBounds(b.width, b.height, col, row);
    SplitByteIndex(b.width, col, row, c);
  }

  /** Every channel of every pixel of the crop is the same channel of the
      source pixel offset by the box's corner. */
  lemma CroppedChannel(img: PixelBuffer, b: Box, col: nat, row: nat, c: nat)
    requires WellFormed(img) && Inside(b, img)
    requires col < b.width && row < b.height && c < ChannelCount
    ensures Channel(Cropped(img, b), col, row, c) == Channel(img, b.x + col, b.y + row, c)
  {
    SourceByteAt(img, b, col, row, c);
  }

  /** Cropping to the whole image returns the image unchanged. */
  lemma CropWholeImage(img: PixelBuffer)
    requires WellFormed(img)
    ensures Cropped(img, Box(0, 0, img.width, img.height)) == img
  {
    var b := Box(0, 0, img.width, img.height);
    var r := Cropped(img, b);
    forall i | 0 <= i < |img.data|
      ensures r.data[i] == img.data[i]
    {
      var pixel := i / ChannelCount;
      var row, col := pixel / img.width, pixel % img.width;
      assert i == PixelIndex(img.width, col, row) + i % ChannelCount;
    }
  }

  /** A pixel of the crop is visible exactly when the source pixel it came
      from is. */
  lemma CroppedVisible(img: PixelBuffer, b: Box, col: nat, row: nat)
    requires WellFormed(img) && Inside(b, img)
    requires col < b.width && row < b.height
    ensures Visible(Cropped(img, b), col, row) <==> Visible(img, b.x + col, b.y + row)
  {
    CroppedChannel(img, b, col, row, AlphaChannel);
  }

  /** Cropping to the content bounding box leaves an image whose own content
      bounding box is the whole image: content touches all four borders. */
  lemma CropToContentIsTight(img: PixelBuffer, b: Box)
    requires WellFormed(img) && Bounds.IsContentBounds(img, b)
    ensures Bounds.IsContentBounds(Cropped(img, b), Box(0, 0, b.width, b.height))
  {
    var leftY, rightY, topX, bottomX := Bounds.EdgeWitnesses(img, b);
    var c := Cropped(img, b);
    CroppedVisible(img, b, 0, leftY);
    CroppedVisible(img, b, b.width - 1, rightY);
    CroppedVisible(img, b, topX, 0);
    CroppedVisible(img, b, bottomX, b.height - 1);
    Bounds.ContentTouchesBorders(c, leftY, rightY, topX, bottomX);
  }

  /** Auto-crop is idempotent: once an image is cropped to its content, the
      only content bounding box it has is the whole image, and cropping to
      that returns it unchanged. */
  lemma AutoCropIdempotent(img: PixelBuffer, b: Box)
    requires WellFormed(img) && Bounds.IsContentBounds(img, b)
    ensures forall b2 :: Bounds.IsContentBounds(Cropped(img, b), b2) ==>
              b2 == Box(0, 0, b.width, b.height) && Cropped(Cropped(img, b), b2) == Cropped(img, b)
  {
    var c := Cropped(img, b);
    CropToContentIsTight(img, b);
    CropWholeImage(c);
    forall b2 | Bounds.IsContentBounds(c, b2)
      ensures b2 == Box(0, 0, b.width, b.height)
    {
      Bounds.ContentBoundsUnique(c, b2, Box(0, 0, b.width, b.height));
    }
  }

  /** A byte sequence that agrees with the crop at every index is the crop's data. */
  lemma CroppedData(img: PixelBuffer, b: Box, s: seq<byte>)
    requires WellFormed(img) && Inside(b, img)
    requires |s| == b.width * b.height * ChannelCount
    requires forall i :: 0 <= i < |s| ==> s[i] == SourceByte(img, b, i)
    ensures PixelBuffer(b.width, b.height, s) == Cropped(img, b)
  {
  }

  /** Allocates a buffer of the box's size and fills it row by row, copying
      the four channel bytes of each pixel from the source. The box must lie
      inside the image, which makes every source index read valid. */
  method CropImage(img: PixelBuffer, b: Box) returns (out: PixelBuffer)
    requires WellFormed(img) && Inside(b, img)
    ensures out == Cropped(img, b)
  {
    var cropWidth, cropHeight := b.width, b.height;
    var size := cropWidth * cropHeight * ChannelCount;
    var dst := new byte[size];
    var row := 0;
    assert PixelIndex(cropWidth, 0, 0) == 0;
    while row < cropHeight
      invariant 0 <= row <= cropHeight
      invariant PixelIndex(cropWidth, 0, row) <= size
      invariant forall i :: 0 <= i < PixelIndex(cropWidth, 0, row) ==>
                  dst[i] == SourceByte(img, b, i)
    {
      CopyRow(img, b, dst, row);
      row := row + 1;
    }
    assert PixelIndex(cropWidth, 0, cropHeight) == size;
    CroppedData(img, b, dst[..]);
    out := PixelBuffer(cropWidth, cropHeight, dst[..]);
  }

  /** One pass of the outer loop of `CropImage`: copies row `row` of the box,
      pixel by pixel, extending the filled prefix of `dst` by one row. */
  method CopyRow(img: PixelBuffer, b: Box, dst: array<byte>, row: nat)
    requires WellFormed(img) && Inside(b, img) && row < b.height
    requires dst.Length == b.width * b.height * ChannelCount
    requires forall i :: 0 <= i < PixelIndex(b.width, 0, row) ==> dst[i] == SourceByte(img, b, i)
    modifies dst
    ensures PixelIndex(b.width, 0, row + 1) <= dst.Length
    ensures forall i :: 0 <= i < PixelIndex(b.width, 0, row + 1) ==> dst[i] == SourceByte(img, b, i)
  {
    var cropWidth, cropHeight := b.width, b.height;
    var col := 0;
    while col < cropWidth
      invariant 0 <= col <= cropWidth
      invariant PixelIndex(cropWidth, col, row) <= dst.Length
      invariant forall i :: 0 <= i < PixelIndex(cropWidth, col, row) ==>
                  dst[i] == SourceByte(img, b, i)
    {
      var srcIndex := PixelIndex(img.width, b.x + col, b.y + row);
      var dstIndex := PixelIndex(cropWidth, col, row);
      PixelIndexInBounds(img.width, img.height, b.x + col, b.y + row);
      PixelIndexInBounds(cropWidth, cropHeight, col, row);
      dst[dstIndex] := img.data[srcIndex];
      dst[dstIndex + 1] := img.data[srcIndex + 1];
      dst[dstIndex + 2] := img.data[srcIndex + 2];
      dst[dstIndex + 3] := img.data[srcIndex + 3];
      SourceByteAt(img, b, col, row, 0);
      SourceByteAt(img, b, col, row, 1);
      SourceByteAt(img, b, col, row, 2);
      SourceByteAt(img, b, col, row, 3);
      col := col + 1;
    }
    assert PixelIndex(cropWidth, cropWidth, row) == PixelIndex(cropWidth, 0, row + 1);
  }
}
