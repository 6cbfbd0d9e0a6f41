/** Content-bounds detection: the smallest box holding every pixel whose
    alpha byte is not 0. */
module Bounds {
  import opened Wrappers
  import opened Pixels

  /** `b` is the content bounding box of `img`: a non-empty box inside the image
      that holds every visible pixel and has a visible pixel on each of its four
      edges (so no smaller box holds them all). */
  ghost predicate IsContentBounds(img: PixelBuffer, b: Box)
    requires WellFormed(img)
  {
    && 1 <= b.width && 1 <= b.height && Inside(b, img)
    && (forall x: nat, y: nat :: Visible(img, x, y) ==> Contains(b, x, y))
    && (exists y: nat :: Visible(img, b.x, y))
    && (exists y: nat :: Visible(img, LastColumn(b), y))
    && (exists x: nat :: Visible(img, x, b.y))
    && (exists x: nat :: Visible(img, x, LastRow(b)))
  }

  /** An image has at most one content bounding box. */
  lemma ContentBoundsUnique(img: PixelBuffer, b1: Box, b2: Box)
    requires WellFormed(img)
    requires IsContentBounds(img, b1) && IsContentBounds(img, b2)
    ensures b1 == b2
  {
    var y1: nat :| Visible(img, b1.x, y1);
    var y2: nat :| Visible(img, b2.x, y2);
    var y3: nat :| Visible(img, LastColumn(b1), y3);
    var y4: nat :| Visible(img, LastColumn(b2), y4);
    var x1: nat :| Visible(img, x1, b1.y);
    var x2: nat :| Visible(img, x2, b2.y);
    var x3: nat :| Visible(img, x3, LastRow(b1));
    var x4: nat :| Visible(img, x4, LastRow(b2));
  }

  /** An image whose visible pixels are exactly those of a non-empty box
      inside it (an opaque rectangle on a transparent background) has that box
      as its content bounding box. */
  lemma FilledBoxIsContentBounds(img: PixelBuffer, b: Box)
    requires WellFormed(img) && 1 <= b.width && 1 <= b.height && Inside(b, img)
    requires forall x: nat, y: nat | x < img.width && y < img.height ::
               Visible(img, x, y) <==> Contains(b, x, y)
    ensures IsContentBounds(img, b)
  {
    assert Visible(img, b.x, b.y) && Visible(img, LastColumn(b), LastRow(b));
  }

  /** The visible pixels on the four edges of a content bounding box, given
      as offsets from the box's corner. */
  lemma EdgeWitnesses(img: PixelBuffer, b: Box) returns (leftY: nat, rightY: nat, topX: nat, bottomX: nat)
    requires WellFormed(img) && IsContentBounds(img, b)
    ensures leftY < b.height && rightY < b.height && topX < b.width && bottomX < b.width
    ensures Visible(img, b.x, b.y + leftY) && Visible(img, b.x + (b.width - 1), b.y + rightY)
    ensures Visible(img, b.x + topX, b.y) && Visible(img, b.x + bottomX, b.y + (b.height - 1))
  {
    var ly: nat :| Visible(img, b.x, ly);
    var ry: nat :| Visible(img, LastColumn(b), ry);
    var tx: nat :| Visible(img, tx, b.y);
    var bx: nat :| Visible(img, bx, LastRow(b));
    assert Contains(b, b.x, ly) && Contains(b, LastColumn(b), ry);
    assert Contains(b, tx, b.y) && Contains(b, bx, LastRow(b));
    leftY, rightY, topX, bottomX := ly - b.y, ry - b.y, tx - b.x, bx - b.x;
  }

  /** An image with a visible pixel in its first and last column and in its
      first and last row has the whole image as its content bounding box. */
  lemma ContentTouchesBorders(img: PixelBuffer, leftY: nat, rightY: nat, topX: nat, bottomX: nat)
    requires WellFormed(img) && 1 <= img.width && 1 <= img.height
    requires Visible(img, 0, leftY) && Visible(img, img.width - 1, rightY)
    requires Visible(img, topX, 0) && Visible(img, bottomX, img.height - 1)
    ensures IsContentBounds(img, Box(0, 0, img.width, img.height))
  {
    var full := Box(0, 0, img.width, img.height);
    assert Visible(img, LastColumn(full), rightY) && Visible(img, bottomX, LastRow(full));
  }

  /** Pixel (x, y) comes before the scan position (sx, sy) in row-major order. */
  predicate Scanned(img: PixelBuffer, sx: nat, sy: nat, x: nat, y: nat) {
    x < img.width && y < img.height && (y < sy || (y == sy && x < sx))
  }

  /** What the scan variables say about the pixels scanned so far: every visible
      one lies in [minX, maxX] x [minY, maxY] and sets `hasContent`; each of the
      four extremes is attained by a visible pixel (the ghost witnesses); before
      any content the variables still hold their initial sentinels. */
  ghost predicate ScanSummary(img: PixelBuffer, sx: nat, sy: nat, hasContent: bool,
                              minX: int, minY: int, maxX: int, maxY: int,
                              leftY: nat, rightY: nat, topX: nat, bottomX: nat)
    requires WellFormed(img)
  {
    && (forall x: nat, y: nat :: Scanned(img, sx, sy, x, y) && Visible(img, x, y) ==>
          hasContent && minX <= x <= maxX && minY <= y <= maxY)
    && (hasContent ==>
          0 <= minX && 0 <= minY && 0 <= maxX && 0 <= maxY &&
          Visible(img, minX, leftY) && Visible(img, maxX, rightY) &&
          Visible(img, topX, minY) && Visible(img, bottomX, maxY))
    && (!hasContent ==>
          minX == img.width && minY == img.height && maxX == 0 && maxY == 0)
  }

  /** Scanning an invisible pixel changes nothing. */
  lemma SkipPixel(img: PixelBuffer, x: nat, y: nat, hasContent: bool,
                  minX: int, minY: int, maxX: int, maxY: int,
                  leftY: nat, rightY: nat, topX: nat, bottomX: nat)
    requires WellFormed(img) && x < img.width && y < img.height
    requires !Visible(img, x, y)
    requires ScanSummary(img, x, y, hasContent, minX, minY, maxX, maxY, leftY, rightY, topX, bottomX)
    ensures ScanSummary(img, x + 1, y, hasContent, minX, minY, maxX, maxY, leftY, rightY, topX, bottomX)
  {
  }

  /** Scanning a visible pixel: the extremes widen to include it and the
      witnesses follow whichever extreme moved. */
  lemma VisitPixel(img: PixelBuffer, x: nat, y: nat, hasContent: bool,
                   minX: int, minY: int, maxX: int, maxY: int,
                   leftY: nat, rightY: nat, topX: nat, bottomX: nat)
    requires WellFormed(img) && x < img.width && y < img.height
    requires Visible(img, x, y)
    requires ScanSummary(img, x, y, hasContent, minX, minY, maxX, maxY, leftY, rightY, topX, bottomX)
    ensures ScanSummary(img, x + 1, y, true,
                        if x < minX then x else minX, if y < minY then y else minY,
                        if x > maxX then x else maxX, if y > maxY then y else maxY,
                        if !hasContent || x < minX then y else leftY,
                        if !hasContent || x > maxX then y else rightY,
                        if !hasContent || y < minY then x else topX,
                        if !hasContent || y > maxY then x else bottomX)
  {
  }

  /** Finishing a row is the same as starting the next one. */
  lemma NextRow(img: PixelBuffer, y: nat, hasContent: bool,
                minX: int, minY: int, maxX: int, maxY: int,
                leftY: nat, rightY: nat, topX: nat, bottomX: nat)
    requires WellFormed(img)
    requires ScanSummary(img, img.width, y, hasContent, minX, minY, maxX, maxY, leftY, rightY, topX, bottomX)
    ensures ScanSummary(img, 0, y + 1, hasContent, minX, minY, maxX, maxY, leftY, rightY, topX, bottomX)
  {
  }

  /** After the last row every pixel has been scanned: the flag says whether any
      pixel is visible, and the extremes form the content bounding box. */
  lemma ScanComplete(img: PixelBuffer, hasContent: bool,
                     minX: int, minY: int, maxX: int, maxY: int,
                     leftY: nat, rightY: nat, topX: nat, bottomX: nat)
    requires WellFormed(img)
    requires ScanSummary(img, 0, img.height, hasContent, minX, minY, maxX, maxY, leftY, rightY, topX, bottomX)
    ensures !hasContent <==> Transparent(img)
    ensures hasContent ==>
              && 0 <= minX <= maxX && 0 <= minY <= maxY
              && IsContentBounds(img, Box(minX, minY, maxX - minX + 1, maxY - minY + 1))
  {
    if hasContent {
      assert Visible(img, maxX, rightY) && Visible(img, bottomX, maxY);
      var b := Box(minX, minY, maxX - minX + 1, maxY - minY + 1);
      assert Visible(img, b.x, leftY) && Visible(img, LastColumn(b), rightY);
      assert Visible(img, topX, b.y) && Visible(img, bottomX, LastRow(b));
    } else {
      forall x: nat, y: nat | x < img.width && y < img.height
        ensures Channel(img, x, y, AlphaChannel) == 0
      {
        assert Scanned(img, 0, img.height, x, y);
      }
    }
  }

  /** Scans every pixel once, row by row, widening the running extremes at each
      visible pixel. Returns `None` exactly when every alpha byte is 0 (also for
      a 0-wide or 0-high image); otherwise the content bounding box
      (minX, minY, maxX - minX + 1, maxY - minY + 1). */
  method FindContentBounds(img: PixelBuffer) returns (r: Option<Box>)
    requires WellFormed(img)
    ensures r == None <==> Transparent(img)
    ensures r.Some? ==> IsContentBounds(img, r.value)
  {
    var minX: int, minY: int, maxX: int, maxY: int := img.width, img.height, 0, 0;
    var hasContent := false;
    ghost var leftY: nat, rightY: nat, topX: nat, bottomX: nat := 0, 0, 0, 0;
    var y: nat := 0;
    while y < img.height
      invariant 0 <= y <= img.height
      invariant ScanSummary(img, 0, y, hasContent, minX, minY, maxX, maxY,
                            leftY, rightY, topX, bottomX)
    {
      var x: nat := 0;
      while x < img.width
        invariant 0 <= x <= img.width
        invariant ScanSummary(img, x, y, hasContent, minX, minY, maxX, maxY,
                              leftY, rightY, topX, bottomX)
      {
        var index := PixelIndex(img.width, x, y);
        PixelIndexInBounds(img.width, img.height, x, y);
        var alpha := img.data[index + AlphaChannel];
        if alpha > 0 {
          VisitPixel(img, x, y, hasContent, minX, minY, maxX, maxY, leftY, rightY, topX, bottomX);
          leftY, rightY, topX, bottomX :=
            if !hasContent || x < minX then y else leftY,
            if !hasContent || x > maxX then y else rightY,
            if !hasContent || y < minY then x else topX,
            if !hasContent || y > maxY then x else bottomX;
          hasContent := true;
          minX := if x < minX then x else minX;
          minY := if y < minY then y else minY;
          maxX := if x > maxX then x else maxX;
          maxY := if y > maxY then y else maxY;
        } else {
          SkipPixel(img, x, y, hasContent, minX, minY, maxX, maxY, leftY, rightY, topX, bottomX);
        }
        x := x + 1;
      }
      NextRow(img, y, hasContent, minX, minY, maxX, maxY, leftY, rightY, topX, bottomX);
      y := y + 1;
    }

    ScanComplete(img, hasContent, minX, minY, maxX, maxY, leftY, rightY, topX, bottomX);
    if !hasContent {
      return None;
    }
    r := Some(Box(minX, minY, maxX - minX + 1, maxY - minY + 1));
  }
}
