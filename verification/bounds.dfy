/** Content-bounds detection over a padded 4-bytes-per-pixel buffer
    (detect_bounds in src/wcap.cpp). */
module CropDetector {

  /** A rectangle of pixels with origin (x, y), width w and height h. */
  datatype Rect = Rect(x: int, y: int, w: int, h: int)

  /** The rectangle that covers a whole width x height frame. */
  function FullFrame(width: int, height: int): Rect { Rect(0, 0, width, height) }

  /** Byte offset of pixel (px, py): rows are `stride` bytes apart, pixels 4 bytes wide. */
  function PixelOffset(stride: int, px: int, py: int): int { py * stride + 4 * px }

  /** The buffer holds every pixel of every row: the last row may stop right
      after its last pixel instead of running to the full stride. */
  ghost predicate Geometry(data: seq<bv8>, width: int, height: int, stride: int) {
    0 <= width && 0 <= height && 4 * width <= stride &&
    (1 <= height ==> (height - 1) * stride + 4 * width <= |data|)
  }

  ghost predicate InFrame(width: int, height: int, px: int, py: int) {
    0 <= px < width && 0 <= py < height
  }

  /** Pixel (px, py) is content when one of its first three bytes is nonzero;
      the fourth byte is padding and is ignored. */
  ghost predicate IsContent(data: seq<bv8>, stride: int, px: int, py: int) {
    var o := PixelOffset(stride, px, py);
    0 <= o && o + 2 < |data| && (data[o] | data[o + 1] | data[o + 2]) != 0
  }

  ghost predicate HasContent(data: seq<bv8>, width: int, height: int, stride: int) {
    exists px, py :: InFrame(width, height, px, py) && IsContent(data, stride, px, py)
  }

  ghost predicate RowHasContent(data: seq<bv8>, width: int, stride: int, py: int) {
    exists px :: 0 <= px < width && IsContent(data, stride, px, py)
  }

  /** Some pixel of column px within rows y0..y1 (inclusive) is content. */
  ghost predicate ColumnHasContent(data: seq<bv8>, stride: int, px: int, y0: int, y1: int) {
    exists py :: y0 <= py <= y1 && IsContent(data, stride, px, py)
  }

  /** r is a non-empty rectangle inside the frame that contains every content pixel. */
  ghost predicate Encloses(data: seq<bv8>, width: int, height: int, stride: int, r: Rect) {
    0 <= r.x && 0 <= r.y && 1 <= r.w && 1 <= r.h &&
    r.x + r.w <= width && r.y + r.h <= height &&
    forall px, py :: InFrame(width, height, px, py) && IsContent(data, stride, px, py) ==>
      r.x <= px < r.x + r.w && r.y <= py < r.y + r.h
  }

  /** Each of the four edges of r holds a content pixel, so no smaller rectangle encloses them all. */
  ghost predicate Tight(data: seq<bv8>, width: int, height: int, stride: int, r: Rect) {
    RowHasContent(data, width, stride, r.y) &&
    RowHasContent(data, width, stride, r.y + r.h - 1) &&
    ColumnHasContent(data, stride, r.x, 0, height - 1) &&
    ColumnHasContent(data, stride, r.x + r.w - 1, 0, height - 1)
  }

  /** The content bounds of a frame: the smallest rectangle holding every
      content pixel, or the whole frame when there is no content pixel. */
  ghost predicate IsBounds(data: seq<bv8>, width: int, height: int, stride: int, r: Rect) {
    if HasContent(data, width, height, stride) then
      Encloses(data, width, height, stride, r) && Tight(data, width, height, stride, r)
    else
      r == FullFrame(width, height)
  }

  lemma MulMonotone(a: int, b: int, c: int)
    requires a <= b && 0 <= c
    ensures a * c <= b * c
  {}

  /** Every byte of an in-frame pixel lies inside the buffer. */
  lemma PixelInBuffer(data: seq<bv8>, width: int, height: int, stride: int, px: int, py: int)
    requires Geometry(data, width, height, stride) && InFrame(width, height, px, py)
    ensures 0 <= PixelOffset(stride, px, py) && PixelOffset(stride, px, py) + 3 < |data| + 1
  {
    MulMonotone(py, height - 1, stride);
    MulMonotone(0, py, stride);
  }

  /** The inner sweep over one row (src/wcap.cpp:149 and :155). */
  method RowScan(data: seq<bv8>, width: int, height: int, stride: int, py: int) returns (found: bool)
    requires Geometry(data, width, height, stride) && 0 <= py < height
    ensures found == RowHasContent(data, width, stride, py)
  {
    var row := py * stride;
    found := false;
    var i := 0;
    while i < width * 4
      invariant 0 <= i <= width * 4 && i % 4 == 0
      invariant forall px :: 0 <= px < i / 4 ==> !IsContent(data, stride, px, py)
    {
      PixelInBuffer(data, width, height, stride, i / 4, py);
      if (data[row + i] | data[row + i + 1] | data[row + i + 2]) != 0 {
        found := true;
        assert IsContent(data, stride, i / 4, py);
        break;
      }
      i := i + 4;
    }
  }

  /** The inner sweep over one column, rows y0..y1 (src/wcap.cpp:160-162 and :167-169). */
  method ColumnScan(data: seq<bv8>, width: int, height: int, stride: int, px: int, y0: int, y1: int)
    returns (found: bool)
    requires Geometry(data, width, height, stride) && 0 <= px < width && 0 <= y0 && y1 < height
    ensures found == ColumnHasContent(data, stride, px, y0, y1)
  {
    found := false;
    var k := y0;
    while k <= y1
      invariant y0 <= k && (y0 <= y1 + 1 ==> k <= y1 + 1)
      invariant forall py :: y0 <= py < k ==> !IsContent(data, stride, px, py)
    {
      PixelInBuffer(data, width, height, stride, px, k);
      var o := k * stride + px * 4;
      if (data[o] | data[o + 1] | data[o + 2]) != 0 {
        found := true;
        assert IsContent(data, stride, px, k);
        break;
      }
      k := k + 1;
    }
  }

  /** detect_bounds: four sweeps with early exit find the first and last content
      rows, then the first and last content columns within those rows. */
  method DetectBounds(data: seq<bv8>, width: int, height: int, stride: int)
    returns (x: int, y: int, w: int, h: int)
    requires Geometry(data, width, height, stride)
    ensures IsBounds(data, width, height, stride, Rect(x, y, w, h))
    ensures !HasContent(data, width, height, stride) ==> Rect(x, y, w, h) == FullFrame(width, height)
    ensures 0 <= x && 0 <= y && x + w <= width && y + h <= height
    ensures 1 <= width && 1 <= height ==> 1 <= w && 1 <= h
  {
    var minY, maxY, minX, maxX := 0, height - 1, 0, width - 1;
    var found := false;
    while minY < height
      invariant 0 <= minY <= height && !found
      invariant forall py :: 0 <= py < minY ==> !RowHasContent(data, width, stride, py)
    {
      found := RowScan(data, width, height, stride, minY);
      if found { break; }
      minY := minY + 1;
    }
    if !found {
      forall px, py | InFrame(width, height, px, py)
        ensures !IsContent(data, stride, px, py)
      {
        assert !RowHasContent(data, width, stride, py);
      }
      x, y, w, h := 0, 0, width, height;
      return;
    }
    ghost var cx :| 0 <= cx < width && IsContent(data, stride, cx, minY);

    while maxY >= minY
      invariant minY <= maxY < height
      invariant forall py :: maxY < py < height ==> !RowHasContent(data, width, stride, py)
      decreases maxY
    {
      var has := RowScan(data, width, height, stride, maxY);
      if has { break; }
      maxY := maxY - 1;
    }
    assert RowHasContent(data, width, stride, maxY);

    found := false;
    while minX < width
      invariant 0 <= minX <= cx && !found
      invariant forall px :: 0 <= px < minX ==> !ColumnHasContent(data, stride, px, minY, maxY)
    {
      found := ColumnScan(data, width, height, stride, minX, minY, maxY);
      if found { break; }
      assert minX != cx by {
        assert IsContent(data, stride, cx, minY);
      }
      minX := minX + 1;
    }
    assert ColumnHasContent(data, stride, minX, minY, maxY);

    while maxX >= minX
      invariant minX <= maxX < width
      invariant forall px :: maxX < px < width ==> !ColumnHasContent(data, stride, px, minY, maxY)
      decreases maxX
    {
      var hasPixel := ColumnScan(data, width, height, stride, maxX, minY, maxY);
      if hasPixel { break; }
      maxX := maxX - 1;
    }
    assert ColumnHasContent(data, stride, maxX, minY, maxY);

    x, y, w, h := minX, minY, (maxX - minX) + 1, (maxY - minY) + 1;
    // The fallback of src/wcap.cpp:173 is never taken once content was found.
    assert 1 <= w && 1 <= h;
    if w <= 0 || h <= 0 {
      x, y, w, h := 0, 0, width, height;
    }

    forall px, py | InFrame(width, height, px, py) && IsContent(data, stride, px, py)
      ensures minX <= px <= maxX && minY <= py <= maxY
    {
      assert RowHasContent(data, width, stride, py);
      assert ColumnHasContent(data, stride, px, minY, maxY);
    }
    assert InFrame(width, height, cx, minY);
  }

  /** The content bounds are unique: two rectangles that both satisfy IsBounds are equal. */
  lemma BoundsUnique(data: seq<bv8>, width: int, height: int, stride: int, r1: Rect, r2: Rect)
    requires IsBounds(data, width, height, stride, r1) && IsBounds(data, width, height, stride, r2)
    ensures r1 == r2
  {
    if HasContent(data, width, height, stride) {
      EdgesWithin(data, width, height, stride, r1, r2);
      EdgesWithin(data, width, height, stride, r2, r1);
    }
  }

  /** Every edge of a tight rectangle t lies within any enclosing rectangle r. */
  lemma EdgesWithin(data: seq<bv8>, width: int, height: int, stride: int, r: Rect, t: Rect)
    requires Encloses(data, width, height, stride, r) && Encloses(data, width, height, stride, t)
    requires Tight(data, width, height, stride, t)
    ensures r.x <= t.x && t.x + t.w <= r.x + r.w && r.y <= t.y && t.y + t.h <= r.y + r.h
  {
    var a :| 0 <= a < width && IsContent(data, stride, a, t.y);
    assert InFrame(width, height, a, t.y);
    var b :| 0 <= b < width && IsContent(data, stride, b, t.y + t.h - 1);
    assert InFrame(width, height, b, t.y + t.h - 1);
    var c :| 0 <= c <= height - 1 && IsContent(data, stride, t.x, c);
    assert InFrame(width, height, t.x, c);
    var d :| 0 <= d <= height - 1 && IsContent(data, stride, t.x + t.w - 1, d);
    assert InFrame(width, height, t.x + t.w - 1, d);
  }

  /** When the content pixels are exactly those of a non-empty rectangle R inside
      the frame, R is the one rectangle IsBounds accepts. */
  lemma ContentRectBounds(data: seq<bv8>, width: int, height: int, stride: int, R: Rect, r: Rect)
    requires 0 <= R.x && 0 <= R.y && 1 <= R.w && 1 <= R.h && R.x + R.w <= width && R.y + R.h <= height
    requires forall px, py :: InFrame(width, height, px, py) ==>
               (IsContent(data, stride, px, py) <==> R.x <= px < R.x + R.w && R.y <= py < R.y + R.h)
    ensures IsBounds(data, width, height, stride, r) <==> r == R
  {
    assert InFrame(width, height, R.x, R.y);
    assert InFrame(width, height, R.x + R.w - 1, R.y + R.h - 1);
    assert IsContent(data, stride, R.x, R.y);
    assert IsContent(data, stride, R.x + R.w - 1, R.y + R.h - 1);
    assert IsContent(data, stride, R.x, R.y + R.h - 1);
    assert IsContent(data, stride, R.x + R.w - 1, R.y);
    assert IsBounds(data, width, height, stride, R);
    if IsBounds(data, width, height, stride, r) {
      BoundsUnique(data, width, height, stride, r, R);
    }
  }

  /** A frame whose only content pixel is (px, py) has bounds (px, py, 1, 1). */
  lemma SinglePixelBounds(data: seq<bv8>, width: int, height: int, stride: int, px: int, py: int, r: Rect)
    requires InFrame(width, height, px, py) && IsContent(data, stride, px, py)
    requires forall qx, qy :: InFrame(width, height, qx, qy) && IsContent(data, stride, qx, qy) ==>
               qx == px && qy == py
    ensures IsBounds(data, width, height, stride, r) <==> r == Rect(px, py, 1, 1)
  {
    ContentRectBounds(data, width, height, stride, Rect(px, py, 1, 1), r);
  }
}
