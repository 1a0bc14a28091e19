/** The ScreenCapture facade (src/wcap.cpp:96-231): source selection through the
    portal, and the per-frame extraction that crops a padded 4-bytes-per-pixel
    buffer into a Frame through a scratch buffer the object keeps across calls.
    Each frame row is the first 3 * cw bytes of the crop's source row, padding
    bytes included; PixelPacked is the 3-bytes-per-pixel packing the Frame
    type describes. The GStreamer pipeline is abstracted: whether it
    could be launched, and the mapped buffer each pull yields, are inputs. */
module Capture {
  import opened WcapTypes
  import opened CropDetector
  import Portal

  /** A pulled sample after its caps were read and its buffer mapped: the frame
      geometry, the mapped bytes, and the producer's crop metadata if any. */
  datatype RawBuffer = RawBuffer(width: int, height: int, stride: int, data: seq<bv8>, cropMeta: Option<Rect>)

  /** r is a (possibly empty) rectangle inside a width x height frame. */
  ghost predicate Within(r: Rect, width: int, height: int) {
    0 <= r.x && 0 <= r.y && 0 <= r.w && 0 <= r.h && r.x + r.w <= width && r.y + r.h <= height
  }

  /** The mapped buffer covers its frame, and crop metadata, which get_frame
      uses without checking it, lies inside the frame. */
  ghost predicate ValidRaw(raw: RawBuffer) {
    Geometry(raw.data, raw.width, raw.height, raw.stride) &&
    (raw.cropMeta.Some? ==> Within(raw.cropMeta.value, raw.width, raw.height))
  }

  // ---------------------------------------------------------------------------
  // The cropped bytes

  /** Offset of the first byte of row i of crop r in the source buffer: the
      address of the crop's left pixel on source row cy + i. */
  function RowStart(stride: int, r: Rect, i: int): (off: int)
    ensures off == PixelOffset(stride, r.x, r.y + i)
  {
    (r.y + i) * stride + r.x * 4
  }

  lemma RowInBuffer(raw: RawBuffer, r: Rect, i: int)
    requires ValidRaw(raw) && Within(r, raw.width, raw.height) && 0 <= i < r.h
    ensures 0 <= RowStart(raw.stride, r, i) && RowStart(raw.stride, r, i) + 4 * r.w <= |raw.data|
  {
    MulMonotone(r.y + i, raw.height - 1, raw.stride);
    MulMonotone(0, r.y + i, raw.stride);
  }

  /** The 3 * r.w contiguous source bytes that become row i of the frame. */
  function RowBytes(raw: RawBuffer, r: Rect, i: int): (row: seq<bv8>)
    requires ValidRaw(raw) && Within(r, raw.width, raw.height) && 0 <= i < r.h
    ensures |row| == 3 * r.w
  {
    RowInBuffer(raw, r, i);
    raw.data[RowStart(raw.stride, r, i)..RowStart(raw.stride, r, i) + 3 * r.w]
  }

  /** The frame bytes of crop r: its rows, each RowBytes, packed one after another. */
  function Cropped(raw: RawBuffer, r: Rect): (out: seq<bv8>)
    requires ValidRaw(raw) && Within(r, raw.width, raw.height)
    ensures |out| == r.h * (3 * r.w)
    decreases r.h
  {
    if r.h == 0 then [] else Cropped(raw, r.(h := r.h - 1)) + RowBytes(raw, r, r.h - 1)
  }

  /** The frame bytes of the first k rows of a crop begin its frame bytes. */
  lemma {:induction false} CroppedPrefix(raw: RawBuffer, r: Rect, k: int)
    requires ValidRaw(raw) && Within(r, raw.width, raw.height) && 0 <= k <= r.h
    ensures Cropped(raw, r.(h := k)) <= Cropped(raw, r)
    decreases r.h
  {
    if k < r.h {
      var prev := r.(h := r.h - 1);
      CroppedPrefix(raw, prev, k);
      assert prev.(h := k) == r.(h := k);
      assert Cropped(raw, prev) <= Cropped(raw, r);
    }
  }

  /** A sequence that begins with pre + row holds row right after pre. */
  lemma SliceAfter<T>(whole: seq<T>, pre: seq<T>, row: seq<T>)
    requires pre + row <= whole
    ensures |pre| + |row| <= |whole| && whole[|pre|..|pre| + |row|] == row
  {
    assert whole[|pre|..|pre| + |row|] == (pre + row)[|pre|..];
  }

  /** Row i of the frame bytes is the row window of source row cy + i. */
  lemma CroppedRow(raw: RawBuffer, r: Rect, i: int)
    requires ValidRaw(raw) && Within(r, raw.width, raw.height) && 0 <= i < r.h
    ensures 0 <= i * (3 * r.w) && i * (3 * r.w) + 3 * r.w <= |Cropped(raw, r)|
    ensures Cropped(raw, r)[i * (3 * r.w)..i * (3 * r.w) + 3 * r.w] == RowBytes(raw, r, i)
  {
    CroppedPrefix(raw, r, i + 1);
    CroppedStep(raw, r, i);
    SliceAfter(Cropped(raw, r), Cropped(raw, r.(h := i)), RowBytes(raw, r, i));
  }

  /** Byte j of frame row i is byte j of source row cy + i, counted from column cx. */
  lemma CroppedAt(raw: RawBuffer, r: Rect, i: int, j: int)
    requires ValidRaw(raw) && Within(r, raw.width, raw.height)
    requires 0 <= i < r.h && 0 <= j < 3 * r.w
    ensures 0 <= i * (3 * r.w) + j < |Cropped(raw, r)|
    ensures 0 <= RowStart(raw.stride, r, i) + j < |raw.data|
    ensures Cropped(raw, r)[i * (3 * r.w) + j] == raw.data[RowStart(raw.stride, r, i) + j]
  {
    RowInBuffer(raw, r, i);
    CroppedRow(raw, r, i);
    assert Cropped(raw, r)[i * (3 * r.w)..i * (3 * r.w) + 3 * r.w][j] == RowBytes(raw, r, i)[j];
  }

  /** Extraction reads only the row windows of the crop: two buffers that agree
      on those bytes give the same frame bytes. */
  lemma {:induction false} CroppedReadsOnlyRows(raw1: RawBuffer, raw2: RawBuffer, r: Rect)
    requires ValidRaw(raw1) && ValidRaw(raw2) && Within(r, raw1.width, raw1.height) && Within(r, raw2.width, raw2.height)
    requires forall i :: 0 <= i < r.h ==> RowBytes(raw1, r, i) == RowBytes(raw2, r, i)
    ensures Cropped(raw1, r) == Cropped(raw2, r)
    decreases r.h
  {
    if r.h > 0 {
      var prev := r.(h := r.h - 1);
      forall i | 0 <= i < prev.h
        ensures RowBytes(raw1, prev, i) == RowBytes(raw2, prev, i)
      {
        assert RowBytes(raw1, prev, i) == RowBytes(raw1, r, i);
        assert RowBytes(raw2, prev, i) == RowBytes(raw2, r, i);
      }
      CroppedReadsOnlyRows(raw1, raw2, prev);
      assert RowBytes(raw1, r, r.h - 1) == RowBytes(raw2, r, r.h - 1);
    }
  }

  /** Adding row i to the first i rows gives the first i + 1 rows. */
  lemma CroppedStep(raw: RawBuffer, r: Rect, i: int)
    requires ValidRaw(raw) && Within(r, raw.width, raw.height) && 0 <= i < r.h
    ensures Cropped(raw, r.(h := i + 1)) == Cropped(raw, r.(h := i)) + RowBytes(raw, r, i)
  {
    assert RowBytes(raw, r.(h := i + 1), i) == RowBytes(raw, r, i);
  }

  /** The offsets get_frame computes for row i of a w-pixel-wide crop of height h. */
  lemma RowOffsets(i: int, w: int, h: int)
    requires 0 <= i < h && 0 <= w
    ensures i * w * 3 == i * (3 * w)
    ensures (i + 1) * (3 * w) == i * (3 * w) + 3 * w
    ensures 0 <= i * (3 * w) && (i + 1) * (3 * w) <= h * (3 * w)
    ensures w * h * 3 == h * (3 * w)
  {
    MulMonotone(i + 1, h, 3 * w);
    MulMonotone(0, i, 3 * w);
  }

  /** The size get_frame computes for a w x h crop, in the order the row loop uses. */
  lemma PackedSize(w: int, h: int)
    requires 0 <= w && 0 <= h
    ensures w * h * 3 == h * (3 * w) && 0 <= h * (3 * w)
  {
    MulMonotone(0, h, 3 * w);
  }

  /** Copying row i of crop r over a buffer that holds the first i rows
      followed by the original bytes gives the first i + 1 rows followed by the
      original bytes. */
  lemma RowCopied(before: seq<bv8>, after: seq<bv8>, orig: seq<bv8>, raw: RawBuffer, r: Rect, i: int, off: int)
    requires ValidRaw(raw) && Within(r, raw.width, raw.height) && 0 <= i < r.h
    requires off == i * (3 * r.w) && 0 <= off && off + 3 * r.w <= |orig|
    requires before == Cropped(raw, r.(h := i)) + orig[off..]
    requires 0 <= RowStart(raw.stride, r, i) && RowStart(raw.stride, r, i) + 3 * r.w <= |raw.data|
    requires after == before[..off] + raw.data[RowStart(raw.stride, r, i)..RowStart(raw.stride, r, i) + 3 * r.w] +
                      before[off + 3 * r.w..]
    ensures after == Cropped(raw, r.(h := i + 1)) + orig[off + 3 * r.w..]
  {
    CroppedStep(raw, r, i);
    assert before[..off] == Cropped(raw, r.(h := i));
    assert before[off + 3 * r.w..] == orig[off + 3 * r.w..];
  }

  // ---------------------------------------------------------------------------
  // Padding bytes in the frame

  /** As written, the row copy keeps the padding byte of the crop's first
      pixel: with a crop at least two pixels wide, frame byte 3 is byte 3 of
      pixel (cx, cy), not byte 0 of pixel (cx + 1, cy). */
  lemma CroppedKeepsPadding(raw: RawBuffer, r: Rect)
    requires ValidRaw(raw) && Within(r, raw.width, raw.height) && 2 <= r.w && 1 <= r.h
    ensures 0 <= PixelOffset(raw.stride, r.x, r.y) + 3 < |raw.data| && 3 < |Cropped(raw, r)|
    ensures Cropped(raw, r)[3] == raw.data[PixelOffset(raw.stride, r.x, r.y) + 3]
  {
    CroppedAt(raw, r, 0, 3);
  }

  /** A one-row crop extracts to the 3 * cw bytes at its start offset. */
  lemma CroppedOneRow(raw: RawBuffer, r: Rect)
    requires ValidRaw(raw) && Within(r, raw.width, raw.height) && r.h == 1
    ensures 0 <= RowStart(raw.stride, r, 0) && RowStart(raw.stride, r, 0) + 3 * r.w <= |raw.data|
    ensures Cropped(raw, r) == raw.data[RowStart(raw.stride, r, 0)..RowStart(raw.stride, r, 0) + 3 * r.w]
  {
    RowInBuffer(raw, r, 0);
    assert Cropped(raw, r.(h := 0)) == [];
  }

  /** The first six bytes of the example row. */
  lemma TwoPixelRowWindow(data: seq<bv8>)
    requires data == [1, 2, 3, 0xFF, 4, 5, 6, 0xFF]
    ensures data[0..6] == [1, 2, 3, 0xFF, 4, 5]
  {
    assert data[0..6] == data[..6];
  }

  /** A 2 x 1 BGRx frame: the extracted row holds the padding byte 0xFF and
      loses the last pixel's third byte. */
  lemma TwoPixelRowAsWritten(raw: RawBuffer)
    requires raw == RawBuffer(2, 1, 8, [1, 2, 3, 0xFF, 4, 5, 6, 0xFF], None)
    ensures ValidRaw(raw) && Cropped(raw, FullFrame(2, 1)) == [1, 2, 3, 0xFF, 4, 5]
  {
    CroppedOneRow(raw, FullFrame(2, 1));
    TwoPixelRowWindow(raw.data);
  }

  /** The w pixels that start at byte `start` packed pixel by pixel: the
      first three bytes of each 4-byte pixel, in order. */
  function PixelRow(data: seq<bv8>, start: int, w: int): (row: seq<bv8>)
    requires 0 <= start && 0 <= w && start + 4 * w <= |data|
    ensures |row| == 3 * w
  {
    seq(3 * w, k requires 0 <= k < 3 * w => data[start + 4 * (k / 3) + k % 3])
  }

  /** The frame bytes of crop r at 3 bytes per pixel, without padding. */
  function PixelPacked(raw: RawBuffer, r: Rect): (out: seq<bv8>)
    requires ValidRaw(raw) && Within(r, raw.width, raw.height)
    ensures |out| == r.h * (3 * r.w)
    decreases r.h
  {
    if r.h == 0 then []
    else
      RowInBuffer(raw, r, r.h - 1);
      PixelPacked(raw, r.(h := r.h - 1)) + PixelRow(raw.data, RowStart(raw.stride, r, r.h - 1), r.w)
  }

  lemma {:induction false} PixelPackedPrefix(raw: RawBuffer, r: Rect, k: int)
    requires ValidRaw(raw) && Within(r, raw.width, raw.height) && 0 <= k <= r.h
    ensures PixelPacked(raw, r.(h := k)) <= PixelPacked(raw, r)
    decreases r.h
  {
    if k < r.h {
      var prev := r.(h := r.h - 1);
      PixelPackedPrefix(raw, prev, k);
      assert prev.(h := k) == r.(h := k);
      assert PixelPacked(raw, prev) <= PixelPacked(raw, r);
    }
  }

  /** Byte c of pixel px of a packed row is byte c of that source pixel. */
  lemma PixelRowAt(data: seq<bv8>, start: int, w: int, px: int, c: int)
    requires 0 <= start && 0 <= w && start + 4 * w <= |data|
    requires 0 <= px < w && 0 <= c < 3
    ensures PixelRow(data, start, w)[3 * px + c] == data[start + 4 * px + c]
  {
    var k := 3 * px + c;
    assert k / 3 == px && k % 3 == c;
  }

  /** Row i of the packed frame is the packed source row cy + i. */
  lemma PixelPackedRow(raw: RawBuffer, r: Rect, i: int)
    requires ValidRaw(raw) && Within(r, raw.width, raw.height) && 0 <= i < r.h
    ensures 0 <= RowStart(raw.stride, r, i) && RowStart(raw.stride, r, i) + 4 * r.w <= |raw.data|
    ensures 0 <= i * (3 * r.w) && i * (3 * r.w) + 3 * r.w <= |PixelPacked(raw, r)|
    ensures PixelPacked(raw, r)[i * (3 * r.w)..i * (3 * r.w) + 3 * r.w] ==
            PixelRow(raw.data, RowStart(raw.stride, r, i), r.w)
  {
    RowInBuffer(raw, r, i);
    PixelPackedPrefix(raw, r, i + 1);
    var row := PixelRow(raw.data, RowStart(raw.stride, r, i), r.w);
    assert PixelPacked(raw, r.(h := i + 1)) == PixelPacked(raw, r.(h := i)) + row;
    SliceAfter(PixelPacked(raw, r), PixelPacked(raw, r.(h := i)), row);
  }

  /** Bytes 3 * (i * cw + px) .. 3 * (i * cw + px) + 2 of the packed frame
      are the colour bytes of source pixel (cx + px, cy + i). */
  lemma PixelPackedAt(raw: RawBuffer, r: Rect, i: int, px: int, c: int)
    requires ValidRaw(raw) && Within(r, raw.width, raw.height)
    requires 0 <= i < r.h && 0 <= px < r.w && 0 <= c < 3
    ensures 0 <= i * (3 * r.w) + 3 * px + c < |PixelPacked(raw, r)|
    ensures 0 <= PixelOffset(raw.stride, r.x + px, r.y + i) + c < |raw.data|
    ensures PixelPacked(raw, r)[i * (3 * r.w) + 3 * px + c] == raw.data[PixelOffset(raw.stride, r.x + px, r.y + i) + c]
  {
    PixelPackedRow(raw, r, i);
    var start := RowStart(raw.stride, r, i);
    PixelRowAt(raw.data, start, r.w, px, c);
    assert PixelPacked(raw, r)[i * (3 * r.w)..i * (3 * r.w) + 3 * r.w][3 * px + c] == PixelRow(raw.data, start, r.w)[3 * px + c];
  }

  /** The two pixels of the example row, each without its padding byte. */
  lemma TwoPixelRowPacked()
    ensures PixelRow([1, 2, 3, 0xFF, 4, 5, 6, 0xFF], 0, 2) == [1, 2, 3, 4, 5, 6]
  {
    var data: seq<bv8> := [1, 2, 3, 0xFF, 4, 5, 6, 0xFF];
    var row := PixelRow(data, 0, 2);
    PixelRowAt(data, 0, 2, 0, 0);
    PixelRowAt(data, 0, 2, 0, 1);
    PixelRowAt(data, 0, 2, 0, 2);
    PixelRowAt(data, 0, 2, 1, 0);
    PixelRowAt(data, 0, 2, 1, 1);
    PixelRowAt(data, 0, 2, 1, 2);
    assert row == [1, 2, 3, 4, 5, 6];
  }

  /** A one-row crop packs to that row's pixels. */
  lemma PixelPackedOneRow(raw: RawBuffer, r: Rect)
    requires ValidRaw(raw) && Within(r, raw.width, raw.height) && r.h == 1
    ensures 0 <= RowStart(raw.stride, r, 0) && RowStart(raw.stride, r, 0) + 4 * r.w <= |raw.data|
    ensures PixelPacked(raw, r) == PixelRow(raw.data, RowStart(raw.stride, r, 0), r.w)
  {
    RowInBuffer(raw, r, 0);
    assert PixelPacked(raw, r.(h := 0)) == [];
  }

  /** On the same 2 x 1 frame, the per-pixel packing drops both padding bytes. */
  lemma TwoPixelRowIntended(raw: RawBuffer)
    requires raw == RawBuffer(2, 1, 8, [1, 2, 3, 0xFF, 4, 5, 6, 0xFF], None)
    ensures ValidRaw(raw) && PixelPacked(raw, FullFrame(2, 1)) == [1, 2, 3, 4, 5, 6]
  {
    PixelPackedOneRow(raw, FullFrame(2, 1));
    TwoPixelRowPacked();
  }

  // ---------------------------------------------------------------------------
  // The crop decision

  /** Producer metadata wins; otherwise content detection unless capturing a
      whole screen; a screen without metadata is taken whole. */
  ghost predicate CropChosen(raw: RawBuffer, t: CaptureType, crop: Rect) {
    match raw.cropMeta
    case Some(meta) => crop == meta
    case None =>
      if t != Screen then IsBounds(raw.data, raw.width, raw.height, raw.stride, crop)
      else crop == FullFrame(raw.width, raw.height)
  }

  /** The crop decision of get_frame (src/wcap.cpp:201-207). */
  method ChooseCrop(raw: RawBuffer, t: CaptureType) returns (crop: Rect)
    requires ValidRaw(raw)
    ensures CropChosen(raw, t, crop)
    ensures Within(crop, raw.width, raw.height)
  {
    crop := FullFrame(raw.width, raw.height);
    if raw.cropMeta.Some? {
      crop := raw.cropMeta.value;
    } else if t != Screen {
      var x, y, w, h := DetectBounds(raw.data, raw.width, raw.height, raw.stride);
      crop := Rect(x, y, w, h);
    }
  }

  /** The crop decision is a function of the buffer and the capture type. */
  lemma CropChoiceUnique(raw: RawBuffer, t: CaptureType, c1: Rect, c2: Rect)
    requires CropChosen(raw, t, c1) && CropChosen(raw, t, c2)
    ensures c1 == c2
  {
    if raw.cropMeta.None? && t != Screen {
      BoundsUnique(raw.data, raw.width, raw.height, raw.stride, c1, c2);
    }
  }

  // ---------------------------------------------------------------------------
  // Buffer primitives

  /** std::memcpy of n bytes from src[srcOff..] to dst[dstOff..]. */
  method Memcpy(dst: array<bv8>, dstOff: int, src: seq<bv8>, srcOff: int, n: int)
    requires 0 <= dstOff && 0 <= n && dstOff + n <= dst.Length
    requires 0 <= srcOff && srcOff + n <= |src|
    modifies dst
    ensures dst[..] == old(dst[..])[..dstOff] + src[srcOff..srcOff + n] + old(dst[..])[dstOff + n..]
  {
    var k := 0;
    while k < n
      invariant 0 <= k <= n
      invariant forall m :: 0 <= m < dst.Length ==>
                  dst[m] == if dstOff <= m < dstOff + k then src[srcOff + m - dstOff] else old(dst[m])
    {
      dst[dstOff + k] := src[srcOff + k];
      k := k + 1;
    }
    assert dst[..] == old(dst[..])[..dstOff] + src[srcOff..srcOff + n] + old(dst[..])[dstOff + n..];
  }

  /** std::vector::resize to a larger size: the old bytes are kept, the new ones are zero. */
  method Grow(a: array<bv8>, n: int) returns (b: array<bv8>)
    requires a.Length <= n
    ensures fresh(b) && b.Length == n
    ensures b[..] == a[..] + seq(n - a.Length, _ => 0)
  {
    b := new bv8[n];
    var k := 0;
    while k < n
      invariant 0 <= k <= n
      invariant forall m :: 0 <= m < k ==> b[m] == if m < a.Length then a[m] else 0
    {
      b[k] := if k < a.Length then a[k] else 0;
      k := k + 1;
    }
    assert b[..] == a[..] + seq(n - a.Length, _ => 0);
  }

  /** The row loop of get_frame (src/wcap.cpp:214-220): row i of crop r is
      copied from the source buffer to dst[i * 3 * r.w..], so the first
      r.h * 3 * r.w bytes of dst become the frame bytes and the rest is kept. */
  method CopyRows(dst: array<bv8>, raw: RawBuffer, r: Rect)
    requires ValidRaw(raw) && Within(r, raw.width, raw.height)
    requires r.w * r.h * 3 <= dst.Length
    modifies dst
    ensures r.w * r.h * 3 == r.h * (3 * r.w)
    ensures dst[..] == Cropped(raw, r) + old(dst[..])[r.h * (3 * r.w)..]
  {
    PackedSize(r.w, r.h);
    ghost var orig := dst[..];
    var i := 0;
    while i < r.h
      invariant 0 <= i <= r.h && 0 <= i * (3 * r.w) <= |orig|
      invariant dst[..] == Cropped(raw, r.(h := i)) + orig[i * (3 * r.w)..]
    {
      CopyRow(dst, raw, r, i, orig);
      i := i + 1;
    }
  }

  /** One iteration of the row loop: memcpy of row i to its place in dst. */
  method CopyRow(dst: array<bv8>, raw: RawBuffer, r: Rect, i: int, ghost orig: seq<bv8>)
    requires ValidRaw(raw) && Within(r, raw.width, raw.height) && 0 <= i < r.h
    requires r.h * (3 * r.w) <= |orig| == dst.Length && 0 <= i * (3 * r.w) <= |orig|
    requires dst[..] == Cropped(raw, r.(h := i)) + orig[i * (3 * r.w)..]
    modifies dst
    ensures 0 <= (i + 1) * (3 * r.w) <= |orig|
    ensures dst[..] == Cropped(raw, r.(h := i + 1)) + orig[(i + 1) * (3 * r.w)..]
  {
    var rowLen := r.w * 3;
    var rowSrc := (r.y + i) * raw.stride + r.x * 4;
    var rowDst := i * r.w * 3;
    RowInBuffer(raw, r, i);
    RowOffsets(i, r.w, r.h);
    ghost var before := dst[..];
    Memcpy(dst, rowDst, raw.data, rowSrc, rowLen);
    RowCopied(before, dst[..], orig, raw, r, i, rowDst);
  }

  // ---------------------------------------------------------------------------
  // The facade

  class ScreenCapture {
    var currentType: CaptureType
    /** The PipeWire node the appsink of a running pipeline reads, or None
        while no pipeline has been launched. */
    var streamNode: Option<uint32>
    /** Impl::frame_buffer, the scratch buffer frames are packed into. */
    var frameBuffer: array<bv8>

    constructor ()
      ensures currentType == Any && streamNode == None && frameBuffer.Length == 0
    {
      currentType := Any;
      streamNode := None;
      frameBuffer := new bv8[0];
    }

    /** select_source: remember the type, negotiate with a fresh portal helper,
        and launch the pipeline only for a non-zero node id. `launched` is
        whether gst_parse_launch succeeded; a failure leaves any earlier
        appsink, which is what get_frame reads from, in place. */
    method SelectSource(t: CaptureType, pid: nat, replies: seq<Portal.Reply>, incoming: seq<Portal.Signal>, launched: bool)
      returns (ok: bool)
      requires |replies| == 3 && Portal.Answered(incoming, 0, replies, 0)
      modifies this
      ensures currentType == t && frameBuffer == old(frameBuffer)
      ensures var id := Portal.GetIdSpec(Portal.HelperModel(Portal.InitialState, incoming, 0, []), t, pid, replies).0;
              ok == (id != 0 && launched) &&
              streamNode == if ok then Some(id) else old(streamNode)
    {
      currentType := t;
      var portal := new Portal.PortalHelper(incoming);
      var id := portal.GetId(t, pid, replies);
      if id == 0 { return false; }
      if !launched { return false; }
      streamNode := Some(id);
      return true;
    }

    /** get_frame after the sample was pulled: `pulled` is None when there was
        no sample, its caps could not be read or its buffer could not be mapped.
        The ghost `crop` is the rectangle that was extracted. */
    method GetFrame(pulled: Option<RawBuffer>) returns (f: Frame, ghost crop: Rect)
      requires pulled.Some? ==> ValidRaw(pulled.value)
      modifies this, frameBuffer
      ensures currentType == old(currentType) && streamNode == old(streamNode)
      ensures streamNode.None? || pulled.None? ==>
                f == EmptyFrame && frameBuffer == old(frameBuffer) && frameBuffer[..] == old(frameBuffer[..])
      ensures streamNode.Some? && pulled.Some? ==>
                var raw := pulled.value;
                var needed := crop.h * (3 * crop.w);
                CropChosen(raw, currentType, crop) && Within(crop, raw.width, raw.height) &&
                f == Frame(crop.w, crop.h, Cropped(raw, crop)) &&
                (old(frameBuffer.Length) <= needed ==> fresh(frameBuffer) && frameBuffer.Length == 0) &&
                (old(frameBuffer.Length) > needed ==>
                   frameBuffer == old(frameBuffer) && frameBuffer[..] == f.data + old(frameBuffer[..])[needed..])
    {
      f, crop := EmptyFrame, Rect(0, 0, 0, 0);
      if streamNode.None? || pulled.None? { return; }
      var raw := pulled.value;
      var chosen := ChooseCrop(raw, currentType);
      crop := chosen;
      var cw, ch := chosen.w, chosen.h;
      var needed := cw * ch * 3;
      if frameBuffer.Length < needed {
        frameBuffer := Grow(frameBuffer, needed);
      }
      CopyRows(frameBuffer, raw, chosen);
      if frameBuffer.Length == needed {
        f := Frame(cw, ch, frameBuffer[..]);
        frameBuffer := new bv8[0];
      } else {
        f := Frame(cw, ch, frameBuffer[..needed]);
      }
    }
  }
}
