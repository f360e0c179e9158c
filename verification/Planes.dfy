/** Plane copies between the NV12 layouts of a surface: the capture layout (chroma after the aligned height)
  * and the image layout (chroma after the visible height). */
module Planes {
  import opened BitReader
  import opened Memory
  import OrderHint

  /** The visible bytes of a picture: h rows of w luma bytes, and (h + 1) / 2 rows of chroma pairs. */
  datatype Image = Image(y: seq<seq<byte>>, uv: seq<seq<byte>>)

  /** Bytes of a chroma row: w + (w & 1). */
  function UvWidth(w: nat): nat {
    w + w % 2
  }

  function UvRows(h: nat): nat {
    (h + 1) / 2
  }

  function RowAt(d: seq<byte>, at: nat, width: nat): seq<byte> {
    if at + width <= |d| then d[at..at + width] else []
  }

  /** n rows of a plane that starts at byte `off`. */
  function Rows(d: seq<byte>, off: nat, stride: nat, width: nat, n: nat): (r: seq<seq<byte>>)
    ensures |r| == n
  {
    if n == 0 then [] else Rows(d, off, stride, width, n - 1) + [RowAt(d, off + stride * (n - 1), width)]
  }

  /** The picture a buffer holds whose chroma starts at row `uvRow`. */
  function ImageAt(d: seq<byte>, stride: nat, uvRow: nat, w: nat, h: nat): Image {
    Image(Rows(d, 0, stride, w, h), Rows(d, stride * uvRow, stride, UvWidth(w), UvRows(h)))
  }

  /** The first rows of both planes, w bytes of each. */
  function ClipAt(d: seq<byte>, stride: nat, uvRow: nat, w: nat, luma: nat, chroma: nat): Image {
    Image(Rows(d, 0, stride, w, luma), Rows(d, stride * uvRow, stride, w, chroma))
  }

  /** What vaGetImage and vaPutImage transfer: w chroma bytes of h / 2 rows. */
  function CropAt(d: seq<byte>, stride: nat, uvRow: nat, w: nat, h: nat): Image {
    ClipAt(d, stride, uvRow, w, h, h / 2)
  }

  function CutRows(rows: seq<seq<byte>>, width: nat, n: nat): (r: seq<seq<byte>>)
    requires n <= |rows|
    ensures |r| == n
  {
    if n == 0 then []
    else CutRows(rows, width, n - 1) + [if width <= |rows[n - 1]| then rows[n - 1][..width] else rows[n - 1]]
  }

  /** The part of a picture that the image calls transfer. */
  function Crop(p: Image, w: nat, h: nat): Image
    requires h / 2 <= |p.uv|
  {
    Image(p.y, CutRows(p.uv, w, h / 2))
  }

  // ----- arithmetic of rows

  lemma RowEnd(stride: nat, y: nat, rows: nat)
    requires y < rows
    ensures 0 <= stride * y && stride * y + stride == stride * (y + 1) <= stride * rows
  {
    assert stride * rows == stride * (y + 1) + stride * (rows - y - 1);
    assert stride * (rows - y - 1) >= 0;
  }

  lemma StrideRows(stride: nat, a: nat, b: nat)
    ensures stride * (a + b) == stride * a + stride * b
    ensures a <= b ==> stride * a <= stride * b
  {
    if a <= b { assert stride * b == stride * a + stride * (b - a); assert stride * (b - a) >= 0; }
  }

  /** Rows depend only on the bytes of the plane, wherever it lies. */
  lemma {:induction false} RowsMoved(a: seq<byte>, aOff: nat, b: seq<byte>, bOff: nat, stride: nat, width: nat, n: nat)
    requires width <= stride && 0 <= stride * n && aOff + stride * n <= |a| && bOff + stride * n <= |b|
    requires a[aOff..aOff + stride * n] == b[bOff..bOff + stride * n]
    ensures Rows(a, aOff, stride, width, n) == Rows(b, bOff, stride, width, n)
  {
    if n > 0 {
      RowEnd(stride, n - 1, n);
      var k, all := stride * (n - 1), stride * n;
      SubSlice(a, aOff, aOff + all, 0, k);
      SubSlice(b, bOff, bOff + all, 0, k);
      SubSlice(a, aOff, aOff + all, k, k + width);
      SubSlice(b, bOff, bOff + all, k, k + width);
      RowsMoved(a, aOff, b, bOff, stride, width, n - 1);
    }
  }

  lemma RowsSame(a: seq<byte>, b: seq<byte>, off: nat, stride: nat, width: nat, n: nat)
    requires width <= stride && 0 <= stride * n && off + stride * n <= |a| && off + stride * n <= |b|
    requires a[off..off + stride * n] == b[off..off + stride * n]
    ensures Rows(a, off, stride, width, n) == Rows(b, off, stride, width, n)
  {
    RowsMoved(a, off, b, off, stride, width, n);
  }

  /** Narrower rows of the same plane. */
  lemma {:induction false} RowsCut(d: seq<byte>, off: nat, stride: nat, wide: nat, width: nat, m: nat, n: nat)
    requires n <= m && width <= wide <= stride && off + stride * n <= |d|
    ensures CutRows(Rows(d, off, stride, wide, m), width, n) == Rows(d, off, stride, width, n)
  {
    if n > 0 {
      RowEnd(stride, n - 1, n);
      RowsCut(d, off, stride, wide, width, m, n - 1);
      RowsAt(d, off, stride, wide, m, n - 1);
      var at := off + stride * (n - 1);
      SubSlice(d, at, at + wide, 0, width);
    }
  }

  lemma {:induction false} RowsAt(d: seq<byte>, off: nat, stride: nat, width: nat, n: nat, i: nat)
    requires i < n
    ensures stride * i >= 0 && Rows(d, off, stride, width, n)[i] == RowAt(d, off + stride * i, width)
  {
    if i < n - 1 {
      RowsAt(d, off, stride, width, n - 1, i);
    }
  }

  /** A buffer that holds a whole picture in this layout. */
  predicate Holds(size: nat, stride: nat, uvRow: nat, w: nat, h: nat) {
    UvWidth(w) <= stride && h <= uvRow && stride * uvRow + stride * UvRows(h) <= size
  }

  /** v4l2sl_capture_plane_size and v4l2sl_va_image_size of NV12: stride * rows * 3 / 2 in uint32_t. */
  function PlaneSize(stride: nat, rows: nat): (n: nat)
    ensures n >= 0
  {
    SizeNonNegative(stride, rows);
    stride * rows * 3 % OrderHint.WORD / 2
  }

  /** The product does not wrap. */
  predicate Unwrapped(stride: nat, rows: nat) {
    stride * rows * 3 < OrderHint.WORD
  }

  /** A wrapped size does not even hold the luma plane. */
  lemma WrappedSize(stride: nat, rows: nat)
    ensures !Unwrapped(stride, rows) ==> PlaneSize(stride, rows) < stride * rows
  {
    SizeNonNegative(stride, rows);
    var q, r := OrderHint.DivideBy(stride * rows * 3, OrderHint.WORD);
  }

  lemma SizeNonNegative(stride: nat, rows: nat)
    ensures stride * rows >= 0
  {
  }

  /** That size has room for the planes vaGetImage and vaPutImage copy exactly when it has not wrapped, and for
    * the whole picture exactly when, besides, the number of rows is even or exceeds the visible height. */
  lemma PlaneSizeHolds(stride: nat, rows: nat, w: nat, h: nat)
    requires 0 < w && UvWidth(w) <= stride && h <= rows
    ensures 0 <= stride * (rows / 2)
    ensures stride * rows + stride * (rows / 2) <= PlaneSize(stride, rows) <==> Unwrapped(stride, rows)
    ensures Holds(PlaneSize(stride, rows), stride, rows, w, h)
            <==> Unwrapped(stride, rows) && (rows % 2 == 0 || h < rows)
  {
    hide PlaneSize, Unwrapped;
    HalfRows(stride, rows);
    WrappedSize(stride, rows);
    StrideRows(stride, 0, UvRows(h));
    var k := rows / 2;
    if rows % 2 == 0 || h < rows {
      StrideRows(stride, UvRows(h), k);
    } else {
      assert UvRows(h) == k + 1;
      StrideRows(stride, k, 1);
    }
  }

  lemma AreaByHalves(stride: nat, rows: nat)
    ensures 0 <= stride * (rows / 2)
    ensures stride * rows == 2 * (stride * (rows / 2)) + if rows % 2 == 0 then 0 else stride
  {
    var k := rows / 2;
    StrideRows(stride, 0, k);
    StrideRows(stride, k, k);
    StrideRows(stride, 2 * k, rows % 2);
    assert rows == 2 * k + rows % 2;
  }

  /** Three halves of an area of 2 * half bytes, or of one stride more. */
  lemma ThreeHalves(area: nat, half: nat, rest: nat)
    requires area == 2 * half + rest && area * 3 < OrderHint.WORD
    ensures area * 3 % OrderHint.WORD / 2 == area + half + rest / 2
  {
  }

  /** The plane size by chroma rows; an odd number of rows leaves half a row more. */
  lemma HalfRows(stride: nat, rows: nat)
    ensures Unwrapped(stride, rows) ==>
              PlaneSize(stride, rows) == stride * rows + stride * (rows / 2) + if rows % 2 == 0 then 0 else stride / 2
    ensures 0 <= stride * rows && 0 <= stride * (rows / 2)
  {
    AreaByHalves(stride, rows);
    if Unwrapped(stride, rows) {
      ThreeHalves(stride * rows, stride * (rows / 2), if rows % 2 == 0 then 0 else stride);
    }
  }

  // ----- what copy_plane reads

  /** The bytes of its source that copy_plane reads: whole rows in one block when the strides agree, otherwise
    * the last row only up to its width. */
  function CopyReads(dStride: nat, sStride: nat, width: nat, rows: nat): (n: nat)
    ensures width <= sStride ==> n <= sStride * rows
  {
    SizeNonNegative(sStride, rows);
    if dStride == sStride then sStride * rows
    else if rows == 0 then 0
    else
      SizeNonNegative(sStride, rows - 1);
      assert sStride * rows == sStride * (rows - 1) + sStride;
      sStride * (rows - 1) + width
  }

  /** An upload stays inside its source. */
  predicate Uploads(size: nat, boStride: nat, stride: nat, uvRow: nat, w: nat, h: nat) {
    && UvWidth(w) <= stride && h <= uvRow
    && stride * uvRow + CopyReads(boStride, stride, UvWidth(w), UvRows(h)) <= size
  }

  lemma HoldsUploads(size: nat, boStride: nat, stride: nat, uvRow: nat, w: nat, h: nat)
    requires Holds(size, stride, uvRow, w, h)
    ensures Uploads(size, boStride, stride, uvRow, w, h)
  {
  }

  /** Main result on sizes: the upload of cpu memory stays inside it if and only if its size has not wrapped and
    * the height is even, or the strides differ and the chroma row fits in half a stride. */
  lemma CpuUploadExact(boStride: nat, stride: nat, w: nat, h: nat)
    requires 0 < w && 0 < h && UvWidth(w) <= stride
    ensures Uploads(PlaneSize(stride, h), boStride, stride, h, w, h)
            <==> Unwrapped(stride, h) && (h % 2 == 0 || (boStride != stride && UvWidth(w) <= stride / 2))
  {
    hide PlaneSize, Unwrapped;
    HalfRows(stride, h);
    WrappedSize(stride, h);
    var rows := UvRows(h);
    assert stride * rows == stride * (rows - 1) + stride;
    if h % 2 == 0 {
      assert rows == h / 2;
    } else {
      assert rows - 1 == h / 2;
    }
  }

  /** A 64x3 surface whose bo has its stride: 288 bytes are allocated, 320 are read. */
  lemma OddUploadOverruns()
    ensures PlaneSize(64, 3) == 288 && 64 * 3 + CopyReads(64, 64, UvWidth(64), UvRows(3)) == 320
    ensures !Uploads(PlaneSize(64, 3), 64, 64, 3, 64, 3)
  {
    CpuUploadExact(64, 64, 64, 3);
  }

  /** A 32768x43692 surface, of even height: 65536 bytes are allocated, the luma plane has 1431699456 and an upload
    * reads 2147549184. */
  lemma WrappedUploadOverruns()
    ensures PlaneSize(32768, 43692) == 65536 && 32768 * 43692 == 1431699456
    ensures 32768 * 43692 + CopyReads(32768, 32768, UvWidth(32768), UvRows(43692)) == 2147549184
    ensures !Uploads(PlaneSize(32768, 43692), 32768, 32768, 43692, 32768, 43692)
  {
    CpuUploadExact(32768, 32768, 32768, 43692);
  }

  lemma CropIsCrop(d: seq<byte>, stride: nat, uvRow: nat, w: nat, h: nat)
    requires UvWidth(w) <= stride && stride * uvRow >= 0 && stride * uvRow + stride * (h / 2) <= |d|
    ensures CropAt(d, stride, uvRow, w, h) == Crop(ImageAt(d, stride, uvRow, w, h), w, h)
  {
    RowsCut(d, stride * uvRow, stride, UvWidth(w), w, UvRows(h), h / 2);
  }

  /** Equal bytes up to the end of the picture hold the same picture. */
  lemma ImageSame(a: seq<byte>, b: seq<byte>, stride: nat, uvRow: nat, w: nat, h: nat)
    requires Holds(|a|, stride, uvRow, w, h) && |a| <= |b| && b[..|a|] == a
    ensures ImageAt(a, stride, uvRow, w, h) == ImageAt(b, stride, uvRow, w, h)
  {
    var uv := stride * uvRow;
    StrideRows(stride, h, uvRow);
    assert a[..|a|] == b[..|a|];
    SameSlice(a, b, |a|, 0, 0 + stride * h);
    SameSlice(a, b, |a|, uv, uv + stride * UvRows(h));
    RowsSame(a, b, 0, stride, w, h);
    RowsSame(a, b, uv, stride, UvWidth(w), UvRows(h));
  }

  // ----- the copies

  /** copy_plane: one block when the strides agree, row by row otherwise. Every visible byte arrives, and
    * nothing outside the plane changes. */
  method CopyPlane(dst: array<byte>, dOff: nat, dStride: nat, src: seq<byte>, sOff: nat, sStride: nat,
                   width: nat, rows: nat)
    requires width <= dStride && width <= sStride
    requires dOff + dStride * rows <= dst.Length && sOff + CopyReads(dStride, sStride, width, rows) <= |src|
    modifies dst
    ensures Rows(dst[..], dOff, dStride, width, rows) == Rows(src, sOff, sStride, width, rows)
    ensures dst[..dOff] == old(dst[..dOff])
    ensures dst[dOff + dStride * rows..] == old(dst[dOff + dStride * rows..])
  {
    if dStride == sStride {
      CopyBytes(dst, dOff, src[sOff..sOff + sStride * rows]);
      assert dst[..][dOff..dOff + dStride * rows] == dst[dOff..dOff + dStride * rows];
      RowsMoved(dst[..], dOff, src, sOff, dStride, width, rows);
      return;
    }
    CopyRows(dst, dOff, dStride, src, sOff, sStride, width, rows);
  }

  /** Rows that end before `limit` depend only on the bytes before it. */
  lemma {:induction false} RowsBelow(a: seq<byte>, b: seq<byte>, off: nat, stride: nat, width: nat, n: nat, limit: nat)
    requires limit <= |a| && limit <= |b| && a[..limit] == b[..limit]
    requires n > 0 ==> off + stride * (n - 1) + width <= limit
    ensures Rows(a, off, stride, width, n) == Rows(b, off, stride, width, n)
  {
    if n > 0 {
      StrideRows(stride, 0, n - 1);
      var at := off + stride * (n - 1);
      SameSlice(a, b, limit, at, at + width);
      if n > 1 { StrideRows(stride, n - 2, n - 1); }
      RowsBelow(a, b, off, stride, width, n - 1, limit);
    }
  }

  /** A row loop over a plane has done y rows: they show `content`, and every other byte - the padding between
    * the rows, and what lies before and behind them - is as it was. */
  ghost predicate RowsDone(now: seq<byte>, was: seq<byte>, off: nat, stride: nat, width: nat, y: nat,
                           content: seq<seq<byte>>)
  {
    && width <= stride && 0 <= stride * y && off + stride * y <= |was| == |now|
    && Rows(now, off, stride, width, y) == content
    && Rows(now, off + width, stride, stride - width, y) == Rows(was, off + width, stride, stride - width, y)
    && now[..off] == was[..off]
    && now[off + stride * y..] == was[off + stride * y..]
  }

  lemma NoRowsDone(was: seq<byte>, off: nat, stride: nat, width: nat)
    requires width <= stride && off <= |was|
    ensures RowsDone(was, was, off, stride, width, 0, [])
  {
  }

  /** One more row behind rows that end before `limit`. */
  lemma NextRow(now: seq<byte>, mid: seq<byte>, off: nat, stride: nat, width: nat, y: nat, limit: nat, at: nat)
    requires limit <= |now| == |mid| && now[..limit] == mid[..limit]
    requires y > 0 ==> off + stride * (y - 1) + width <= limit
    requires at == off + stride * y && at + width <= |now|
    ensures Rows(now, off, stride, width, y + 1) == Rows(mid, off, stride, width, y) + [now[at..at + width]]
  {
    RowsBelow(now, mid, off, stride, width, y, limit);
  }

  /** One more row. */
  lemma RowsDoneNext(now: seq<byte>, mid: seq<byte>, was: seq<byte>, off: nat, stride: nat, width: nat, y: nat,
                     at: nat, content: seq<seq<byte>>, row: seq<byte>)
    requires RowsDone(mid, was, off, stride, width, y, content)
    requires at == off + stride * y && at + stride <= |now| == |mid|
    requires now[..at] == mid[..at] && now[at..at + width] == row && now[at + width..] == mid[at + width..]
    ensures RowsDone(now, was, off, stride, width, y + 1, content + [row])
  {
    StrideRows(stride, y, 1);
    if y > 0 { StrideRows(stride, y - 1, 1); }
    KeptBehind(now, mid, was, at, at + width, at + stride);
    assert now[..off] == was[..off] by { assert now[..off] == now[..at][..off] && mid[..off] == mid[..at][..off]; }
    NextRow(now, mid, off, stride, width, y, at, at);
    NextRow(now, mid, off + width, stride, stride - width, y, at, at + width);
    NextRow(was, was, off + width, stride, stride - width, y, at, at + width);
  }

  lemma KeptBehind(now: seq<byte>, mid: seq<byte>, was: seq<byte>, at: nat, lo: nat, hi: nat)
    requires at <= lo <= hi <= |now| == |mid| == |was|
    requires now[lo..] == mid[lo..] && mid[at..] == was[at..]
    ensures now[lo..hi] == was[lo..hi] && now[hi..] == was[hi..]
  {
    assert mid[lo..] == mid[at..][lo - at..] && was[lo..] == was[at..][lo - at..];
    assert now[lo..hi] == now[lo..][..hi - lo] && was[lo..hi] == was[lo..][..hi - lo];
    assert now[hi..] == now[lo..][hi - lo..] && was[hi..] == was[lo..][hi - lo..];
  }

  /** The row loop. */
  method CopyRows(dst: array<byte>, dOff: nat, dStride: nat, src: seq<byte>, sOff: nat, sStride: nat,
                  width: nat, rows: nat)
    requires width <= dStride && width <= sStride
    requires dOff + dStride * rows <= dst.Length && (rows > 0 ==> sOff + sStride * (rows - 1) + width <= |src|)
    modifies dst
    ensures RowsDone(dst[..], old(dst[..]), dOff, dStride, width, rows, Rows(src, sOff, sStride, width, rows))
  {
    hide RowsDone;
    ghost var was := dst[..];
    StrideRows(dStride, 0, rows);
    NoRowsDone(was, dOff, dStride, width);
    for y := 0 to rows
      invariant RowsDone(dst[..], was, dOff, dStride, width, y, Rows(src, sOff, sStride, width, y))
    {
      RowEnd(dStride, y, rows);
      StrideRows(sStride, y, rows - 1);
      var at, from := dOff + dStride * y, sOff + sStride * y;
      ghost var mid := dst[..];
      CopyBytes(dst, at, src[from..from + width]);
      RowsDoneNext(dst[..], mid, was, dOff, dStride, width, y, at, Rows(src, sOff, sStride, width, y),
                   src[from..from + width]);
    }
  }

  /** Luma written first, then chroma behind it: the second copy leaves the first alone. */
  lemma TwoPlanes(mid: seq<byte>, after: seq<byte>, stride: nat, uvRow: nat, width: nat, h: nat)
    requires width <= stride && h <= uvRow && |mid| == |after|
    requires 0 <= stride * uvRow <= |after| && mid[..stride * uvRow] == after[..stride * uvRow]
    ensures Rows(after, 0, stride, width, h) == Rows(mid, 0, stride, width, h)
  {
    StrideRows(stride, h, uvRow);
    SameSlice(mid, after, stride * uvRow, 0, 0 + stride * h);
    RowsSame(mid, after, 0, stride, width, h);
  }

  /** v4l2sl_gbm_surface_upload: any layout into the image layout of the bo. */
  method Upload(bo: array<byte>, boStride: nat, src: seq<byte>, stride: nat, uvRow: nat, w: nat, h: nat)
    requires Holds(bo.Length, boStride, h, w, h) && Uploads(|src|, boStride, stride, uvRow, w, h)
    modifies bo
    ensures ImageAt(bo[..], boStride, h, w, h) == ImageAt(src, stride, uvRow, w, h)
  {
    hide Rows;
    StrideRows(stride, h, uvRow);
    CopyPlane(bo, 0, boStride, src, 0, stride, w, h);
    ghost var mid := bo[..];
    CopyPlane(bo, boStride * h, boStride, src, stride * uvRow, stride, UvWidth(w), UvRows(h));
    TwoPlanes(mid, bo[..], boStride, h, w, h);
  }

  /** The row loops of v4l2sl_surface_ensure_memfd: the bo back into the capture layout. */
  method Refill(memfd: array<byte>, stride: nat, uvRow: nat, bo: seq<byte>, boStride: nat, w: nat, h: nat)
    requires Holds(memfd.Length, stride, uvRow, w, h) && Holds(|bo|, boStride, h, w, h)
    modifies memfd
    ensures ImageAt(memfd[..], stride, uvRow, w, h) == ImageAt(bo, boStride, h, w, h)
  {
    hide Rows;
    StrideRows(stride, h, uvRow);
    CopyRows(memfd, 0, stride, bo, 0, boStride, w, h);
    ghost var mid := memfd[..];
    CopyRows(memfd, stride * uvRow, stride, bo, boStride * h, boStride, UvWidth(w), UvRows(h));
    TwoPlanes(mid, memfd[..], stride, uvRow, w, h);
  }

  function Least(a: nat, b: nat): nat {
    if a > b then b else a
  }

  /** v4l2sl_copy_nv12: the rows are clipped to the source's aligned height. */
  method CopyNv12(dst: array<byte>, dStride: nat, src: seq<byte>, stride: nat, uvRow: nat, w: nat, h: nat)
    requires w <= dStride && w <= stride
    requires dStride * h + dStride * (h / 2) <= dst.Length && stride * uvRow + stride * (uvRow / 2) <= |src|
    modifies dst
    ensures ClipAt(dst[..], dStride, h, w, Least(h, uvRow), Least(h / 2, uvRow / 2))
         == ClipAt(src, stride, uvRow, w, Least(h, uvRow), Least(h / 2, uvRow / 2))
    ensures h <= uvRow ==> CropAt(dst[..], dStride, h, w, h) == CropAt(src, stride, uvRow, w, h)
  {
    hide Rows;
    var rows, half := h, h / 2;
    if rows > uvRow {
      rows := uvRow;
    }
    if half > uvRow / 2 {
      half := uvRow / 2;
    }
    ClipBounds(dStride, rows, h, half, h / 2);
    ClipBounds(stride, rows, uvRow, half, uvRow / 2);
    LastRow(stride, w, rows);
    LastRow(stride, w, half);
    CopyRows(dst, 0, dStride, src, 0, stride, w, rows);
    ghost var mid := dst[..];
    CopyRows(dst, dStride * h, dStride, src, stride * uvRow, stride, w, half);
    TwoPlanes(mid, dst[..], dStride, h, w, rows);
  }

  lemma ClipBounds(stride: nat, rows: nat, h: nat, half: nat, chroma: nat)
    requires rows <= h && half <= chroma
    ensures 0 <= stride * rows <= stride * h && 0 <= stride * half <= stride * chroma
  {
    StrideRows(stride, rows, h);
    StrideRows(stride, half, chroma);
  }

  lemma LastRow(stride: nat, width: nat, n: nat)
    requires width <= stride
    ensures n > 0 ==> stride * (n - 1) + width <= stride * n
  {
  }

  /** Main result: uploading a captured frame to the bo at once and refilling the memfd from it on demand
    * shows the very picture an eager snapshot of the frame would have shown - for every width, height, stride
    * and aligned height. */
  method LazySnapshot(capture: seq<byte>, stride: nat, alignedH: nat, boStride: nat, w: nat, h: nat)
    returns (memfd: seq<byte>)
    requires Holds(|capture|, stride, alignedH, w, h) && UvWidth(w) <= boStride
    ensures |memfd| == |capture|
    ensures ImageAt(memfd, stride, alignedH, w, h) == ImageAt(capture, stride, alignedH, w, h)
  {
    hide Rows, Uploads;
    StrideRows(boStride, h, UvRows(h));
    HoldsUploads(|capture|, boStride, stride, alignedH, w, h);
    var bo := new byte[boStride * h + boStride * UvRows(h)];
    Upload(bo, boStride, capture, stride, alignedH, w, h);
    var m := new byte[|capture|];
    Refill(m, stride, alignedH, bo[..], boStride, w, h);
    memfd := m[..];
  }
}
