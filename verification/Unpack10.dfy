/** Packed 10-bit rows - four samples in five bytes, little endian - and their conversion to P010 and Y210. */
module Unpack10 {
  import opened BitReader
  import opened Memory
  import opened Planes

  type Sample = s: nat | s < 1024

  // ----- one group

  /** The 40 bits of five bytes. */
  function Group(src: seq<byte>, at: nat): (v: nat)
    requires at + 5 <= |src|
    ensures v < 0x100_0000_0000
  {
    var b: seq<int> := src[at..at + 5];
    b[0] + 0x100 * b[1] + 0x1_0000 * b[2] + 0x100_0000 * b[3] + 0x1_0000_0000 * b[4]
  }

  /** (v >> 10 * k) & 0x3ff */
  function Field(v: nat, k: nat): Sample
    requires k < 4
  {
    (if k == 0 then v else if k == 1 then v / 0x400 else if k == 2 then v / 0x10_0000 else v / 0x4000_0000) % 1024
  }

  function PackWord(a: Sample, b: Sample, c: Sample, d: Sample): (v: nat)
    ensures v < 0x100_0000_0000
  {
    a + 0x400 * b + 0x10_0000 * c + 0x4000_0000 * d
  }

  function PackGroup(a: Sample, b: Sample, c: Sample, d: Sample): (s: seq<byte>)
    ensures |s| == 5
  {
    var v := PackWord(a, b, c, d);
    [v % 256, v / 0x100 % 256, v / 0x1_0000 % 256, v / 0x100_0000 % 256, v / 0x1_0000_0000]
  }

  lemma BytesOfWord(v: nat)
    requires v < 0x100_0000_0000
    ensures v == v % 256 + 0x100 * (v / 0x100 % 256) + 0x1_0000 * (v / 0x1_0000 % 256)
                 + 0x100_0000 * (v / 0x100_0000 % 256) + 0x1_0000_0000 * (v / 0x1_0000_0000)
  {
    var v1 := v / 256;
    var v2 := v1 / 256;
    var v3 := v2 / 256;
    var v4 := v3 / 256;
    assert v2 == v / 0x1_0000 && v3 == v / 0x100_0000 && v4 == v / 0x1_0000_0000;
  }

  lemma FieldsOfWord(a: Sample, b: Sample, c: Sample, d: Sample)
    ensures var v := PackWord(a, b, c, d);
            Field(v, 0) == a && Field(v, 1) == b && Field(v, 2) == c && Field(v, 3) == d
  {
    var v := PackWord(a, b, c, d);
    assert v == 1024 * (b + 1024 * (c + 1024 * d)) + a;
    assert v / 0x400 == b + 1024 * (c + 1024 * d);
    assert v / 0x10_0000 == c + 1024 * d;
    assert v / 0x4000_0000 == d;
  }

  // ----- one row

  /** Bytes of n packed samples: five for every group of four, also for a group that is not full. */
  function RowBytes(n: nat): nat {
    if n == 0 then 0 else if n <= 4 then 5 else 5 + RowBytes(n - 4)
  }

  lemma {:induction false} RowBytesGrow(m: nat, n: nat)
    requires m <= n
    ensures RowBytes(m) <= RowBytes(n)
  {
    if n > 4 && m > 4 { RowBytesGrow(m - 4, n - 4); }
  }

  /** The group of sample k lies in the row. */
  lemma {:induction false} GroupInRow(k: nat, n: nat)
    requires k < n
    ensures 5 * (k / 4) + 5 <= RowBytes(n)
  {
    if n > 4 && k >= 4 {
      GroupInRow(k - 4, n - 4);
      assert k / 4 == (k - 4) / 4 + 1;
    }
  }

  /** Sample k of the packed row at byte `off`. */
  function SampleAt(src: seq<byte>, off: nat, k: nat): Sample
    requires off + RowBytes(k + 1) <= |src|
  {
    GroupInRow(k, k + 1);
    Field(Group(src, off + 5 * (k / 4)), k % 4)
  }

  function Nth(s: seq<Sample>, k: nat): Sample {
    if k < |s| then s[k] else 0
  }

  /** The packing of a sample list; a last group of one to three samples is padded. */
  function PackRow(s: seq<Sample>): (d: seq<byte>)
    ensures |d| == RowBytes(|s|)
    decreases |s|
  {
    if |s| == 0 then []
    else PackGroup(Nth(s, 0), Nth(s, 1), Nth(s, 2), Nth(s, 3)) + PackRow(if |s| <= 4 then [] else s[4..])
  }

  lemma GroupRead(src: seq<byte>, at: nat, a: Sample, b: Sample, c: Sample, d: Sample)
    requires at + 5 <= |src| && src[at..at + 5] == PackGroup(a, b, c, d)
    ensures Group(src, at) == PackWord(a, b, c, d)
  {
    var s := src[at..at + 5];
    assert s[0] == src[at] && s[1] == src[at + 1] && s[2] == src[at + 2] && s[3] == src[at + 3] && s[4] == src[at + 4];
    BytesOfWord(PackWord(a, b, c, d));
  }

  /** Reading a packed row gives back every sample, the ones of a padded tail group too. */
  lemma {:induction false} PackedSample(src: seq<byte>, off: nat, s: seq<Sample>, k: nat)
    requires k < |s| && off + RowBytes(|s|) <= |src| && src[off..off + RowBytes(|s|)] == PackRow(s)
    requires off + RowBytes(k + 1) <= |src|
    ensures SampleAt(src, off, k) == s[k]
    decreases |s|
  {
    hide Group, Field, PackGroup, PackWord;
    var row := src[off..off + RowBytes(|s|)];
    var rest := if |s| <= 4 then [] else s[4..];
    SubSlice(src, off, off + RowBytes(|s|), 0, 5);
    assert row[0..5] == PackGroup(Nth(s, 0), Nth(s, 1), Nth(s, 2), Nth(s, 3));
    if k < 4 {
      GroupRead(src, off, Nth(s, 0), Nth(s, 1), Nth(s, 2), Nth(s, 3));
      FieldsOfWord(Nth(s, 0), Nth(s, 1), Nth(s, 2), Nth(s, 3));
      assert k / 4 == 0 && k % 4 == k;
    } else {
      SubSlice(src, off, off + RowBytes(|s|), 5, RowBytes(|s|));
      assert row[5..RowBytes(|s|)] == PackRow(rest);
      assert RowBytes(|s|) == 5 + RowBytes(|rest|);
      PackedSample(src, off + 5, rest, k - 4);
      assert k / 4 == (k - 4) / 4 + 1 && k % 4 == (k - 4) % 4;
    }
  }

  /** A little-endian 16-bit word. */
  function Le16(v: nat): (s: seq<byte>)
    requires v < 0x1_0000
    ensures |s| == 2
  {
    [v % 256, v / 256]
  }

  /** A sample in the high bits of a word. */
  function Word10(s: Sample): (d: seq<byte>)
    ensures |d| == 2
  {
    var v: int := s;
    Le16(64 * v)
  }

  /** n unpacked samples, each in the high bits of a 16-bit word. */
  function UnpackedRow(src: seq<byte>, off: nat, n: nat): (s: seq<byte>)
    requires off + RowBytes(n) <= |src|
    ensures |s| == 2 * n
  {
    if n == 0 then [] else
    RowBytesGrow(n - 1, n);
    UnpackedRow(src, off, n - 1) + Word10(SampleAt(src, off, n - 1))
  }

  /** A sample list as a row of 16-bit words. */
  function WordRow(s: seq<Sample>): (d: seq<byte>)
    ensures |d| == 2 * |s|
  {
    if |s| == 0 then [] else
    WordRow(s[..|s| - 1]) + Word10(s[|s| - 1])
  }

  lemma {:induction false} UnpackPrefix(src: seq<byte>, off: nat, s: seq<Sample>, n: nat)
    requires n <= |s| && off + RowBytes(|s|) <= |src| && src[off..off + RowBytes(|s|)] == PackRow(s)
    requires off + RowBytes(n) <= |src|
    ensures UnpackedRow(src, off, n) == WordRow(s[..n])
  {
    hide SampleAt, PackRow;
    if n > 0 {
      RowBytesGrow(n - 1, n);
      UnpackPrefix(src, off, s, n - 1);
      PackedSample(src, off, s, n - 1);
      assert s[..n][..n - 1] == s[..n - 1] && s[..n][n - 1] == s[n - 1];
    }
  }

  /** Main result on rows: unpacking inverts packing, for every sample list. */
  lemma UnpackInvertsPack(s: seq<Sample>)
    ensures UnpackedRow(PackRow(s), 0, |s|) == WordRow(s)
  {
    hide PackRow, RowBytes, UnpackedRow, WordRow;
    var d := PackRow(s);
    assert d[0..0 + RowBytes(|s|)] == d;
    UnpackPrefix(d, 0, s, |s|);
    assert s[..|s|] == s;
  }

  // ----- the loop

  /** One 16-bit store of a sample shifted left by 6. */
  method StoreSample(dst: array<byte>, at: nat, s: Sample)
    requires at + 2 <= dst.Length
    modifies dst
    ensures dst[..at] == old(dst[..at])
    ensures dst[at..at + 2] == Word10(s)
    ensures dst[at + 2..] == old(dst[at + 2..])
  {
    var v: int := 64 * s as int;
    dst[at] := v % 256;
    dst[at + 1] := v / 256;
  }

  lemma StoredNext(was: seq<byte>, mid: seq<byte>, now: seq<byte>, off: nat, at: nat, end: nat)
    requires off <= at <= end <= |was| == |mid| == |now|
    requires mid[..off] == was[..off] && mid[at..] == was[at..]
    requires now[..at] == mid[..at] && now[end..] == mid[end..]
    ensures now[..off] == was[..off] && now[end..] == was[end..]
    ensures now[off..end] == mid[off..at] + now[at..end]
  {
    assert now[..off] == now[..at][..off] && mid[..off] == mid[..at][..off];
    assert mid[end..] == mid[at..][end - at..] && was[end..] == was[at..][end - at..];
    assert now[off..at] == now[..at][off..] && mid[off..at] == mid[..at][off..];
    assert now[off..end] == now[off..at] + now[at..end];
  }

  /** The first i samples of the row stand at `dOff`, and nothing else of the buffer has changed. */
  ghost predicate Unpacked(now: seq<byte>, was: seq<byte>, dOff: nat, src: seq<byte>, off: nat, i: nat) {
    && off + RowBytes(i) <= |src| && dOff + 2 * i <= |was| == |now|
    && now[..dOff] == was[..dOff]
    && now[dOff..dOff + 2 * i] == UnpackedRow(src, off, i)
    && now[dOff + 2 * i..] == was[dOff + 2 * i..]
  }

  lemma UnpackedNext(now: seq<byte>, mid: seq<byte>, was: seq<byte>, dOff: nat, src: seq<byte>, off: nat, i: nat)
    requires Unpacked(mid, was, dOff, src, off, i) && off + RowBytes(i + 1) <= |src|
    requires |now| == |mid| && dOff + 2 * (i + 1) <= |now|
    requires now[..dOff + 2 * i] == mid[..dOff + 2 * i]
    requires now[dOff + 2 * i..dOff + 2 * (i + 1)] == Word10(SampleAt(src, off, i))
    requires now[dOff + 2 * (i + 1)..] == mid[dOff + 2 * (i + 1)..]
    ensures Unpacked(now, was, dOff, src, off, i + 1)
  {
    hide SampleAt, Word10;
    StoredNext(was, mid, now, dOff, dOff + 2 * i, dOff + 2 * (i + 1));
  }

  /** unpack_le40_to_p010: groups of four, then a tail of one to three. */
  method UnpackLe40(src: seq<byte>, off: nat, dst: array<byte>, dOff: nat, samples: nat)
    requires off + RowBytes(samples) <= |src| && dOff + 2 * samples <= dst.Length
    modifies dst
    ensures Unpacked(dst[..], old(dst[..]), dOff, src, off, samples)
  {
    hide Unpacked, RowBytes;
    ghost var was := dst[..];
    NothingUnpacked(was, dOff, src, off);
    var i := 0;
    while i + 4 <= samples
      invariant i % 4 == 0 && 0 <= i <= samples && Unpacked(dst[..], was, dOff, src, off, i)
    {
      RowBytesGrow(i + 4, samples);
      UnpackSome(src, off, dst, dOff, i, 4, was);
      i := i + 4;
    }
    if i < samples {
      UnpackSome(src, off, dst, dOff, i, samples - i, was);
    }
  }

  lemma NothingUnpacked(was: seq<byte>, dOff: nat, src: seq<byte>, off: nat)
    requires dOff <= |was| && off <= |src|
    ensures Unpacked(was, was, dOff, src, off, 0)
  {
  }

  /** The next n samples, all of one group. */
  method UnpackSome(src: seq<byte>, off: nat, dst: array<byte>, dOff: nat, i: nat, n: nat, ghost was: seq<byte>)
    requires i % 4 == 0 && 1 <= n <= 4
    requires off + RowBytes(i + n) <= |src| && dOff + 2 * (i + n) <= dst.Length
    requires Unpacked(dst[..], was, dOff, src, off, i)
    modifies dst
    ensures Unpacked(dst[..], was, dOff, src, off, i + n)
  {
    hide Field, Group, Unpacked, RowBytes, Word10, SampleAt;
    GroupInRow(i, i + n);
    var v := Group(src, off + 5 * (i / 4));
    for b := 0 to n
      invariant Unpacked(dst[..], was, dOff, src, off, i + b)
    {
      RowBytesGrow(i + b + 1, i + n);
      GroupSample(src, off, i, b);
      ghost var mid := dst[..];
      var at := dOff + 2 * (i + b);
      StoreSample(dst, at, Field(v, b));
      UnpackedNext(dst[..], mid, was, dOff, src, off, i + b);
    }
  }

  lemma GroupSample(src: seq<byte>, off: nat, i: nat, b: nat)
    requires i % 4 == 0 && b < 4 && off + RowBytes(i + b + 1) <= |src| && off + 5 * (i / 4) + 5 <= |src|
    ensures SampleAt(src, off, i + b) == Field(Group(src, off + 5 * (i / 4)), b)
  {
    hide Field, Group, RowBytes;
    assert (i + b) / 4 == i / 4 && (i + b) % 4 == b;
  }

  // ----- NV15 to P010

  /** The unpacked row at `at`. */
  function RowOut(src: seq<byte>, at: nat, width: nat): seq<byte> {
    if at + RowBytes(width) <= |src| then UnpackedRow(src, at, width) else []
  }

  function UnpackedRows(src: seq<byte>, off: nat, stride: nat, width: nat, n: nat): (r: seq<seq<byte>>)
    ensures |r| == n
  {
    if n == 0 then [] else
    StrideRows(stride, 0, n - 1);
    UnpackedRows(src, off, stride, width, n - 1) + [RowOut(src, off + stride * (n - 1), width)]
  }

  /** A packed plane: sample lists row by row, each packed at the stride. */
  ghost predicate PackedPlane(src: seq<byte>, off: nat, stride: nat, width: nat, samples: seq<seq<Sample>>) {
    forall y :: 0 <= y < |samples| ==>
      && |samples[y]| == width && stride * y >= 0 && off + stride * y + RowBytes(width) <= |src|
      && src[off + stride * y..off + stride * y + RowBytes(width)] == PackRow(samples[y])
  }

  function WordRows(samples: seq<seq<Sample>>): seq<seq<byte>> {
    if samples == [] then [] else WordRows(samples[..|samples| - 1]) + [WordRow(samples[|samples| - 1])]
  }

  /** Unpacking the rows of a packed plane gives back every pixel. */
  lemma {:induction false} PlaneInverts(src: seq<byte>, off: nat, stride: nat, width: nat, samples: seq<seq<Sample>>)
    requires PackedPlane(src, off, stride, width, samples)
    ensures UnpackedRows(src, off, stride, width, |samples|) == WordRows(samples)
  {
    hide PackRow, WordRow, UnpackedRow;
    if samples != [] {
      var n := |samples| - 1;
      PlaneInverts(src, off, stride, width, samples[..n]);
      var s := samples[n];
      UnpackPrefix(src, off + stride * n, s, width);
      assert s[..width] == s;
    }
  }

  method UnpackRows(dst: array<byte>, dOff: nat, dStride: nat, src: seq<byte>, sOff: nat, sStride: nat,
                    width: nat, rows: nat)
    requires 2 * width <= dStride && RowBytes(width) <= sStride
    requires dOff + dStride * rows <= dst.Length && sOff + sStride * rows <= |src|
    modifies dst
    ensures RowsDone(dst[..], old(dst[..]), dOff, dStride, 2 * width, rows,
                     UnpackedRows(src, sOff, sStride, width, rows))
  {
    hide RowsDone, RowBytes, UnpackedRow;
    ghost var was := dst[..];
    StrideRows(dStride, 0, rows);
    NoRowsDone(was, dOff, dStride, 2 * width);
    for y := 0 to rows
      invariant RowsDone(dst[..], was, dOff, dStride, 2 * width, y, UnpackedRows(src, sOff, sStride, width, y))
    {
      RowEnd(dStride, y, rows);
      RowEnd(sStride, y, rows);
      var at, from := dOff + dStride * y, sOff + sStride * y;
      ghost var mid := dst[..];
      UnpackLe40(src, from, dst, at, width);
      RowsDoneNext(dst[..], mid, was, dOff, dStride, 2 * width, y, at, UnpackedRows(src, sOff, sStride, width, y),
                   UnpackedRow(src, from, width));
    }
  }

  /** Rows that start at or after `limit` depend only on the bytes from there on. */
  lemma {:induction false} RowsAbove(a: seq<byte>, b: seq<byte>, off: nat, stride: nat, width: nat, n: nat, limit: nat)
    requires limit <= off && |a| == |b| && limit <= |a| && a[limit..] == b[limit..]
    requires n > 0 ==> off + stride * (n - 1) + width <= |a|
    ensures Rows(a, off, stride, width, n) == Rows(b, off, stride, width, n)
  {
    if n > 0 {
      StrideRows(stride, 0, n - 1);
      var at := off + stride * (n - 1);
      if n > 1 { StrideRows(stride, n - 2, n - 1); }
      SubSlice(a, limit, |a|, at - limit, at - limit + width);
      SubSlice(b, limit, |b|, at - limit, at - limit + width);
      assert a[limit..|a|] == a[limit..] && b[limit..|b|] == b[limit..];
      RowsAbove(a, b, off, stride, width, n - 1, limit);
    }
  }

  /** Both planes of an image converted: their first rows show the contents; the padding of those rows and the
    * bytes behind the chroma rows are as they were. */
  ghost predicate Converted(now: seq<byte>, was: seq<byte>, stride: nat, h: nat, width: nat,
                            luma: seq<seq<byte>>, chroma: seq<seq<byte>>)
  {
    && width <= stride && 0 <= stride * h && 0 <= stride * |chroma| && stride * h + stride * |chroma| <= |was| == |now|
    && Rows(now, 0, stride, width, |luma|) == luma
    && Rows(now, stride * h, stride, width, |chroma|) == chroma
    && Rows(now, width, stride, stride - width, |luma|) == Rows(was, width, stride, stride - width, |luma|)
    && Rows(now, stride * h + width, stride, stride - width, |chroma|)
       == Rows(was, stride * h + width, stride, stride - width, |chroma|)
    && now[stride * h + stride * |chroma|..] == was[stride * h + stride * |chroma|..]
  }

  lemma BothPlanes(now: seq<byte>, mid: seq<byte>, was: seq<byte>, stride: nat, h: nat, end: nat, width: nat,
                   luma: seq<seq<byte>>, chroma: seq<seq<byte>>)
    requires end == stride * h && |luma| <= h
    requires RowsDone(mid, was, 0, stride, width, |luma|, luma)
    requires RowsDone(now, mid, end, stride, width, |chroma|, chroma)
    ensures Converted(now, was, stride, h, width, luma, chroma)
  {
    StrideRows(stride, |luma|, h);
    if |luma| > 0 { StrideRows(stride, |luma| - 1, 1); }
    if |chroma| > 0 { StrideRows(stride, |chroma| - 1, 1); }
    RowsBelow(now, mid, 0, stride, width, |luma|, end);
    RowsBelow(now, mid, width, stride, stride - width, |luma|, end);
    RowsAbove(mid, was, end + width, stride, stride - width, |chroma|, stride * |luma|);
    var last := end + stride * |chroma|;
    assert mid[last..] == mid[stride * |luma|..][last - stride * |luma|..];
    assert was[last..] == was[stride * |luma|..][last - stride * |luma|..];
  }

  /** Main result: v4l2sl_nv15_to_p010. The rows are clipped to the source's aligned height; every visible
    * sample arrives, and no other byte of the image - which need not be larger than its VA size - changes. */
  method Nv15ToP010(dst: array<byte>, dStride: nat, src: seq<byte>, sStride: nat, alignedH: nat, width: nat,
                    height: nat)
    requires 2 * width <= dStride && RowBytes(width) <= sStride
    requires dStride * height + dStride * (height / 2) <= dst.Length
    requires sStride * alignedH + sStride * (alignedH / 2) <= |src|
    modifies dst
    ensures Converted(dst[..], old(dst[..]), dStride, height, 2 * width,
              UnpackedRows(src, 0, sStride, width, Least(height, alignedH)),
              UnpackedRows(src, PlaneEnd(sStride, alignedH), sStride, width, Least(height / 2, alignedH / 2)))
  {
    hide RowsDone, UnpackedRows, RowBytes, Converted;
    var rows, half := height, height / 2;
    if rows > alignedH {
      rows := alignedH;
    }
    if half > alignedH / 2 {
      half := alignedH / 2;
    }
    ClipBounds(dStride, rows, height, half, height / 2);
    ClipBounds(sStride, rows, alignedH, half, alignedH / 2);
    ghost var was := dst[..];
    UnpackRows(dst, 0, dStride, src, 0, sStride, width, rows);
    ghost var mid := dst[..];
    UnpackRows(dst, dStride * height, dStride, src, sStride * alignedH, sStride, width, half);
    BothPlanes(dst[..], mid, was, dStride, height, dStride * height, 2 * width,
      UnpackedRows(src, 0, sStride, width, rows), UnpackedRows(src, sStride * alignedH, sStride, width, half));
  }

  /** Where the chroma plane starts. */
  function PlaneEnd(stride: nat, rows: nat): (n: nat) {
    StrideRows(stride, 0, rows);
    stride * rows
  }

  // ----- NV20 to Y210

  /** Word x of a row of 16-bit words. */
  function WordOf(row: seq<byte>, x: nat): (w: seq<byte>)
    requires 2 * x + 2 <= |row|
    ensures |w| == 2
  {
    row[2 * x..2 * x + 2]
  }

  /** n luma words, each followed by the chroma word of the same position: Y U Y V in pairs. */
  function Pairs(y: seq<byte>, uv: seq<byte>, n: nat): (s: seq<byte>)
    requires 2 * n <= |y| && 2 * n <= |uv|
    ensures |s| == 4 * n
  {
    if n == 0 then [] else Pairs(y, uv, n - 1) + (WordOf(y, n - 1) + WordOf(uv, n - 1))
  }

  /** A Y210 row; at an odd width the last pixel is stored twice. */
  function Y210Row(y: seq<byte>, uv: seq<byte>, width: nat): (s: seq<byte>)
    requires 2 * width <= |y| && 2 * width <= |uv|
    ensures |s| == 4 * (width + width % 2)
  {
    Pairs(y, uv, width)
    + if width % 2 == 1 then WordOf(y, width - 1) + WordOf(uv, width - 1) else []
  }

  /** Pixel pair k of a Y210 row is Y U Y V of the two pixels; only the last pixel of an odd width has no V of
    * its own, and repeats U. */
  lemma {:induction false} PixelPair(y: seq<byte>, uv: seq<byte>, width: nat, k: nat)
    requires 2 * width <= |y| && 2 * width <= |uv| && 2 * k < width
    ensures var s := Y210Row(y, uv, width);
            && 8 * k + 8 <= |s|
            && s[8 * k..8 * k + 4] == WordOf(y, 2 * k) + WordOf(uv, 2 * k)
            && s[8 * k + 4..8 * k + 8] == (if 2 * k + 1 < width then WordOf(y, 2 * k + 1) + WordOf(uv, 2 * k + 1)
                                           else WordOf(y, 2 * k) + WordOf(uv, 2 * k))
  {
    var p := Pairs(y, uv, width);
    var s := Y210Row(y, uv, width);
    assert s[..|p|] == p;
    PairAt(y, uv, width, 2 * k);
    SameSlice(p + [], s, |p|, 8 * k, 8 * k + 4);
    if 2 * k + 1 < width {
      PairAt(y, uv, width, 2 * k + 1);
      SameSlice(p + [], s, |p|, 8 * k + 4, 8 * k + 8);
    } else {
      assert s[|p|..] == WordOf(y, 2 * k) + WordOf(uv, 2 * k);
      assert s[8 * k + 4..8 * k + 8] == s[|p|..];
    }
  }

  lemma {:induction false} PairAt(y: seq<byte>, uv: seq<byte>, n: nat, x: nat)
    requires 2 * n <= |y| && 2 * n <= |uv| && x < n
    ensures Pairs(y, uv, n)[4 * x..4 * x + 4] == WordOf(y, x) + WordOf(uv, x)
  {
    var p := Pairs(y, uv, n - 1);
    if x < n - 1 {
      PairAt(y, uv, n - 1, x);
      assert Pairs(y, uv, n)[..|p|] == p[..|p|];
      SameSlice(p, Pairs(y, uv, n), |p|, 4 * x, 4 * x + 4);
    }
  }

  /** The pairs 0..x-1 stand at `at`, and nothing else has changed. */
  ghost predicate Paired(now: seq<byte>, was: seq<byte>, at: nat, y: seq<byte>, uv: seq<byte>, x: nat) {
    && 2 * x <= |y| && 2 * x <= |uv| && at + 4 * x <= |was| == |now|
    && now[..at] == was[..at] && now[at..at + 4 * x] == Pairs(y, uv, x) && now[at + 4 * x..] == was[at + 4 * x..]
  }

  /** Two 16-bit stores: d[0] = y10[x]; d[1] = uv10[x]. */
  method StorePair(dst: array<byte>, at: nat, y: seq<byte>, uv: seq<byte>, x: nat)
    requires at + 4 <= dst.Length && 2 * x + 2 <= |y| && 2 * x + 2 <= |uv|
    modifies dst
    ensures dst[..at] == old(dst[..at])
    ensures dst[at..at + 4] == WordOf(y, x) + WordOf(uv, x)
    ensures dst[at + 4..] == old(dst[at + 4..])
  {
    ghost var was := dst[..];
    CopyBytes(dst, at, y[2 * x..2 * x + 2]);
    ghost var mid := dst[..];
    CopyBytes(dst, at + 2, uv[2 * x..2 * x + 2]);
    StoredNext(was, mid, dst[..], at, at + 2, at + 4);
  }

  method NextPair(dst: array<byte>, at: nat, y: seq<byte>, uv: seq<byte>, x: nat, ghost was: seq<byte>)
    requires at + 4 * x + 4 <= dst.Length && 2 * x + 2 <= |y| && 2 * x + 2 <= |uv|
    requires Paired(dst[..], was, at, y, uv, x)
    modifies dst
    ensures Paired(dst[..], was, at, y, uv, x + 1)
  {
    ghost var mid := dst[..];
    StorePair(dst, at + 4 * x, y, uv, x);
    StoredNext(was, mid, dst[..], at, at + 4 * x, at + 4 * x + 4);
  }

  /** The inner loop of v4l2sl_nv20_to_y210: two pixels at a time, then an odd last one. */
  method InterleaveRow(dst: array<byte>, at: nat, y: seq<byte>, uv: seq<byte>, width: nat)
    requires at + 4 * (width + width % 2) <= dst.Length && 2 * width <= |y| && 2 * width <= |uv|
    modifies dst
    ensures dst[..at] == old(dst[..at])
    ensures dst[at..at + 4 * (width + width % 2)] == Y210Row(y, uv, width)
    ensures dst[at + 4 * (width + width % 2)..] == old(dst[at + 4 * (width + width % 2)..])
  {
    hide Pairs, WordOf;
    ghost var was := dst[..];
    assert Pairs(y, uv, 0) == [];
    var x := 0;
    while x + 1 < width
      invariant x % 2 == 0 && 0 <= x <= width && Paired(dst[..], was, at, y, uv, x)
    {
      NextPair(dst, at, y, uv, x, was);
      NextPair(dst, at, y, uv, x + 1, was);
      x := x + 2;
    }
    if x < width {
      NextPair(dst, at, y, uv, x, was);
      ghost var mid := dst[..];
      StorePair(dst, at + 4 * x + 4, y, uv, x);
      StoredNext(was, mid, dst[..], at, at + 4 * x + 4, at + 4 * x + 8);
    }
  }

  /** Row y of the converted picture. */
  function Y210Out(src: seq<byte>, yAt: nat, uvAt: nat, width: nat): seq<byte> {
    if yAt + RowBytes(width) <= |src| && uvAt + RowBytes(width) <= |src|
    then Y210Row(UnpackedRow(src, yAt, width), UnpackedRow(src, uvAt, width), width) else []
  }

  function Y210Rows(src: seq<byte>, off: nat, stride: nat, width: nat, n: nat): (r: seq<seq<byte>>)
    ensures |r| == n
  {
    if n == 0 then [] else
    StrideRows(stride, 0, n - 1);
    Y210Rows(src, off, stride, width, n - 1)
    + [Y210Out(src, stride * (n - 1), off + stride * (n - 1), width)]
  }

  function Y210Image(ys: seq<seq<Sample>>, uvs: seq<seq<Sample>>, width: nat): seq<seq<byte>>
    requires |ys| == |uvs| && forall i :: 0 <= i < |ys| ==> |ys[i]| == |uvs[i]| == width
  {
    if ys == [] then [] else
    var n := |ys| - 1;
    Y210Image(ys[..n], uvs[..n], width) + [Y210Row(WordRow(ys[n]), WordRow(uvs[n]), width)]
  }

  /** Converting packed planes shows every sample of both, exactly. */
  lemma {:induction false} Y210Inverts(src: seq<byte>, off: nat, stride: nat, width: nat,
                                       ys: seq<seq<Sample>>, uvs: seq<seq<Sample>>)
    requires |ys| == |uvs| && PackedPlane(src, 0, stride, width, ys) && PackedPlane(src, off, stride, width, uvs)
    ensures Y210Rows(src, off, stride, width, |ys|) == Y210Image(ys, uvs, width)
  {
    hide PackRow, WordRow, UnpackedRow, Y210Row;
    if ys != [] {
      var n := |ys| - 1;
      Y210Inverts(src, off, stride, width, ys[..n], uvs[..n]);
      UnpackPrefix(src, stride * n, ys[n], width);
      UnpackPrefix(src, off + stride * n, uvs[n], width);
      assert ys[n][..width] == ys[n] && uvs[n][..width] == uvs[n];
    }
  }

  /** One row through the shared scratch buffer. */
  method ConvertRow(dst: array<byte>, at: nat, scratch: array<byte>, src: seq<byte>, yAt: nat, uvAt: nat, width: nat)
    requires dst != scratch && scratch.Length >= 4 * width
    requires at + 4 * (width + width % 2) <= dst.Length
    requires yAt + RowBytes(width) <= |src| && uvAt + RowBytes(width) <= |src|
    modifies dst, scratch
    ensures dst[..at] == old(dst[..at])
    ensures dst[at..at + 4 * (width + width % 2)] == Y210Out(src, yAt, uvAt, width)
    ensures dst[at + 4 * (width + width % 2)..] == old(dst[at + 4 * (width + width % 2)..])
  {
    hide RowBytes, UnpackedRow, Y210Row;
    UnpackLe40(src, yAt, scratch, 0, width);
    assert scratch[0..2 * width] == UnpackedRow(src, yAt, width);
    ghost var mid := scratch[..];
    UnpackLe40(src, uvAt, scratch, 2 * width, width);
    SameSlice(mid, scratch[..], 2 * width, 0, 2 * width);
    InterleaveRow(dst, at, scratch[0..2 * width], scratch[2 * width..2 * width + 2 * width], width);
  }

  /** Main result: v4l2sl_nv20_to_y210. Without scratch memory nothing is written; otherwise every row shows
    * the interleaved samples and no byte outside the visible rows changes. */
  method Nv20ToY210(dst: array<byte>, dStride: nat, src: seq<byte>, sStride: nat, alignedH: nat, width: nat,
                    height: nat, scratchOk: bool)
    requires 4 * (width + width % 2) <= dStride && RowBytes(width) <= sStride
    requires dStride * height <= dst.Length && sStride * alignedH + sStride * alignedH <= |src|
    modifies dst
    ensures if !scratchOk || width == 0 then dst[..] == old(dst[..])
            else RowsDone(dst[..], old(dst[..]), 0, dStride, 4 * (width + width % 2), Least(height, alignedH),
                   Y210Rows(src, PlaneEnd(sStride, alignedH), sStride, width, Least(height, alignedH)))
  {
    hide RowsDone, RowBytes, Y210Out;
    if width == 0 || !scratchOk {
      return;
    }
    hide PlaneEnd;
    var scratch := new byte[4 * width];
    var rows, w4 := height, 4 * (width + width % 2);
    if rows > alignedH {
      rows := alignedH;
    }
    ClipBounds(dStride, rows, height, 0, 0);
    ClipBounds(sStride, rows, alignedH, 0, 0);
    var uv := sStride * alignedH;
    assert uv == PlaneEnd(sStride, alignedH) by { PlaneEndIs(sStride, alignedH); }
    ghost var was := dst[..];
    NoRowsDone(was, 0, dStride, w4);
    for y := 0 to rows
      invariant RowsDone(dst[..], was, 0, dStride, w4, y, Y210Rows(src, uv, sStride, width, y))
    {
      RowEnd(dStride, y, rows);
      RowEnd(sStride, y, rows);
      var at, from := dStride * y, sStride * y;
      ghost var mid := dst[..];
      ConvertRow(dst, at, scratch, src, from, uv + from, width);
      RowsDoneNext(dst[..], mid, was, 0, dStride, w4, y, at, Y210Rows(src, uv, sStride, width, y),
        Y210Out(src, from, uv + from, width));
    }
  }

  lemma PlaneEndIs(stride: nat, rows: nat)
    ensures PlaneEnd(stride, rows) == stride * rows
  {
  }
}
