/** Extracting the tile payloads of an AV1 picture from the client's span into an OUTPUT buffer, and
  * rebasing the tile-group entries onto the concatenation. */
module Tiles {
  import opened Wrappers
  import opened BitReader
  import opened OrderHint
  import opened Bridge
  import opened Memory
  import opened Pools

  type Word = w: nat | w < WORD  // uint32_t

  /** One slice parameter: where the client says the tile lies, and its place in the grid. */
  datatype Tile = Tile(offset: Word, size: Word, row: nat, col: nat)

  /** One V4L2_CID_STATELESS_AV1_TILE_GROUP_ENTRY element. */
  datatype Entry = Entry(offset: Word, size: Word, row: nat, col: nat)

  /** Bytes of the first n tiles. */
  function Bytes(tiles: seq<Tile>, n: nat): (total: nat)
    requires n <= |tiles|
  {
    if n == 0 then 0 else Bytes(tiles, n - 1) + tiles[n - 1].size
  }

  lemma {:induction false} BytesGrow(tiles: seq<Tile>, m: nat, n: nat)
    requires m <= n <= |tiles|
    ensures Bytes(tiles, m) <= Bytes(tiles, n)
    ensures m < n ==> Bytes(tiles, m) + tiles[m].size <= Bytes(tiles, n)
  {
    if m + 1 < n {
      BytesGrow(tiles, m, n - 1);
    }
  }

  /** The first n tiles lie inside the span and fit the buffer together. */
  ghost predicate FitsUpto(tiles: seq<Tile>, span: Span, capacity: nat, n: nat) {
    && n <= |tiles|
    && (forall i :: 0 <= i < n ==> tiles[i].offset + tiles[i].size <= |span|)
    && Bytes(tiles, n) <= capacity
  }

  ghost predicate Fits(tiles: seq<Tile>, span: Span, capacity: nat) {
    FitsUpto(tiles, span, capacity, |tiles|)
  }

  /** Tile i is accepted although it exceeds the buffer: it lies inside the span, the tiles before it fit, and
    * the 32-bit sum wraps. */
  ghost predicate OverrunsAt(tiles: seq<Tile>, span: Span, capacity: nat, i: nat) {
    && i < |tiles| && FitsUpto(tiles, span, capacity, i)
    && tiles[i].offset + tiles[i].size <= |span| && Bytes(tiles, i) + tiles[i].size >= WORD
  }

  ghost predicate Overruns(tiles: seq<Tile>, span: Span, capacity: nat) {
    exists i: nat :: OverrunsAt(tiles, span, capacity, i)
  }

  function TileBytes(tiles: seq<Tile>, span: Span, i: nat): seq<byte>
    requires i < |tiles| && tiles[i].offset + tiles[i].size <= |span|
  {
    span[tiles[i].offset..tiles[i].offset + tiles[i].size]
  }

  /** The source's test on one tile, in 32-bit arithmetic: `total` bytes are already copied. */
  predicate Refused(t: Tile, span: Span, capacity: nat, total: nat) {
    t.offset > |span| || t.size > |span| - t.offset || (total + t.size) % WORD > capacity
  }

  /** When the 32-bit test is the intended one: exactly when the sum does not wrap. */
  lemma RefusedExact(t: Tile, span: Span, capacity: Word, total: nat)
    requires total <= capacity && t.offset + t.size <= |span|
    ensures (Refused(t, span, capacity, total) <==> total + t.size > capacity) <==> total + t.size < WORD
  {
  }

  /** The test on one tile, exactly. */
  lemma RefusedMeans(t: Tile, span: Span, capacity: Word, total: nat)
    requires total <= capacity
    ensures Refused(t, span, capacity, total) <==>
            t.offset + t.size > |span| || (total + t.size > capacity && total + t.size < WORD)
  {
    if t.offset + t.size <= |span| {
      RefusedExact(t, span, capacity, total);
    }
  }

  /** No tile wraps when the span and the buffer together stay below 2^32 bytes. */
  lemma NeverOverruns(tiles: seq<Tile>, span: Span, capacity: nat)
    requires |span| + capacity < WORD
    ensures !Overruns(tiles, span, capacity)
  {
  }

  /** The bound is sharp: two tiles that both name a span of 2^31 bytes, and a buffer of that size. */
  lemma TwinTilesOverrun(span: Span)
    requires |span| == 0x8000_0000
    ensures var t := Tile(0, 0x8000_0000, 0, 0);
            Overruns([t, t], span, 0x8000_0000) && !Fits([t, t], span, 0x8000_0000)
  {
    var t := Tile(0, 0x8000_0000, 0, 0);
    assert Bytes([t, t], 1) == Bytes([t, t], 0) + 0x8000_0000;
    assert Bytes([t, t], 2) == Bytes([t, t], 1) + 0x8000_0000;
    assert OverrunsAt([t, t], span, 0x8000_0000, 1);
  }

  /** The uint32_t running offset. */
  function Base(tiles: seq<Tile>, n: nat): Word
    requires n <= |tiles|
  {
    Bytes(tiles, n) % WORD
  }

  lemma BaseStep(tiles: seq<Tile>, n: nat)
    requires n < |tiles|
    ensures Base(tiles, n + 1) == (Base(tiles, n) + tiles[n].size) % WORD
  {
    var q, r := DivideBy(Bytes(tiles, n), WORD);
    var q', r' := DivideBy(r + tiles[n].size, WORD);
    assert Bytes(tiles, n + 1) == WORD * (q + q') + r';
  }

  ghost predicate EntriesFor(entries: seq<Entry>, tiles: seq<Tile>) {
    && |entries| <= |tiles|
    && forall i :: 0 <= i < |entries| ==> entries[i] == Entry(Base(tiles, i), tiles[i].size, tiles[i].row, tiles[i].col)
  }

  /** The first loop: `base` is a uint32_t. */
  method FillEntries(tiles: seq<Tile>) returns (entries: seq<Entry>)
    ensures |entries| == |tiles| && EntriesFor(entries, tiles)
  {
    hide Base;
    entries := [];
    var base: Word := 0;
    assert Base(tiles, 0) == 0 by { BaseZero(tiles); }
    for i := 0 to |tiles|
      invariant |entries| == i && base == Base(tiles, i) && EntriesFor(entries, tiles)
    {
      BaseStep(tiles, i);
      entries := entries + [Entry(base, tiles[i].size, tiles[i].row, tiles[i].col)];
      base := (base + tiles[i].size) % WORD;
    }
  }

  lemma BaseZero(tiles: seq<Tile>)
    ensures Base(tiles, 0) == 0
  {
  }

  /** The byte at position j of the buffer belongs to tile i. */
  ghost predicate InEntry(tiles: seq<Tile>, i: nat, j: nat) {
    i < |tiles| && Bytes(tiles, i) <= j < Bytes(tiles, i) + tiles[i].size
  }

  /** The entries cover the submitted bytes: every one belongs to exactly one tile. */
  lemma {:induction false} EntriesPartition(tiles: seq<Tile>, n: nat, j: nat) returns (i: nat)
    requires n <= |tiles| && j < Bytes(tiles, n)
    ensures i < n && InEntry(tiles, i, j)
    ensures forall k: nat :: InEntry(tiles, k, j) ==> k == i
  {
    if j >= Bytes(tiles, n - 1) {
      i := n - 1;
    } else {
      i := EntriesPartition(tiles, n - 1, j);
    }
    forall k: nat | InEntry(tiles, k, j) ensures k == i {
      if k < i { BytesGrow(tiles, k, i); }
      if i < k { BytesGrow(tiles, i, k); }
    }
  }

  /** Tile i stands at its place at the front of the buffer, before byte `end`. */
  ghost predicate Stands(d: seq<byte>, span: Span, tiles: seq<Tile>, end: nat, i: nat)
    requires i < |tiles|
  {
    && tiles[i].offset + tiles[i].size <= |span|
    && Bytes(tiles, i) + tiles[i].size <= end <= |d|
    && d[Bytes(tiles, i)..Bytes(tiles, i) + tiles[i].size] == TileBytes(tiles, span, i)
  }

  /** The first n tiles stand one after the other at the front of the buffer. */
  ghost predicate Copied(d: seq<byte>, span: Span, tiles: seq<Tile>, n: nat) {
    && n <= |tiles| && Bytes(tiles, n) <= |d|
    && forall i :: 0 <= i < n ==> Stands(d, span, tiles, Bytes(tiles, n), i)
  }

  lemma StandsOn(before: seq<byte>, after: seq<byte>, span: Span, tiles: seq<Tile>, end: nat, end': nat, i: nat)
    requires i < |tiles| && Stands(before, span, tiles, end, i) && end <= end' <= |after|
    requires after[..end] == before[..end]
    ensures Stands(after, span, tiles, end', i)
  {
    hide TileBytes, Bytes;
    SameSlice(before, after, end, Bytes(tiles, i), Bytes(tiles, i) + tiles[i].size);
  }

  lemma CopiedStep(before: seq<byte>, after: seq<byte>, span: Span, tiles: seq<Tile>, n: nat)
    requires n < |tiles| && Copied(before, span, tiles, n) && |after| == |before|
    requires tiles[n].offset + tiles[n].size <= |span| && Bytes(tiles, n + 1) <= |after|
    requires after[..Bytes(tiles, n)] == before[..Bytes(tiles, n)]
    requires after[Bytes(tiles, n)..Bytes(tiles, n + 1)] == TileBytes(tiles, span, n)
    ensures Copied(after, span, tiles, n + 1)
  {
    hide TileBytes;
    var end := Bytes(tiles, n + 1);
    assert Stands(after, span, tiles, end, n);
    hide Stands;
    forall i | 0 <= i < n ensures Stands(after, span, tiles, end, i) {
      StandsOn(before, after, span, tiles, Bytes(tiles, n), end, i);
    }
  }

  /** Overrun: the source would now write past the buffer, and the model stops. */
  datatype Outcome = Accepted | Refusal | Overrun

  /** The tile that overruns is not before tile i, and tile i is not refused. */
  lemma OverrunsLater(tiles: seq<Tile>, span: Span, capacity: Word, i: nat, k: nat)
    requires i < |tiles| && FitsUpto(tiles, span, capacity, i) && OverrunsAt(tiles, span, capacity, k)
    ensures i <= k && !Refused(tiles[i], span, capacity, Bytes(tiles, i))
  {
    hide Bytes, Refused;
    RefusedMeans(tiles[i], span, capacity, Bytes(tiles, i));
    if k < i { BytesGrow(tiles, k, i); }
    if i < k { BytesGrow(tiles, i, k); }
  }

  /** The three outcomes exclude each other. */
  lemma OneOutcome(tiles: seq<Tile>, span: Span, capacity: Word, i: nat)
    requires i < |tiles| && FitsUpto(tiles, span, capacity, i)
    ensures OverrunsAt(tiles, span, capacity, i) ==> !Fits(tiles, span, capacity)
    ensures Refused(tiles[i], span, capacity, Bytes(tiles, i)) ==>
              !Fits(tiles, span, capacity) && !Overruns(tiles, span, capacity)
  {
    hide Bytes, Refused;
    RefusedMeans(tiles[i], span, capacity, Bytes(tiles, i));
    BytesGrow(tiles, i, |tiles|);
    forall k: nat | OverrunsAt(tiles, span, capacity, k)
      ensures !Refused(tiles[i], span, capacity, Bytes(tiles, i))
    {
      OverrunsLater(tiles, span, capacity, i, k);
    }
  }

  lemma NoneOverruns(tiles: seq<Tile>, span: Span, capacity: Word)
    requires Fits(tiles, span, capacity)
    ensures !Overruns(tiles, span, capacity)
  {
    forall k: nat | OverrunsAt(tiles, span, capacity, k) ensures false {
      BytesGrow(tiles, k, |tiles|);
    }
  }

  /** The copy loop, for all tile parameters: accepted exactly when every tile lies in the span and all of them fit
    * the buffer, overrunning exactly when a tile wraps; the bytes after accepted tiles are untouched. */
  method ExtractTiles(dst: array<byte>, span: Span, tiles: seq<Tile>) returns (r: Outcome, total: nat)
    requires dst.Length < WORD
    modifies dst
    ensures r.Accepted? <==> Fits(tiles, span, dst.Length)
    ensures r.Overrun? <==> Overruns(tiles, span, dst.Length)
    ensures r.Accepted? ==> total == Bytes(tiles, |tiles|) <= dst.Length && Copied(dst[..], span, tiles, |tiles|)
    ensures r.Accepted? ==> dst[total..] == old(dst[total..])
  {
    hide Copied, Overruns;
    total := 0;
    CopiedNone(dst[..], span, tiles);
    for i := 0 to |tiles|
      invariant total == Bytes(tiles, i) && FitsUpto(tiles, span, dst.Length, i)
      invariant Copied(dst[..], span, tiles, i)
      invariant dst[total..] == old(dst[total..])
    {
      var t := tiles[i];
      RefusedMeans(t, span, dst.Length, total);
      OneOutcome(tiles, span, dst.Length, i);
      if t.offset > |span| || t.size > |span| - t.offset || (total + t.size) % WORD > dst.Length {
        return Refusal, total;
      }
      if total + t.size > dst.Length {
        OverrunFound(tiles, span, dst.Length, i);
        return Overrun, total;
      }
      ghost var before := dst[..];
      CopyBytes(dst, total, span[t.offset..t.offset + t.size]);
      CopiedStep(before, dst[..], span, tiles, i);
      total := total + t.size;
    }
    NoneOverruns(tiles, span, dst.Length);
    return Accepted, total;
  }

  lemma OverrunFound(tiles: seq<Tile>, span: Span, capacity: nat, i: nat)
    requires OverrunsAt(tiles, span, capacity, i)
    ensures Overruns(tiles, span, capacity)
  {
  }

  lemma CopiedNone(d: seq<byte>, span: Span, tiles: seq<Tile>)
    ensures Copied(d, span, tiles, 0)
  {
  }

  /** Bytes named by the first n entries. */
  function Covered(entries: seq<Entry>, n: nat): nat
    requires n <= |entries|
  {
    if n == 0 then 0 else Covered(entries, n - 1) + entries[n - 1].size
  }

  /** The entries follow one another without gap and fill the first `total` bytes of the buffer. */
  ghost predicate Contiguous(entries: seq<Entry>, total: nat) {
    && (forall i :: 0 <= i < |entries| ==> entries[i].offset == Covered(entries, i))
    && total == Covered(entries, |entries|)
  }

  /** Each entry names in the buffer the bytes that its tile names in the span. */
  ghost predicate Placed(entries: seq<Entry>, tiles: seq<Tile>, span: Span, d: seq<byte>) {
    && |entries| == |tiles|
    && forall i :: 0 <= i < |tiles| ==>
         && entries[i].row == tiles[i].row && entries[i].col == tiles[i].col && entries[i].size == tiles[i].size
         && tiles[i].offset + tiles[i].size <= |span| && entries[i].offset + entries[i].size <= |d|
         && d[entries[i].offset..entries[i].offset + entries[i].size] == TileBytes(tiles, span, i)
  }

  /** Main result: the entries submitted with an accepted picture are contiguous, and each names in the buffer
    * the very bytes the client's parameters name in the span. A picture without tile parameters is copied
    * whole. The picture is accepted exactly when everything fits, and overruns the buffer exactly when a tile
    * wraps the 32-bit sum. */
  method SubmitTiles(dst: array<byte>, span: Span, tiles: seq<Tile>)
    returns (r: Outcome, total: nat, entries: seq<Entry>)
    requires dst.Length < WORD
    modifies dst
    ensures r.Accepted? <==> if tiles == [] then |span| <= dst.Length else Fits(tiles, span, dst.Length)
    ensures r.Overrun? <==> Overruns(tiles, span, dst.Length)
    ensures r.Accepted? ==> total <= dst.Length && dst[total..] == old(dst[total..])
    ensures r.Accepted? && tiles == [] ==> dst[..total] == span
    ensures |entries| == |tiles|
    ensures r.Accepted? && tiles != [] ==> Contiguous(entries, total)
    ensures r.Accepted? ==> Placed(entries, tiles, span, dst[..])
  {
    hide Fits, Copied, Placed, Contiguous, EntriesFor;
    entries := FillEntries(tiles);
    if tiles == [] {
      total := |span|;
      if |span| > dst.Length {
        return Refusal, total, entries;
      }
      CopyBytes(dst, 0, span);
      assert dst[..|span|] == dst[0..0 + |span|];
      NothingPlaced(span, dst[..]);
      return Accepted, total, entries;
    }
    r, total := ExtractTiles(dst, span, tiles);
    if r.Accepted? {
      EntriesPlaced(dst[..], span, tiles, entries);
    }
  }

  lemma EntriesPlaced(d: seq<byte>, span: Span, tiles: seq<Tile>, entries: seq<Entry>)
    requires tiles != [] && |entries| == |tiles| && EntriesFor(entries, tiles)
    requires |d| < WORD && Copied(d, span, tiles, |tiles|)
    ensures Contiguous(entries, Bytes(tiles, |tiles|)) && Placed(entries, tiles, span, d)
  {
    forall i | 0 <= i < |tiles| ensures entries[i].offset == Bytes(tiles, i) {
      NoWrap(tiles, i, |d|);
    }
    EntriesContiguous(tiles, entries, |tiles|);
    EntriesNamed(d, span, tiles, entries);
  }

  lemma {:induction false} EntriesContiguous(tiles: seq<Tile>, entries: seq<Entry>, n: nat)
    requires n <= |entries| == |tiles|
    requires forall i :: 0 <= i < |tiles| ==> entries[i].size == tiles[i].size
    ensures forall i :: 0 <= i <= n ==> Covered(entries, i) == Bytes(tiles, i)
  {
    if n > 0 { EntriesContiguous(tiles, entries, n - 1); }
  }

  lemma EntriesNamed(d: seq<byte>, span: Span, tiles: seq<Tile>, entries: seq<Entry>)
    requires |entries| == |tiles| && EntriesFor(entries, tiles) && Copied(d, span, tiles, |tiles|)
    requires forall i :: 0 <= i < |tiles| ==> entries[i].offset == Bytes(tiles, i)
    ensures Placed(entries, tiles, span, d)
  {
    hide TileBytes, Bytes, Base;
    forall i | 0 <= i < |tiles| ensures Stands(d, span, tiles, Bytes(tiles, |tiles|), i) {
    }
  }

  lemma NothingPlaced(span: Span, d: seq<byte>)
    ensures Placed([], [], span, d)
  {
  }

  lemma NoWrap(tiles: seq<Tile>, i: nat, capacity: Word)
    requires i < |tiles| && Bytes(tiles, |tiles|) <= capacity
    ensures Base(tiles, i) == Bytes(tiles, i)
  {
    BytesGrow(tiles, i, |tiles|);
  }

  /** A refused picture leaves the buffer pool, and the rest of the context, as it was. */
  lemma RefusalRestores(s: State)
    requires |s.freeOut| > 0 && NoDup(s.freeOut) && Within(s.freeOut, NUM_OUT)
    ensures FillOutput(s, false) == (s, None)
  {
    var rest, out := s.freeOut[..|s.freeOut| - 1], s.freeOut[|s.freeOut| - 1];
    assert s.freeOut == rest + [out];
    assert out in s.freeOut;
    Pigeonhole(s.freeOut, NUM_OUT);
    assert out !in rest;
  }
}
