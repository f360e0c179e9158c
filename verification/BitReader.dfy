/** The bit reader of the AV1 header parser, and the bit strings it reads. */
module BitReader {
  import opened OrderHint

  type byte = x: int | 0 <= x < 256
  type bit = x: int | 0 <= x < 2

  const OVERRUN := 0xffff_ffff_ffff_ffff  // (size_t)-1
  const SPAN_LIMIT := 0x1_0000_0000       // buffer sizes are 32-bit

  /** The data of one reader: sizes come from 32-bit buffer lengths. */
  type Span = d: seq<byte> | |d| < SPAN_LIMIT witness []

  /** Bit i of the data, most significant bit of each byte first. */
  function BitAt(d: seq<byte>, i: nat): bit
    requires i < 8 * |d|
  {
    d[i / 8] / Pow2(7 - i % 8) % 2
  }

  /** Reading nb bits from position `pos`: the 32-bit value and the new position. Running past the end
    * yields 0 and the overrun marker. */
  function Read(d: Span, pos: nat, nb: nat): (nat, nat) {
    if nb == 0 then (0, pos) else
    var (v, p) := Read(d, pos, nb - 1);
    if p / 8 >= |d| then (0, OVERRUN) else ((2 * v + BitAt(d, p)) % WORD, p + 1)
  }

  /** v in nb bits, most significant first. */
  function ToBits(v: nat, nb: nat): (s: seq<bit>)
    ensures |s| == nb
  {
    if nb == 0 then [] else ToBits(v / 2, nb - 1) + [v % 2]
  }

  /** The bit string `bits` stands at position `pos` of the data. */
  ghost predicate At(d: seq<byte>, pos: nat, bits: seq<bit>) {
    pos + |bits| <= 8 * |d| && forall i :: 0 <= i < |bits| ==> BitAt(d, pos + i) == bits[i]
  }

  lemma AtSplit(d: seq<byte>, pos: nat, a: seq<bit>, b: seq<bit>)
    ensures At(d, pos, a + b) <==> At(d, pos, a) && At(d, pos + |a|, b)
  {
    var s := a + b;
    if At(d, pos, s) {
      forall i | 0 <= i < |a| ensures BitAt(d, pos + i) == a[i] { assert s[i] == a[i]; }
      forall i | 0 <= i < |b| ensures BitAt(d, pos + |a| + i) == b[i] {
        assert s[|a| + i] == b[i] && BitAt(d, pos + (|a| + i)) == s[|a| + i];
      }
    }
    if At(d, pos, a) && At(d, pos + |a|, b) {
      forall i | 0 <= i < |s| ensures BitAt(d, pos + i) == s[i] {
        if i >= |a| { assert BitAt(d, pos + |a| + (i - |a|)) == b[i - |a|]; }
      }
    }
  }

  /** Once past the end, every further read stays past the end: no later field un-fails a parse. */
  lemma {:induction false} OverrunSticky(d: Span, nb: nat)
    ensures Read(d, OVERRUN, nb) == (0, OVERRUN)
  {
    if nb > 0 { OverrunSticky(d, nb - 1); }
  }

  /** A read that overruns early overruns as a whole. */
  lemma {:induction false} OverrunStays(d: Span, pos: nat, j: nat, nb: nat)
    requires j <= nb && Read(d, pos, j).1 / 8 >= |d| && j < nb
    ensures Read(d, pos, nb) == (0, OVERRUN)
  {
    if j < nb - 1 { OverrunStays(d, pos, j, nb - 1); }
  }

  /** A read inside the data advances by nb and returns the number those bits spell; any other overruns. */
  lemma {:induction false} ReadExact(d: Span, pos: nat, nb: nat)
    requires nb <= 32
    ensures pos + nb <= 8 * |d| ==>
              var (v, p) := Read(d, pos, nb); p == pos + nb && v < Pow2(nb) && At(d, pos, ToBits(v, nb))
    ensures pos + nb > 8 * |d| && nb > 0 ==> Read(d, pos, nb) == (0, OVERRUN)
  {
    hide Pow2;
    if nb == 0 {
      assert Pow2(0) == 1 by { Pow2Zero(); }
    } else {
      ReadExact(d, pos, nb - 1);
      if pos + nb <= 8 * |d| {
        var (u, q) := Read(d, pos, nb - 1);
        var b := BitAt(d, q);
        AppendBit(u, b, nb);
        OneBitMore(d, pos, ToBits(u, nb - 1), b);
      } else if pos + (nb - 1) <= 8 * |d| {
        assert Read(d, pos, nb - 1).1 == pos + (nb - 1);
      }
    }
  }

  lemma Pow2Zero()
    ensures Pow2(0) == 1
  {
  }

  lemma OneBitMore(d: seq<byte>, pos: nat, s: seq<bit>, b: bit)
    requires At(d, pos, s) && pos + |s| < 8 * |d| && BitAt(d, pos + |s|) == b
    ensures At(d, pos, s + [b])
  {
    AtSplit(d, pos, s, [b]);
  }

  /** One more bit does not wrap the 32-bit accumulator. */
  lemma AppendBit(u: nat, b: bit, nb: nat)
    requires 0 < nb <= 32 && u < Pow2(nb - 1)
    ensures (2 * u + b) % WORD == 2 * u + b < Pow2(nb)
    ensures ToBits(2 * u + b, nb) == ToBits(u, nb - 1) + [b]
  {
    FitsWord(nb);
    assert (2 * u + b) / 2 == u && (2 * u + b) % 2 == b;
  }

  lemma FitsWord(nb: nat)
    requires nb <= 32
    ensures Pow2(nb) <= WORD
  {
    WordIsPow2();
    Pow2Grows(nb, 32);
    TimesBound(Pow2(32 - nb), Pow2(nb));
  }

  /** Bit strings determine their number. */
  lemma {:induction false} ToBitsInjective(v: nat, w: nat, nb: nat)
    requires v < Pow2(nb) && w < Pow2(nb) && ToBits(v, nb) == ToBits(w, nb)
    ensures v == w
  {
    if nb > 0 {
      var s, t := ToBits(v / 2, nb - 1), ToBits(w / 2, nb - 1);
      assert s == (s + [v % 2])[..nb - 1] && t == (t + [w % 2])[..nb - 1];
      assert v % 2 == (s + [v % 2])[nb - 1] == (t + [w % 2])[nb - 1] == w % 2;
      ToBitsInjective(v / 2, w / 2, nb - 1);
    }
  }

  lemma SameBits(d: seq<byte>, pos: nat, a: seq<bit>, b: seq<bit>)
    requires At(d, pos, a) && At(d, pos, b) && |a| == |b|
    ensures a == b
  {
    forall i | 0 <= i < |a| ensures a[i] == b[i] {
      assert BitAt(d, pos + i) == a[i];
    }
  }

  /** Main result: reading is the inverse of writing. A read succeeds with v if and only if v fits and its
    * nb bits stand at the position. */
  lemma ReadInverse(d: Span, pos: nat, nb: nat, v: nat)
    requires nb <= 32 && pos <= 8 * |d|
    ensures Read(d, pos, nb) == (v, pos + nb) <==> v < Pow2(nb) && At(d, pos, ToBits(v, nb))
  {
    ReadExact(d, pos, nb);
    if v < Pow2(nb) && At(d, pos, ToBits(v, nb)) {
      var u := Read(d, pos, nb).0;
      SameBits(d, pos, ToBits(u, nb), ToBits(v, nb));
      ToBitsInjective(u, v, nb);
    }
  }

  // ----- packing bit strings into bytes

  function BitOr0(s: seq<bit>, i: nat): bit {
    if i < |s| then s[i] else 0
  }

  function PackByte(s: seq<bit>): byte {
    128 * BitOr0(s, 0) + 64 * BitOr0(s, 1) + 32 * BitOr0(s, 2) + 16 * BitOr0(s, 3)
    + 8 * BitOr0(s, 4) + 4 * BitOr0(s, 5) + 2 * BitOr0(s, 6) + BitOr0(s, 7)
  }

  /** A bit string as bytes, padded with zero bits. */
  function Pack(s: seq<bit>): seq<byte>
    decreases |s|
  {
    if |s| == 0 then []
    else if |s| <= 8 then [PackByte(s)]
    else [PackByte(s[..8])] + Pack(s[8..])
  }

  /** The first k bits of a byte as a number, and the rest of it. */
  lemma SplitByte(v: int, m: int, hi: int, b: bit, lo: int)
    requires m > 0 && 0 <= lo < m && v == m * (2 * hi + b) + lo
    ensures v / m % 2 == b
  {
    var q, r := DivideBy(v, m);
    assert m * q + r == m * (2 * hi + b) + lo;
    assert m * (q - (2 * hi + b)) == lo - r;
    TimesBound(q - (2 * hi + b), m);
  }

  lemma PackByteBits(s: seq<bit>, d: seq<byte>, k: nat)
    requires k < 8 && |d| > 0 && d[0] == PackByte(s)
    ensures BitAt(d, k) == BitOr0(s, k)
  {
    var b0: int, b1: int, b2: int, b3: int := BitOr0(s, 0), BitOr0(s, 1), BitOr0(s, 2), BitOr0(s, 3);
    var b4: int, b5: int, b6: int, b7: int := BitOr0(s, 4), BitOr0(s, 5), BitOr0(s, 6), BitOr0(s, 7);
    assert Pow2(0) == 1 && Pow2(1) == 2 && Pow2(2) == 4 && Pow2(3) == 8;
    assert Pow2(4) == 16 && Pow2(5) == 32 && Pow2(6) == 64 && Pow2(7) == 128;
    var v := d[0];
    if k == 0 { SplitByte(v, 128, 0, b0, 64 * b1 + 32 * b2 + 16 * b3 + 8 * b4 + 4 * b5 + 2 * b6 + b7); }
    if k == 1 { SplitByte(v, 64, b0, b1, 32 * b2 + 16 * b3 + 8 * b4 + 4 * b5 + 2 * b6 + b7); }
    if k == 2 { SplitByte(v, 32, 2 * b0 + b1, b2, 16 * b3 + 8 * b4 + 4 * b5 + 2 * b6 + b7); }
    if k == 3 { SplitByte(v, 16, 4 * b0 + 2 * b1 + b2, b3, 8 * b4 + 4 * b5 + 2 * b6 + b7); }
    if k == 4 { SplitByte(v, 8, 8 * b0 + 4 * b1 + 2 * b2 + b3, b4, 4 * b5 + 2 * b6 + b7); }
    if k == 5 { SplitByte(v, 4, 16 * b0 + 8 * b1 + 4 * b2 + 2 * b3 + b4, b5, 2 * b6 + b7); }
    if k == 6 { SplitByte(v, 2, 32 * b0 + 16 * b1 + 8 * b2 + 4 * b3 + 2 * b4 + b5, b6, b7); }
    if k == 7 { SplitByte(v, 1, 64 * b0 + 32 * b1 + 16 * b2 + 8 * b3 + 4 * b4 + 2 * b5 + b6, b7, 0); }
  }

  /** Packed bits stand at the front, whatever follows. */
  lemma {:induction false} PackAt(s: seq<bit>, tail: seq<byte>)
    ensures At(Pack(s) + tail, 0, s)
    decreases |s|
  {
    var d := Pack(s) + tail;
    if |s| > 8 {
      var rest := Pack(s[8..]) + tail;
      PackAt(s[8..], tail);
      assert d == [d[0]] + rest;
      assert 8 * |d| == 8 + 8 * |rest|;
      forall i | 0 <= i < |s| ensures BitAt(d, 0 + i) == s[i] {
        if i < 8 {
          PackByteBits(s[..8], d, i);
        } else {
          assert i / 8 == (i - 8) / 8 + 1 && i % 8 == (i - 8) % 8;
          assert d[i / 8] == rest[(i - 8) / 8];
          assert BitAt(rest, 0 + (i - 8)) == s[8..][i - 8];
        }
      }
    } else if |s| > 0 {
      forall i | 0 <= i < |s| ensures BitAt(d, 0 + i) == s[i] {
        PackByteBits(s, d, i);
      }
    }
  }

  // ----- the reader in place

  class Reader {
    const d: Span
    var pos: nat  // `bit` of struct av1_br

    constructor (d: Span)
      ensures this.d == d && pos == 0
    {
      this.d := d;
      pos := 0;
    }

    method F(nb: nat) returns (v: nat)
      modifies this`pos
      ensures (v, pos) == Read(d, old(pos), nb)
    {
      v := 0;
      for j := 0 to nb
        invariant (v, pos) == Read(d, old(pos), j)
      {
        if pos / 8 >= |d| {
          OverrunStays(d, old(pos), j, nb);
          pos := OVERRUN;
          return 0;
        }
        v := (2 * v + BitAt(d, pos)) % WORD;
        pos := pos + 1;
      }
    }
  }
}
