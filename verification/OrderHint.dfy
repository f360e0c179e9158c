/** Modular order-hint arithmetic and the skip-mode choice of AV1. */
module OrderHint {
  const WORD := 0x1_0000_0000  // unsigned int

  function Pow2(n: nat): (p: int)
    ensures p > 0
  {
    if n == 0 then 1 else 2 * Pow2(n - 1)
  }

  lemma {:induction false} Pow2Grows(a: nat, b: nat)
    requires a <= b
    ensures Pow2(b) == Pow2(a) * Pow2(b - a)
    decreases b
  {
    if a < b { Pow2Grows(a, b - 1); }
  }

  /** get_relative_dist: the difference as an unsigned word, its low bits minus its sign bit. For the power
    * of two m the masks `& (m - 1)` and `& m` are the remainder and the bit of weight m. */
  function RelativeDist(a: nat, b: nat, bitsMinus1: nat): int {
    var diff := (a - b) % WORD;
    var m := Pow2(bitsMinus1);
    diff % m - (diff / m) % 2 * m
  }

  /** x and y differ by a multiple of n. */
  ghost predicate Congruent(x: int, y: int, n: int) {
    exists q: int :: x - y == Times(q, n)
  }

  function Times(q: int, n: int): int {
    q * n
  }

  lemma CongruentBy(x: int, y: int, n: int, q: int)
    requires x - y == q * n
    ensures Congruent(x, y, n)
  {
    assert x - y == Times(q, n);
  }

  lemma TimesBound(q: int, n: int)
    requires n > 0
    ensures q >= 1 ==> q * n >= n
    ensures q <= -1 ==> q * n <= -n
  {
    if q >= 1 { assert (q - 1) * n >= 0; }
    if q <= -1 { assert (-1 - q) * n >= 0; }
  }

  lemma CongruentSmall(x: int, y: int, n: int)
    requires n > 0 && Congruent(x, y, n) && -n < x - y < n
    ensures x == y
  {
    var q: int :| x - y == Times(q, n);
    TimesBound(q, n);
  }

  lemma CongruentSub(x: int, x': int, y: int, y': int, n: int)
    requires Congruent(x, x', n) && Congruent(y, y', n)
    ensures Congruent(x - y, x' - y', n)
  {
    var p: int :| x - x' == Times(p, n);
    var q: int :| y - y' == Times(q, n);
    assert (p - q) * n == p * n - q * n;
    CongruentBy(x - y, x' - y', n, p - q);
  }

  lemma CongruentTrans(x: int, y: int, z: int, n: int)
    requires Congruent(x, y, n) && Congruent(x, z, n)
    ensures Congruent(y, z, n)
  {
    var p: int :| x - y == Times(p, n);
    var q: int :| x - z == Times(q, n);
    assert (q - p) * n == q * n - p * n;
    CongruentBy(y, z, n, q - p);
  }

  lemma DivideBy(x: int, m: int) returns (quo: int, rem: int)
    requires m > 0
    ensures quo == x / m && rem == x % m && x == m * quo + rem && 0 <= rem < m
  {
    quo, rem := x / m, x % m;
  }

  lemma WordIsPow2()
    ensures Pow2(32) == WORD
  {
    Pow2Widths();
    Pow2Grows(8, 16);
    assert Pow2(16) == 65536;
    Pow2Grows(16, 32);
  }

  lemma Pow2Widths()
    ensures Pow2(1) == 2 && Pow2(2) == 4 && Pow2(3) == 8 && Pow2(8) == 256
  {
    assert Pow2(4) == 16;
  }

  /** The whole word is a multiple of twice any sign weight. */
  lemma WordMultiple(bitsMinus1: nat) returns (k: int)
    requires bitsMinus1 <= 31
    ensures WORD == k * (2 * Pow2(bitsMinus1))
  {
    WordIsPow2();
    Pow2Grows(bitsMinus1 + 1, 32);
    k := Pow2(31 - bitsMinus1);
    assert Pow2(bitsMinus1 + 1) == 2 * Pow2(bitsMinus1);
    assert 32 - (bitsMinus1 + 1) == 31 - bitsMinus1;
    Commutes(Pow2(bitsMinus1 + 1), k);
  }

  lemma Commutes(a: int, b: int)
    ensures a * b == b * a
  {
  }

  lemma SplitBits(m: int, k: int, w: int, h: int, bit: int, rem: int)
    ensures k * (2 * m) * w + (m * (2 * h + bit) + rem) - (rem - bit * m) == (k * w + h + bit) * (2 * m)
  {
    assert k * (2 * m) * w == (k * w) * (2 * m);
    assert m * (2 * h + bit) == h * (2 * m) + bit * m;
    assert (k * w + h + bit) * (2 * m) == (k * w) * (2 * m) + h * (2 * m) + bit * (2 * m);
  }

  /** The distance is congruent to a - b modulo twice the sign weight, and lies in the signed range. */
  lemma DistanceCongruent(a: nat, b: nat, bitsMinus1: nat)
    requires bitsMinus1 <= 31
    ensures -Pow2(bitsMinus1) <= RelativeDist(a, b, bitsMinus1) < Pow2(bitsMinus1)
    ensures Congruent(a - b, RelativeDist(a, b, bitsMinus1), 2 * Pow2(bitsMinus1))
  {
    var m := Pow2(bitsMinus1);
    var w, diff := DivideBy(a - b, WORD);
    var quo, rem := DivideBy(diff, m);
    var bit, h := quo % 2, quo / 2;
    assert quo == 2 * h + bit;
    var r := rem - bit * m;
    assert r == RelativeDist(a, b, bitsMinus1);
    var k := WordMultiple(bitsMinus1);
    SplitBits(m, k, w, h, bit, rem);
    assert a - b == k * (2 * m) * w + (m * (2 * h + bit) + rem);
    CongruentBy(a - b, r, 2 * m, k * w + h + bit);
    assert bit == 0 || bit == 1;
  }

  /** Main result on distances: the value is the only representative of a - b in the signed range. */
  lemma DistanceUnique(a: nat, b: nat, bitsMinus1: nat, r: int)
    requires bitsMinus1 <= 31
    ensures (-Pow2(bitsMinus1) <= r < Pow2(bitsMinus1) && Congruent(a - b, r, 2 * Pow2(bitsMinus1)))
            <==> r == RelativeDist(a, b, bitsMinus1)
  {
    hide RelativeDist, Congruent;
    var m := Pow2(bitsMinus1);
    DistanceCongruent(a, b, bitsMinus1);
    if -m <= r < m && Congruent(a - b, r, 2 * m) {
      CongruentTrans(a - b, r, RelativeDist(a, b, bitsMinus1), 2 * m);
      CongruentSmall(r, RelativeDist(a, b, bitsMinus1), 2 * m);
    }
  }

  /** Comparing two hints directly agrees with comparing their distances from a third one, unless those
    * distances are a full sign weight apart; then the direct comparison wraps. */
  lemma DistanceDifference(a: nat, b: nat, c: nat, bitsMinus1: nat)
    requires bitsMinus1 <= 31
    ensures var m := Pow2(bitsMinus1);
            var d := RelativeDist(a, c, bitsMinus1) - RelativeDist(b, c, bitsMinus1);
            && (-m <= d < m ==> RelativeDist(a, b, bitsMinus1) == d)
            && (d == m ==> RelativeDist(a, b, bitsMinus1) == -m)
  {
    hide RelativeDist, Congruent;
    var m := Pow2(bitsMinus1);
    var da, db := RelativeDist(a, c, bitsMinus1), RelativeDist(b, c, bitsMinus1);
    DistanceCongruent(a, c, bitsMinus1);
    DistanceCongruent(b, c, bitsMinus1);
    CongruentSub(a - c, da, b - c, db, 2 * m);
    assert (a - c) - (b - c) == a - b;
    if -m <= da - db < m {
      DistanceUnique(a, b, bitsMinus1, da - db);
    } else if da - db == m {
      WrapsOnce(a - b, m);
      DistanceUnique(a, b, bitsMinus1, -m);
    }
  }

  lemma WrapsOnce(x: int, m: int)
    requires Congruent(x, m, 2 * m)
    ensures Congruent(x, -m, 2 * m)
  {
    var q: int :| x - m == Times(q, 2 * m);
    assert (q + 1) * (2 * m) == q * (2 * m) + 2 * m;
    CongruentBy(x, -m, 2 * m, q + 1);
  }
}
