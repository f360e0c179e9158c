/** The rules that guess an AV1 refresh mask from the occupancy of the eight reference slots. */
module RefreshRules {
  import opened Wrappers
  import opened OrderHint

  const INVALID := 0xffff_ffff  // VA_INVALID_SURFACE
  const NO_SIDS: seq<nat> := [INVALID, INVALID, INVALID, INVALID, INVALID, INVALID, INVALID, INVALID]

  type Slot = s: nat | s < 8
  type Sids = s: seq<nat> | |s| == 8 witness NO_SIDS

  /** Order hints as the code compares them, cast to int; VA's own field is narrower. */
  type Hint = h: nat | h < 0x7fff_ffff
  type Hints = s: seq<Hint> | |s| == 8 witness [0, 0, 0, 0, 0, 0, 0, 0]
  type Levels = s: seq<bool> | |s| == 8 witness [false, false, false, false, false, false, false, false]

  /** The reference map with the order hint and the level-1 mark of each slot's surface. */
  datatype Dpb = Dpb(sids: Sids, hints: Hints, level1: Levels)

  function MaskOf(slot: Option<Slot>): (m: nat) {
    if slot.None? then 0 else Pow2(slot.value)
  }

  lemma MaskNonzero(slot: Option<Slot>)
    ensures MaskOf(slot) == 0 <==> slot.None?
  {
  }

  /** The pictures the slots hold. */
  function Referenced(sids: seq<nat>): set<nat> {
    set i | 0 <= i < |sids| && sids[i] != INVALID :: sids[i]
  }

  // ----- duplicate slots

  /** An empty slot, or one that repeats an earlier slot. */
  predicate IsDup(sids: Sids, i: Slot) {
    sids[i] == INVALID || sids[i] in sids[..i]
  }

  function FirstDupFrom(sids: Sids, start: nat): (r: Option<Slot>)
    requires start <= 8
    ensures r.Some? ==> start <= r.value && IsDup(sids, r.value)
                        && forall j: Slot :: start <= j < r.value ==> !IsDup(sids, j)
    ensures r.None? ==> forall j: Slot :: start <= j ==> !IsDup(sids, j)
    decreases 8 - start
  {
    if start == 8 then None else if IsDup(sids, start) then Some(start) else FirstDupFrom(sids, start + 1)
  }

  function Copies(sids: Sids, i: Slot): nat {
    multiset(sids)[sids[i]]
  }

  /** The first of at least two slots that hold the same picture. */
  predicate Leads(sids: Sids, i: Slot) {
    sids[i] != INVALID && sids[i] !in sids[..i] && Copies(sids, i) > 1
  }

  predicate Beats(sids: Sids, hints: Hints, a: Slot, b: Slot) {
    || Copies(sids, a) > Copies(sids, b)
    || (Copies(sids, a) == Copies(sids, b) && hints[a] < hints[b])
  }

  /** Among slots 0..n-1: the first slot of the most duplicated picture, ties to the lowest hint and then to
    * the lowest slot. */
  function MostDupUpto(sids: Sids, hints: Hints, n: nat): (r: Option<Slot>)
    requires n <= 8
    ensures r.None? ==> forall i: Slot :: i < n ==> !Leads(sids, i)
    ensures r.Some? ==> r.value < n && Leads(sids, r.value)
    ensures r.Some? ==> forall i: Slot :: i < n && Leads(sids, i) ==>
                          !Beats(sids, hints, i, r.value) && (i < r.value ==> Beats(sids, hints, r.value, i))
  {
    if n == 0 then None else
    var b := MostDupUpto(sids, hints, n - 1);
    if Leads(sids, n - 1) && (b.None? || Beats(sids, hints, n - 1, b.value)) then Some(n - 1) else b
  }

  /** A slot left untouched still holds its picture. */
  lemma ReferencedAfter(sids: Sids, i: Slot, novel: nat, other: Slot)
    requires novel != INVALID && (sids[i] == INVALID || (other != i && sids[other] == sids[i]))
    ensures Referenced(sids[i := novel]) == Referenced(sids) + {novel}
  {
    var after := sids[i := novel];
    forall x | x in Referenced(sids) ensures x in Referenced(after) {
      var k :| 0 <= k < 8 && sids[k] == x && x != INVALID;
      if k == i {
        assert after[other] == x;
      } else {
        assert after[k] == x;
      }
    }
    assert after[i] == novel;
    forall x | x in Referenced(after) ensures x in Referenced(sids) + {novel} {
      var k :| 0 <= k < 8 && after[k] == x && x != INVALID;
      if k != i { assert sids[k] == x; }
    }
  }

  /** Overwriting the only slot of a picture loses it. */
  lemma ReferencedLost(sids: Sids, i: Slot, novel: nat)
    requires novel != INVALID && sids[i] != INVALID && sids[i] != novel
    requires forall j: Slot :: j != i ==> sids[j] != sids[i]
    ensures sids[i] !in Referenced(sids[i := novel])
  {
  }

  /** Reusing a duplicate slot keeps every referenced picture. */
  lemma DupKeeps(sids: Sids, i: Slot, novel: nat)
    requires novel != INVALID && IsDup(sids, i)
    ensures Referenced(sids[i := novel]) == Referenced(sids) + {novel}
  {
    if sids[i] == INVALID {
      ReferencedAfter(sids, i, novel, i);
    } else {
      var j :| 0 <= j < |sids[..i]| && sids[..i][j] == sids[i];
      ReferencedAfter(sids, i, novel, j);
    }
  }

  /** A picture counted more than once has a later slot. */
  lemma LeaderRepeats(sids: Sids, i: Slot) returns (j: Slot)
    requires Leads(sids, i)
    ensures i < j && sids[j] == sids[i]
  {
    var x := sids[i];
    assert sids == sids[..i] + [x] + sids[i + 1..];
    assert multiset(sids) == multiset(sids[..i]) + multiset{x} + multiset(sids[i + 1..]);
    assert x in multiset(sids[i + 1..]);
    assert x in sids[i + 1..];
    var k :| 0 <= k < |sids[i + 1..]| && sids[i + 1..][k] == x;
    j := i + 1 + k;
  }

  /** So does overwriting the first slot of the most duplicated picture. */
  lemma MostDupKeeps(sids: Sids, hints: Hints, novel: nat)
    requires novel != INVALID && MostDupUpto(sids, hints, 8).Some?
    ensures Referenced(sids[MostDupUpto(sids, hints, 8).value := novel]) == Referenced(sids) + {novel}
  {
    var i := MostDupUpto(sids, hints, 8).value;
    var j := LeaderRepeats(sids, i);
    ReferencedAfter(sids, i, novel, j);
  }

  // ----- the oldest picture

  predicate Evictable(d: Dpb, cur: Hint, bitsMinus1: nat, i: Slot) {
    d.sids[i] != INVALID && RelativeDist(d.hints[i], cur, bitsMinus1) <= -3
  }

  predicate InClass(d: Dpb, cur: Hint, bitsMinus1: nat, arf: bool, i: Slot) {
    Evictable(d, cur, bitsMinus1, i) && d.level1[i] == arf
  }

  /** Among slots 0..n-1: the evictable one of this class with the lowest hint. */
  function OldestUpto(d: Dpb, cur: Hint, bitsMinus1: nat, arf: bool, n: nat): (r: Option<Slot>)
    requires n <= 8
    ensures r.None? ==> forall i: Slot :: i < n ==> !InClass(d, cur, bitsMinus1, arf, i)
    ensures r.Some? ==> r.value < n && InClass(d, cur, bitsMinus1, arf, r.value)
    ensures r.Some? ==> forall i: Slot :: i < n && InClass(d, cur, bitsMinus1, arf, i) ==>
                          d.hints[r.value] <= d.hints[i] && (i < r.value ==> d.hints[r.value] < d.hints[i])
  {
    if n == 0 then None else
    var o := OldestUpto(d, cur, bitsMinus1, arf, n - 1);
    if InClass(d, cur, bitsMinus1, arf, n - 1) && (o.None? || d.hints[n - 1] < d.hints[o.value])
    then Some(n - 1) else o
  }

  function ArfCount(d: Dpb, cur: Hint, bitsMinus1: nat, n: nat): nat
    requires n <= 8
  {
    if n == 0 then 0
    else ArfCount(d, cur, bitsMinus1, n - 1) + if InClass(d, cur, bitsMinus1, true, n - 1) then 1 else 0
  }

  function RefreshIdx(d: Dpb, cur: Hint, bitsMinus1: nat, updateArf: bool): (r: Option<Slot>)
    ensures r.Some? ==> Evictable(d, cur, bitsMinus1, r.value)
    ensures r.None? ==> forall i: Slot :: !Evictable(d, cur, bitsMinus1, i)
  {
    var arf := OldestUpto(d, cur, bitsMinus1, true, 8);
    var plain := OldestUpto(d, cur, bitsMinus1, false, 8);
    assert forall i: Slot :: Evictable(d, cur, bitsMinus1, i) ==> InClass(d, cur, bitsMinus1, d.level1[i], i);
    if updateArf && ArfCount(d, cur, bitsMinus1, 8) > 2 && arf.Some? then arf
    else if plain.Some? then plain
    else arf
  }

  /** The distance of a previous picture, for hints of the coded width. */
  lemma PreviousDistance(h: nat, cur: nat, bitsMinus1: nat)
    requires bitsMinus1 <= 31 && h < 2 * Pow2(bitsMinus1) && cur < 2 * Pow2(bitsMinus1)
    requires RelativeDist(h, cur, bitsMinus1) < 0
    ensures RelativeDist(h, cur, bitsMinus1) == if h <= cur then h - cur else h - cur - 2 * Pow2(bitsMinus1)
  {
    hide RelativeDist, Congruent;
    var m := Pow2(bitsMinus1);
    var r := RelativeDist(h, cur, bitsMinus1);
    DistanceCongruent(h, cur, bitsMinus1);
    if h > cur {
      CongruentBy(h - cur, h - cur - 2 * m, 2 * m, 1);
    } else {
      CongruentBy(h - cur, h - cur, 2 * m, 0);
    }
    var e := if h <= cur then h - cur else h - cur - 2 * m;
    CongruentTrans(h - cur, r, e, 2 * m);
    CongruentSmall(r, e, 2 * m);
  }

  /** The evictable slots of this class lie on both sides of the current hint: the hints have wrapped. */
  ghost predicate Straddles(d: Dpb, cur: Hint, bitsMinus1: nat, arf: bool) {
    && (exists i: Slot :: InClass(d, cur, bitsMinus1, arf, i) && d.hints[i] <= cur)
    && (exists i: Slot :: InClass(d, cur, bitsMinus1, arf, i) && d.hints[i] > cur)
  }

  /** Slot i holds the picture of its class that lies farthest back. */
  ghost predicate Farthest(d: Dpb, cur: Hint, bitsMinus1: nat, arf: bool, i: Slot) {
    forall j: Slot :: InClass(d, cur, bitsMinus1, arf, j) ==>
      RelativeDist(d.hints[i], cur, bitsMinus1) <= RelativeDist(d.hints[j], cur, bitsMinus1)
  }

  /** Main result on the oldest picture: the hints are compared as plain numbers, so the choice is the
    * farthest previous picture exactly when the candidates do not straddle the current hint. */
  lemma OldestIsFarthest(d: Dpb, cur: Hint, bitsMinus1: nat, arf: bool)
    requires bitsMinus1 <= 31 && cur < 2 * Pow2(bitsMinus1)
    requires forall i: Slot :: d.hints[i] < 2 * Pow2(bitsMinus1)
    requires OldestUpto(d, cur, bitsMinus1, arf, 8).Some?
    ensures Farthest(d, cur, bitsMinus1, arf, OldestUpto(d, cur, bitsMinus1, arf, 8).value)
            <==> !Straddles(d, cur, bitsMinus1, arf)
  {
    hide RelativeDist;
    var o := OldestUpto(d, cur, bitsMinus1, arf, 8).value;
    PreviousDistance(d.hints[o], cur, bitsMinus1);
    forall j: Slot | InClass(d, cur, bitsMinus1, arf, j)
      ensures RelativeDist(d.hints[j], cur, bitsMinus1)
              == if d.hints[j] <= cur then d.hints[j] - cur else d.hints[j] - cur - 2 * Pow2(bitsMinus1)
    {
      PreviousDistance(d.hints[j], cur, bitsMinus1);
    }
    if Straddles(d, cur, bitsMinus1, arf) {
      var j: Slot :| InClass(d, cur, bitsMinus1, arf, j) && d.hints[j] > cur;
      assert RelativeDist(d.hints[j], cur, bitsMinus1) < RelativeDist(d.hints[o], cur, bitsMinus1);
    }
  }

  // ----- temporal layers of an SVT pyramid

  function Log2(g: nat): nat
    requires g > 0
  {
    if g == 1 then 0 else 1 + Log2(g / 2)
  }

  function Trailing(x: nat): nat
    requires x > 0
  {
    if x % 2 == 1 then 0 else 1 + Trailing(x / 2)
  }

  function SvtLayer(hint: nat, gop: nat): int {
    if gop == 0 || hint % gop == 0 then 0 else Log2(gop) - Trailing(hint % gop)
  }

  lemma {:induction false} Log2Bounds(g: nat)
    requires g > 0
    ensures Pow2(Log2(g)) <= g < 2 * Pow2(Log2(g))
  {
    if g > 1 { Log2Bounds(g / 2); }
  }

  lemma {:induction false} TrailingSplit(x: nat) returns (q: nat)
    requires x > 0
    ensures q > 0 && x == q * Pow2(Trailing(x))
  {
    if x % 2 == 1 {
      q := x;
    } else {
      q := TrailingSplit(x / 2);
      assert x == 2 * (x / 2) == 2 * (q * Pow2(Trailing(x / 2))) == q * (2 * Pow2(Trailing(x / 2)));
    }
  }

  lemma {:induction false} TrailingPow2(k: nat)
    ensures Trailing(Pow2(k)) == k
  {
    if k > 0 {
      assert Pow2(k) / 2 == Pow2(k - 1) && Pow2(k) % 2 == 0;
      TrailingPow2(k - 1);
    }
  }

  lemma {:induction false} Log2Pow2(k: nat)
    ensures Log2(Pow2(k)) == k
  {
    if k > 0 {
      assert Pow2(k) / 2 == Pow2(k - 1) && Pow2(k) > 1;
      Log2Pow2(k - 1);
    }
  }

  lemma {:induction false} Pow2Mono(a: nat, b: nat)
    requires a < b
    ensures 2 * Pow2(a) <= Pow2(b)
    decreases b
  {
    if a < b - 1 { Pow2Mono(a, b - 1); }
  }

  lemma SmallMultiple(x: nat, q: nat, p: int)
    requires p > 0 && q > 0 && x == q * p
    ensures p <= x
    ensures x < 2 * p ==> x == p
  {
    TimesBound(q, p);
    if q >= 2 { TimesBound(q - 1, p); assert (q - 1) * p == q * p - p; }
  }

  /** Main result on layers: the layer lies in 0..floor(log2 gop), and is 0 exactly at multiples of the
    * mini-GOP and, for a length that is not a power of two, half-way marks of the next power. */
  lemma LayerRange(hint: nat, gop: nat)
    requires gop > 0
    ensures 0 <= SvtLayer(hint, gop) <= Log2(gop)
    ensures SvtLayer(hint, gop) == 0 <==> hint % gop == 0 || hint % gop == Pow2(Log2(gop))
  {
    var pos := hint % gop;
    Log2Bounds(gop);
    if pos > 0 {
      var v, l := Trailing(pos), Log2(gop);
      var q := TrailingSplit(pos);
      SmallMultiple(pos, q, Pow2(v));
      if v > l { Pow2Mono(l, v); }
      TrailingPow2(l);
    }
  }

  /** For a power-of-two mini-GOP the base layer is exactly its multiples. */
  lemma BaseLayer(hint: nat, k: nat)
    ensures SvtLayer(hint, Pow2(k)) == 0 <==> hint % Pow2(k) == 0
  {
    LayerRange(hint, Pow2(k));
    Log2Pow2(k);
  }

  // ----- the loops

  method SlotIsDup(sids: Sids, i: Slot) returns (dup: bool)
    ensures dup == IsDup(sids, i)
  {
    if sids[i] == INVALID {
      return true;
    }
    for j := 0 to i
      invariant sids[i] !in sids[..j]
    {
      if sids[j] == sids[i] {
        return true;
      }
      assert sids[..j + 1] == sids[..j] + [sids[j]];
    }
    return false;
  }

  lemma ReferencedGrows(sids: Sids, i: Slot)
    ensures Referenced(sids[..i + 1]) == Referenced(sids[..i]) + (if sids[i] == INVALID then {} else {sids[i]})
    ensures sids[i] in Referenced(sids[..i]) <==> sids[i] != INVALID && sids[i] in sids[..i]
  {
    var a, b := sids[..i], sids[..i + 1];
    assert b[i] == sids[i] && forall k :: 0 <= k < i ==> b[k] == a[k];
    forall x | x in Referenced(a) ensures x in Referenced(b) {
      var k :| 0 <= k < i && a[k] == x;
      assert b[k] == x;
    }
  }

  method UniqueSidCount(sids: Sids) returns (n: nat)
    ensures n == |Referenced(sids)|
  {
    hide Referenced;
    assert sids[..0] == [] && Referenced([]) == {} by { ReferencedEmpty(); }
    n := 0;
    for i := 0 to 8
      invariant n == |Referenced(sids[..i])|
    {
      ReferencedGrows(sids, i);
      if sids[i] != INVALID {
        var j := 0;
        while j < i && sids[j] != sids[i]
          invariant j <= i && sids[i] !in sids[..j]
        {
          assert sids[..j + 1] == sids[..j] + [sids[j]];
          j := j + 1;
        }
        if j == i {
          n := n + 1;
        } else {
          assert sids[..i][j] == sids[i];
          assert Referenced(sids[..i + 1]) == Referenced(sids[..i]);
        }
      }
    }
    assert sids[..8] == sids;
  }

  lemma ReferencedEmpty()
    ensures Referenced([]) == {}
  {
  }

  /** The number of slots that hold the picture of slot i, when no earlier slot does. */
  method CountFrom(sids: Sids, i: Slot) returns (first: bool, count: nat)
    requires sids[i] != INVALID
    ensures first == (sids[i] !in sids[..i])
    ensures first ==> count == Copies(sids, i)
  {
    count := 0;
    var j := 0;
    while j < i && sids[j] != sids[i]
      invariant j <= i && sids[i] !in sids[..j]
    {
      assert sids[..j + 1] == sids[..j] + [sids[j]];
      j := j + 1;
    }
    if j != i {
      assert sids[..i][j] == sids[i];
      return false, 0;
    }
    first, count := true, 1;
    assert sids[..i + 1] == sids[..i] + [sids[i]];
    assert multiset(sids[..i])[sids[i]] == 0;
    for k := i + 1 to 8
      invariant count == multiset(sids[..k])[sids[i]]
    {
      assert sids[..k + 1] == sids[..k] + [sids[k]];
      if sids[k] == sids[i] {
        count := count + 1;
      }
    }
    assert sids[..8] == sids;
  }

  method MostDupFirst(sids: Sids, hints: Hints) returns (mask: nat)
    ensures mask == MaskOf(MostDupUpto(sids, hints, 8))
  {
    var best, bestCount, bestHint: int := -1, 1, 0x7fff_ffff;
    for i := 0 to 8
      invariant -1 <= best < i
      invariant MostDupUpto(sids, hints, i) == if best < 0 then None else Some(best)
      invariant if best < 0 then bestCount == 1
                else bestCount == Copies(sids, best) > 1 && bestHint == hints[best]
    {
      if sids[i] != INVALID {
        var first, count := CountFrom(sids, i);
        if first && (count > bestCount || (count == bestCount && count > 1 && hints[i] < bestHint)) {
          best, bestCount, bestHint := i, count, hints[i];
        }
      }
    }
    if best < 0 || bestCount <= 1 {
      return 0;
    }
    return Pow2(best);
  }

  method FirstDup(sids: Sids, start: nat) returns (mask: nat)
    requires start <= 8
    ensures mask == MaskOf(FirstDupFrom(sids, start))
  {
    for i := start to 8
      invariant FirstDupFrom(sids, i) == FirstDupFrom(sids, start)
    {
      var dup := SlotIsDup(sids, i);
      if dup {
        return Pow2(i);
      }
    }
    return 0;
  }

  method TemporalLayer(hint: nat, gop: nat) returns (layer: int)
    ensures layer == SvtLayer(hint, gop)
  {
    if gop == 0 {
      return 0;
    }
    var pos := hint % gop;
    if pos == 0 {
      return 0;
    }
    var g, logg := gop, 0;
    while g > 1
      invariant g > 0 && logg + Log2(g) == Log2(gop)
    {
      g := g / 2;
      logg := logg + 1;
    }
    var x, v := pos, 0;
    while x % 2 == 0
      invariant x > 0 && v + Trailing(x) == Trailing(pos)
      decreases x
    {
      x := x / 2;
      v := v + 1;
    }
    return logg - v;
  }

  method GetRefreshIdx(d: Dpb, cur: Hint, bitsMinus1: nat, updateArf: bool) returns (mask: nat)
    ensures mask == MaskOf(RefreshIdx(d, cur, bitsMinus1, updateArf))
  {
    hide RelativeDist;
    var arfCount := 0;
    var oldestArf, oldestArfOrder: int := -1, 0x7fff_ffff;
    var oldest, oldestOrder: int := -1, 0x7fff_ffff;
    for i := 0 to 8
      invariant -1 <= oldestArf < i && -1 <= oldest < i
      invariant arfCount == ArfCount(d, cur, bitsMinus1, i)
      invariant OldestUpto(d, cur, bitsMinus1, true, i) == if oldestArf < 0 then None else Some(oldestArf)
      invariant OldestUpto(d, cur, bitsMinus1, false, i) == if oldest < 0 then None else Some(oldest)
      invariant oldestArfOrder == if oldestArf < 0 then 0x7fff_ffff else d.hints[oldestArf]
      invariant oldestOrder == if oldest < 0 then 0x7fff_ffff else d.hints[oldest]
    {
      if d.sids[i] != INVALID && RelativeDist(d.hints[i], cur, bitsMinus1) <= -3 {
        if d.level1[i] {
          if d.hints[i] < oldestArfOrder {
            oldestArfOrder, oldestArf := d.hints[i], i;
          }
          arfCount := arfCount + 1;
        } else if d.hints[i] < oldestOrder {
          oldestOrder, oldest := d.hints[i], i;
        }
      }
    }
    if updateArf && arfCount > 2 && oldestArf >= 0 {
      return Pow2(oldestArf);
    }
    if oldest >= 0 {
      return Pow2(oldest);
    }
    if oldestArf >= 0 {
      return Pow2(oldestArf);
    }
    return 0;
  }
}
