/** The skip-mode reference pair of an AV1 inter frame (section 5.9.22 of the AV1 specification): two
  * scans over the seven references against the modular nearest pair. */
module SkipMode {
  import opened OrderHint

  const SLOTS := 8       // V4L2_AV1_TOTAL_REFS_PER_FRAME
  const REFS := 7        // V4L2_AV1_REFS_PER_FRAME
  const LAST_FRAME := 1  // V4L2_AV1_REF_LAST_FRAME

  /** What the choice depends on: `slotHint` is the order hint of the surface in each reference slot, 0 for
    * an unknown surface; `refIdx` the slot of each reference. */
  datatype Frame = Frame(
    intra: bool, referenceSelect: bool, enableOrderHint: bool,
    orderHint: nat, bitsMinus1: nat, refIdx: seq<nat>, slotHint: seq<nat>)
  {
    predicate Valid() {
      |refIdx| == REFS && |slotHint| == SLOTS && bitsMinus1 <= 31
    }

    predicate Known(i: int)
      requires Valid()
    {
      0 <= i < REFS && refIdx[i] < SLOTS
    }

    function Hint(i: int): nat
      requires Valid() && Known(i)
    {
      slotHint[refIdx[i]]
    }

    /** Signed distance of reference i from the current frame: negative is earlier. */
    function Dist(i: int): int
      requires Valid() && Known(i)
    {
      RelativeDist(Hint(i), orderHint, bitsMinus1)
    }
  }

  /** The first reference among those before `n` whose distance is the greatest negative one. */
  ghost predicate NearestForward(f: Frame, n: int, i: int)
    requires f.Valid()
  {
    && f.Known(i) && i < n && f.Dist(i) < 0
    && forall j :: j < n && f.Known(j) && f.Dist(j) < 0 ==>
         f.Dist(j) <= f.Dist(i) && (f.Dist(j) == f.Dist(i) ==> i <= j)
  }

  ghost predicate NearestBackward(f: Frame, n: int, i: int)
    requires f.Valid()
  {
    && f.Known(i) && i < n && f.Dist(i) > 0
    && forall j :: j < n && f.Known(j) && f.Dist(j) > 0 ==>
         f.Dist(j) >= f.Dist(i) && (f.Dist(j) == f.Dist(i) ==> i <= j)
  }

  ghost predicate NoForward(f: Frame, n: int)
    requires f.Valid()
  {
    forall j :: j < n && f.Known(j) ==> f.Dist(j) >= 0
  }

  ghost predicate NoBackward(f: Frame, n: int)
    requires f.Valid()
  {
    forall j :: j < n && f.Known(j) ==> f.Dist(j) <= 0
  }

  /** The second forward candidates: earlier than the nearest forward reference - or, when that one is a
    * full sign weight away, the references at distance zero, whose direct comparison with it wraps. */
  ghost predicate SecondCandidate(f: Frame, first: int, j: int)
    requires f.Valid() && f.Known(first)
  {
    && f.Known(j)
    && if f.Dist(first) > -Pow2(f.bitsMinus1) then f.Dist(j) < f.Dist(first) else f.Dist(j) == 0
  }

  ghost predicate SecondForward(f: Frame, first: int, n: int, i: int)
    requires f.Valid() && f.Known(first)
  {
    && SecondCandidate(f, first, i) && i < n
    && forall j :: j < n && SecondCandidate(f, first, j) ==>
         f.Dist(j) <= f.Dist(i) && (f.Dist(j) == f.Dist(i) ==> i <= j)
  }

  ghost predicate NoSecond(f: Frame, first: int, n: int)
    requires f.Valid() && f.Known(first)
  {
    forall j :: j < n ==> !SecondCandidate(f, first, j)
  }

  /** The frame can use skip mode at all. */
  predicate Eligible(f: Frame) {
    !f.intra && f.referenceSelect && f.enableOrderHint
  }

  /** The pair, as section 5.9.22 names it: nearest forward and nearest backward, or, with nothing ahead,
    * the two nearest forward; in increasing order, as LAST..ALTREF numbers. */
  ghost predicate IsPair(f: Frame, a: int, b: int)
    requires f.Valid()
  {
    || (exists i, k :: NearestForward(f, REFS, i) && NearestBackward(f, REFS, k) && Ordered(i, k, a, b))
    || (NoBackward(f, REFS) &&
        exists i, k :: NearestForward(f, REFS, i) && SecondForward(f, i, REFS, k) && Ordered(i, k, a, b))
  }

  ghost predicate Ordered(i: int, k: int, a: int, b: int) {
    a == LAST_FRAME + (if i < k then i else k) && b == LAST_FRAME + (if i < k then k else i)
  }

  ghost predicate NoPair(f: Frame)
    requires f.Valid()
  {
    || NoForward(f, REFS)
    || (NoBackward(f, REFS) && exists i :: NearestForward(f, REFS, i) && NoSecond(f, i, REFS))
  }

  // ----- comparing hints directly

  /** Among references on one side of the frame the direct comparison is the comparison of distances. */
  lemma SameSide(f: Frame, i: int, j: int)
    requires f.Valid() && f.Known(i) && f.Known(j)
    requires (f.Dist(i) < 0 && f.Dist(j) < 0) || (f.Dist(i) >= 0 && f.Dist(j) >= 0)
    ensures RelativeDist(f.Hint(i), f.Hint(j), f.bitsMinus1) == f.Dist(i) - f.Dist(j)
  {
    DistanceCongruent(f.Hint(i), f.orderHint, f.bitsMinus1);
    DistanceCongruent(f.Hint(j), f.orderHint, f.bitsMinus1);
    DistanceDifference(f.Hint(i), f.Hint(j), f.orderHint, f.bitsMinus1);
  }

  /** With nothing ahead of the frame, being before the nearest forward reference is what the second scan
    * tests, except for the wrap. */
  lemma BeforeFirst(f: Frame, first: int, j: int)
    requires f.Valid() && f.Known(j) && f.Known(first) && f.Dist(first) < 0 && f.Dist(j) <= 0
    requires f.Dist(j) < 0 ==> f.Dist(j) <= f.Dist(first)
    ensures RelativeDist(f.Hint(j), f.Hint(first), f.bitsMinus1) < 0 <==> SecondCandidate(f, first, j)
  {
    DistanceCongruent(f.Hint(j), f.orderHint, f.bitsMinus1);
    DistanceCongruent(f.Hint(first), f.orderHint, f.bitsMinus1);
    DistanceDifference(f.Hint(j), f.Hint(first), f.orderHint, f.bitsMinus1);
  }

  lemma CandidatesComparable(f: Frame, first: int, i: int, j: int)
    requires f.Valid() && f.Known(first) && SecondCandidate(f, first, i) && SecondCandidate(f, first, j)
    requires f.Dist(first) < 0
    ensures RelativeDist(f.Hint(i), f.Hint(j), f.bitsMinus1) == f.Dist(i) - f.Dist(j)
  {
    SameSide(f, i, j);
  }

  // ----- the two scans

  method FirstScan(f: Frame) returns (forward: int, backward: int)
    requires f.Valid()
    ensures if forward < 0 then NoForward(f, REFS) else NearestForward(f, REFS, forward)
    ensures if backward < 0 then NoBackward(f, REFS) else NearestBackward(f, REFS, backward)
  {
    forward, backward := -1, -1;
    var forwardHint, backwardHint := 0, 0;
    for i := 0 to REFS
      invariant if forward < 0 then NoForward(f, i) else NearestForward(f, i, forward) && forwardHint == f.Hint(forward)
      invariant if backward < 0 then NoBackward(f, i)
                else NearestBackward(f, i, backward) && backwardHint == f.Hint(backward)
    {
      var slot := f.refIdx[i];
      if slot < SLOTS {
        var hint := f.slotHint[slot];
        var dist := RelativeDist(hint, f.orderHint, f.bitsMinus1);
        if dist < 0 {
          if forward >= 0 { SameSide(f, i, forward); }
          if forward < 0 || RelativeDist(hint, forwardHint, f.bitsMinus1) > 0 {
            forward, forwardHint := i, hint;
          }
        } else if dist > 0 {
          if backward >= 0 { SameSide(f, i, backward); }
          if backward < 0 || RelativeDist(hint, backwardHint, f.bitsMinus1) < 0 {
            backward, backwardHint := i, hint;
          }
        }
      }
    }
  }

  method SecondScan(f: Frame, first: int) returns (second: int)
    requires f.Valid() && NearestForward(f, REFS, first) && NoBackward(f, REFS)
    ensures if second < 0 then NoSecond(f, first, REFS) else SecondForward(f, first, REFS, second)
  {
    second := -1;
    var firstHint, secondHint := f.Hint(first), 0;
    for i := 0 to REFS
      invariant if second < 0 then NoSecond(f, first, i)
                else SecondForward(f, first, i, second) && secondHint == f.Hint(second)
    {
      var slot := f.refIdx[i];
      if slot < SLOTS {
        var hint := f.slotHint[slot];
        BeforeFirst(f, first, i);
        if RelativeDist(hint, firstHint, f.bitsMinus1) < 0 {
          if second >= 0 { CandidatesComparable(f, first, i, second); }
          if second < 0 || RelativeDist(hint, secondHint, f.bitsMinus1) > 0 {
            second, secondHint := i, hint;
          }
        }
      }
    }
  }

  /** Main result: the pair is the modular nearest pair with first-index tie-break, strictly increasing in
    * 1..7, and (0, 0) exactly when the frame is not eligible or no pair exists. */
  method FillSkipMode(f: Frame) returns (a: int, b: int)
    requires f.Valid()
    ensures (a == 0 && b == 0) || (1 <= a < b <= 7)
    ensures a > 0 ==> Eligible(f) && IsPair(f, a, b)
    ensures a == 0 ==> !Eligible(f) || NoPair(f)
  {
    a, b := 0, 0;
    if f.intra || !f.referenceSelect || !f.enableOrderHint {
      return;
    }
    var forward, backward := FirstScan(f);
    if forward < 0 {
      return;
    }
    var other := backward;
    if backward < 0 {
      other := SecondScan(f, forward);
      if other < 0 {
        return;
      }
    }
    assert Ordered(forward, other, LAST_FRAME + (if forward < other then forward else other),
                   LAST_FRAME + (if forward < other then other else forward));
    a := LAST_FRAME + if forward < other then forward else other;
    b := LAST_FRAME + if forward < other then other else forward;
  }

  /** The references a pair names. */
  lemma PairOf(f: Frame, a: int, b: int) returns (i: int, k: int)
    requires f.Valid() && IsPair(f, a, b)
    ensures NearestForward(f, REFS, i) && Ordered(i, k, a, b)
    ensures if NoBackward(f, REFS) then SecondForward(f, i, REFS, k) else NearestBackward(f, REFS, k)
  {
    if NoBackward(f, REFS) {
      i, k :| NearestForward(f, REFS, i) && SecondForward(f, i, REFS, k) && Ordered(i, k, a, b);
    } else {
      i, k :| NearestForward(f, REFS, i) && NearestBackward(f, REFS, k) && Ordered(i, k, a, b);
    }
  }

  lemma NearestUnique(f: Frame, i: int, i': int, k: int, k': int)
    requires f.Valid() && NearestForward(f, REFS, i) && NearestForward(f, REFS, i')
    ensures i == i'
    ensures NearestBackward(f, REFS, k) && NearestBackward(f, REFS, k') ==> k == k'
    ensures SecondForward(f, i, REFS, k) && SecondForward(f, i, REFS, k') ==> k == k'
  {
  }

  /** The two outcomes exclude each other, so the contract of FillSkipMode fixes its result. */
  lemma PairUnique(f: Frame, a: int, b: int, a': int, b': int)
    requires f.Valid() && IsPair(f, a, b)
    ensures !NoPair(f)
    ensures IsPair(f, a', b') ==> a == a' && b == b'
  {
    var i, k := PairOf(f, a, b);
    assert !NoForward(f, REFS);
    if NoBackward(f, REFS) {
      forall i' | NearestForward(f, REFS, i') ensures !NoSecond(f, i', REFS) {
        NearestUnique(f, i, i', k, k);
      }
    }
    if IsPair(f, a', b') {
      var i', k' := PairOf(f, a', b');
      NearestUnique(f, i, i', k, k');
    }
  }
}
