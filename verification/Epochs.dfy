/** Epochs of the AV1 copy-out: from a reset or a creation on, with every header parsed, until the slot model is
  * reset again. When exactly at most eight buffers are away from the pool. */
module Epochs {
  import opened Wrappers
  import opened Pools
  import opened V4l2Kernel
  import opened Bridge
  import opened Ownership
  import opened Submit
  import opened SlotRelease
  import opened Invariant
  import opened Exclusive
  import opened Picture
  import opened CopyOut
  import opened MaskBits
  import OrderHint

  /** The event resets the slot model: a decode reset, or a renegotiation of a streaming queue. */
  predicate Restarts(s: State, e: Event) {
    && e.End? && s.current.Some? && s.request
    && ((s.streamed && PictureRenegotiates(s, e.env)) || Resets(s, e.env))
  }

  /** A run inside one epoch: every picture's header is parsed, and the slot model is not reset. */
  ghost predicate EpochRun(s: State, es: seq<Event>)
    decreases |es|
  {
    es == [] ||
    (&& Admissible(s, es[0]) && (es[0].End? ==> es[0].env.parsed) && !Restarts(s, es[0])
     && EpochRun(Step(s, es[0]), es[1..]))
  }

  // ----- without debt at its start an epoch stays without

  lemma StepStaysFree(s: State, e: Event)
    requires CopyMode(s) && Admissible(s, e) && Loose(s) == {}
    requires (e.End? ==> e.env.parsed) && !Restarts(s, e)
    ensures CopyMode(Step(s, e)) && Loose(Step(s, e)) == {}
  {
    hide Step;
    StepDebt(s, e);
    if e.End? && s.current.Some? && s.request {
      assert ArmedFor(s, e.env);
      if StopsShort(s, e.env) { IdleAway(s); }
    }
  }

  /** Before streaming starts no slot is filled. */
  lemma IdleAway(s: State)
    requires Basic(s) && !s.streamed && Loose(s) == {}
    ensures Away(s) == {}
  {
    forall x ensures x !in Away(s) {
      LooseIs(s, x);
      assert x >= 0 ==> x !in s.model.slots;
    }
  }

  /** Main result, one direction: in an epoch that starts without debt at most eight usable buffers are away
    * from the pool, whatever the client creates, re-targets or destroys and whatever ioctl fails. */
  lemma {:induction false} EpochBounded(s: State, es: seq<Event>)
    requires CopyMode(s) && Loose(s) == {} && EpochRun(s, es)
    ensures CopyMode(Run(s, es)) && Loose(Run(s, es)) == {} && |Away(Run(s, es))| <= REFS
    decreases |es|
  {
    hide Step, Restarts, CopyMode, Loose;
    if es == [] {
      CopyModeSplits(s);
    } else {
      StepStaysFree(s, es[0]);
      EpochBounded(Step(s, es[0]), es[1..]);
    }
  }

  lemma CopyModeSplits(s: State)
    requires CopyMode(s)
    ensures Loose(s) == {} ==> |Away(s)| <= REFS
  {
    AwaySplits(s);
  }

  /** So with nine usable buffers the pool is never empty. */
  lemma EpochNeverStarves(s: State, es: seq<Event>)
    requires CopyMode(s) && Loose(s) == {} && EpochRun(s, es) && Usable(Run(s, es)) > REFS
    ensures |Run(s, es).freeCap| > 0
  {
    EpochBounded(s, es);
    NeverStarves(Run(s, es));
  }

  // ----- the debt of a reset

  lemma AfterDecodeReset(s: State)
    requires CopyMode(s)
    ensures var t := DecodeReset(s);
            && CopyMode(t) && Loose(t) == Kept(s) && Lost(t) == {} && SameOwners(s, t) && CaptureReset(s, t)
            && !t.streamed && t.freeOut == Upto(Min(s.outAllocd, NUM_OUT))
  {
    ResetRebuilds(s);
    var t := DecodeReset(s);
    ResetBooks(s, t);
    ResetOwned(s, t);
  }

  // ----- with a debt the bound is exceeded

  /** A decode in which everything succeeds and the bitstream buffer comes straight back. */
  function GoodSubmit(cap: int, out: int): SubmitEnv {
    SubmitEnv(true, true, None, true, true, Some(cap), false, Some(out), None, false)
  }

  /** A parsed picture of the negotiated format in which everything succeeds. */
  function GoodPicture(s: State, mask: Mask): EndEnv
    requires |s.freeCap| > 0 && |s.freeOut| > 0
  {
    EndEnv(true, mask, true, 1, 1, s.geo.fourcc, EnsureEnv(false, None, false, false, 0, [], None),
           true, true, true, true,
           GoodSubmit(s.freeCap[|s.freeCap| - 1], s.freeOut[|s.freeOut| - 1]), true)
  }

  /** The capture format is negotiated. */
  predicate Negotiated(s: State) {
    s.geo.capW > 0 && s.geo.capH > 0 && s.geo.fourcc != 0 && s.capAllocd > 0
  }

  lemma SubmitSucceeds(p: State, out: int, mask: Mask)
    requires Ready(p, out) && ChooseCapture(p).Some?
    ensures DecodeSubmit(p, out, mask, GoodSubmit(Chosen(p), out))
         == (p.(freeCap := Rest(p), freeOut := p.freeOut + [out], kernel := p.kernel.Refresh(mask, Chosen(p))),
             Chosen(p))
  {
    ChosenInRange(p);
    EnqueueOutput(p, out);
    PushOutSafe(p, out);
    assert p.kernel.out.queued + {out} - {out} == p.kernel.out.queued;
    assert {} + {Chosen(p)} - {Chosen(p)} == p.kernel.cap.queued;
    var q := BothQueued(p, out);
    var k := q.kernel.Dequeue(Capture, Some(Chosen(p))).Refresh(mask, Chosen(p)).Dequeue(Output, Some(out));
    assert k == p.kernel.Refresh(mask, Chosen(p));
  }

  /** A picture that needs no renegotiation, up to its bitstream buffer. */
  lemma PreparePlain(s: State, env: EndEnv)
    requires Basic(s) && s.request && (env.streamOut ==> env.streamCap) && Reaches(s, env)
    requires !PictureRenegotiates(s, env)
    ensures var (p, out) := Prepare(s, env);
            && out == Some(s.freeOut[|s.freeOut| - 1])
            && p == Arm(s, env).(streamed := true, kernel := p.kernel, freeOut := s.freeOut[..|s.freeOut| - 1])
  {
    hide Prepare;
    PrepareKeeps(s, env);
    assert |s.freeOut| > 0;
    PreparePlainState(s, env);
  }

  lemma PreparePlainState(s: State, env: EndEnv)
    requires Reaches(s, env) && !PictureRenegotiates(s, env) && Basic(s)
    ensures var (p, out) := Prepare(s, env);
            && out == Some(s.freeOut[|s.freeOut| - 1])
            && p == Arm(s, env).(streamed := true, kernel := p.kernel, freeOut := s.freeOut[..|s.freeOut| - 1])
  {
  }

  /** Surface `id` can be decoded into over and over: the next picture can be given to it, and its previous
    * buffer, if any, is a reference. */
  ghost predicate Playing(s: State, id: nat) {
    && CopyMode(s) && Negotiated(s) && REFS < s.capAllocd <= NUM_CAP && |s.freeOut| > 0
    && id in s.targets && id in s.held
    && (s.Holds(id) ==> s.model.active && s.held[id] in s.model.slots)
  }

  /** Nothing but the current surface, its request and what `id` holds changes. */
  lemma Retarget(s: State, id: nat)
    requires Playing(s, id)
    ensures var t := BeginPicture(s, id, true);
            && Playing(t, id) && t.current == Some(id) && t.request && !t.Holds(id)
            && Loose(t) == Loose(s) && Away(t) == Away(s) && InSlots(t) == InSlots(s) && t.freeCap == s.freeCap
            && t.model == s.model && Admissible(s, Begin(id, true)) && Step(s, Begin(id, true)) == t
  {
    hide CopyMode, Loose, Away, InSlots;
    var t := BeginPicture(s, id, true);
    assert CopyMode(t) && Loose(t) == Loose(s) by {
      StepDebt(s, Begin(id, true));
      LooseLeft(s, id);
    }
    CopyModeIs(s);
    assert t == s.(current := Some(id), request := true, held := t.held);
    SamePools(s, t);
  }

  lemma CopyModeIs(s: State)
    requires CopyMode(s)
    ensures Basic(s) && !s.cfg.expbuf && s.cfg.codec.AV1?
  {
  }

  lemma SamePools(s: State, t: State)
    requires t.freeCap == s.freeCap && t.capAllocd == s.capAllocd && t.model == s.model
    ensures Away(t) == Away(s) && InSlots(t) == InSlots(s)
  {
    forall x ensures (x in Away(t) <==> x in Away(s)) && (x in InSlots(t) <==> x in InSlots(s)) {
      LooseIs(s, x);
      LooseIs(t, x);
    }
  }

  /** A surface that holds a buffer at this point shares it with a slot. */
  lemma LooseLeft(s: State, id: nat)
    requires Playing(s, id)
    ensures Debt(s, Begin(id, true), Loose(s)) == Loose(s)
  {
  }

  /** A good picture, with everything but the release computed. */
  lemma PlayUpTo(s: State, id: nat, mask: Mask)
    requires Playing(s, id) && s.current == Some(id) && s.request && |s.freeCap| > 0
    ensures var env := GoodPicture(s, mask);
            var r := s.freeCap[|s.freeCap| - 1];
            var (p, out) := Prepare(s, env);
            var t := s.(freeCap := s.freeCap[..|s.freeCap| - 1], streamed := true, model := s.model.(active := true),
                        kernel := p.kernel.Refresh(mask, r));
            && Admissible(s, End(env)) && !Restarts(s, End(env))
            && EndPicture(s, env) == Conclude(t, r, env)
  {
    hide Prepare, DecodeSubmit, Conclude;
    var env := GoodPicture(s, mask);
    var r := s.freeCap[|s.freeCap| - 1];
    GoodReaches(s, mask);
    PreparePlain(s, env);
    PrepareKeeps(s, env);
    var (p, out) := Prepare(s, env);
    assert ChooseCapture(p) == Some((r, p.(freeCap := s.freeCap[..|s.freeCap| - 1])));
    SubmitSucceeds(p, out.value, mask);
    assert s.freeOut[..|s.freeOut| - 1] + [out.value] == s.freeOut;
  }

  /** One good picture into an empty slot. */
  lemma PlayPicture(s: State, id: nat, k: nat)
    requires Playing(s, id) && s.current == Some(id) && s.request && !s.Holds(id)
    requires k < REFS && s.model.slots[k] < 0 && |s.freeCap| > 0
    ensures var env := GoodPicture(s, OrderHint.Pow2(k) % 256);
            var u := EndPicture(s, env);
            && !Restarts(s, End(env)) && Admissible(s, End(env))
            && Playing(u, id) && Loose(u) == Loose(s) && |InSlots(u)| == |InSlots(s)| + 1
            && u.model.slots == s.model.slots[k := s.freeCap[|s.freeCap| - 1]]
  {
    var mask: Mask := OrderHint.Pow2(k) % 256;
    var env := GoodPicture(s, mask);
    var r := s.freeCap[|s.freeCap| - 1];
    PlayUpTo(s, id, mask);
    GoodReaches(s, mask);
    var t := s.(freeCap := s.freeCap[..|s.freeCap| - 1], streamed := true, model := s.model.(active := true),
                kernel := Prepare(s, env).0.kernel.Refresh(mask, r));
    PlayedPicture(s, id, k, t, r);
    PlayDebt(s, id, env);
  }

  lemma PlayDebt(s: State, id: nat, env: EndEnv)
    requires CopyMode(s) && s.current == Some(id) && s.request && Admissible(s, End(env))
    requires Reaches(s, env) && !PictureRenegotiates(s, env) && !Resets(s, env) && ArmedFor(s, env)
    ensures CopyMode(EndPicture(s, env)) && Loose(EndPicture(s, env)) == Loose(s)
  {
    hide EndPicture, CopyMode, Resets, Reaches, ArmedFor, Loose;
    StepDebt(s, End(env));
    assert Step(s, End(env)) == EndPicture(s, env);
  }

  lemma GoodReaches(s: State, mask: Mask)
    requires CopyMode(s) && Negotiated(s) && s.current.Some? && s.request && |s.freeCap| > 0 && |s.freeOut| > 0
    requires s.capAllocd <= NUM_CAP
    ensures var env := GoodPicture(s, mask);
            && Reaches(s, env) && !PictureRenegotiates(s, env) && !Resets(s, env) && Delivers(s, env)
            && ArmedFor(s, env) && Pick(s, env) == s.freeCap[|s.freeCap| - 1]
  {
    var out, r := s.freeOut[|s.freeOut| - 1], s.freeCap[|s.freeCap| - 1];
    assert out in s.freeOut && r in s.freeCap;
  }

  /** The decoded buffer enters slot k, and nothing leaves a slot. */
  lemma PlayedPicture(s: State, id: nat, k: nat, t: State, r: int)
    requires Playing(s, id) && s.current == Some(id) && s.request && !s.Holds(id) && |s.freeCap| > 0
    requires k < REFS && s.model.slots[k] < 0 && r == s.freeCap[|s.freeCap| - 1]
    requires t == s.(freeCap := s.freeCap[..|s.freeCap| - 1], streamed := true, model := s.model.(active := true),
                     kernel := t.kernel)
    ensures var mask: Mask := OrderHint.Pow2(k) % 256;
            var u := Conclude(t, r, GoodPicture(s, mask));
            && u.capAllocd == s.capAllocd && u.geo == s.geo && u.freeOut == s.freeOut && u.targets == s.targets
            && u.held.Keys == s.held.Keys && u.model.active && u.held[id] in u.model.slots
            && |InSlots(u)| == |InSlots(s)| + 1 && u.model.slots == s.model.slots[k := r]
  {
    hide ReleaseUnreferenced, OrderHint.Pow2, InSlots, Loose;
    var mask: Mask := OrderHint.Pow2(k) % 256;
    var env := GoodPicture(s, mask);
    assert r in s.freeCap;
    PopElements(s.freeCap);
    var s1 := t.SetHeld(id, r);
    assert forall x :: x in s1.freeCap ==> x in s.freeCap;
    PlayedRelease(s1, id, k, r);
    var v := ReleaseUnreferenced(s1, id, r, mask);
    SlotAdded(s, v, k, r);
    assert Conclude(t, r, env) == v.(current := None);
    SameSlots(v, v.(current := None));
  }

  lemma PlayedRelease(s1: State, id: nat, k: nat, r: int)
    requires CapturePool(s1) && SlotsInRange(s1) && 0 <= r < Min(s1.capAllocd, MAX_CAP)
    requires k < REFS && s1.model.slots[k] < 0 && id in s1.held && s1.held[id] == r && r !in s1.model.slots
    ensures var mask: Mask := OrderHint.Pow2(k) % 256;
            var v := ReleaseUnreferenced(s1, id, r, mask);
            && v == s1.(freeCap := v.freeCap, held := v.held, model := v.model)
            && v.model.slots == s1.model.slots[k := r] && v.model.active == s1.model.active
            && v.held.Keys == s1.held.Keys && v.held[id] == r
  {
    hide ReleaseUnreferenced;
    var mask: Mask := OrderHint.Pow2(k) % 256;
    ReleaseExact(s1, id, r, mask);
    var v := ReleaseUnreferenced(s1, id, r, mask);
    OneBitOf(k);
    assert mask != 0 by { if mask == 0 { NoBits(k); } }
    assert v.model.slots == s1.model.slots[k := r];
  }

  lemma SameSlots(v: State, u: State)
    requires u.capAllocd == v.capAllocd && u.model.slots == v.model.slots
    ensures InSlots(u) == InSlots(v)
  {
    forall x ensures x in InSlots(u) <==> x in InSlots(v) {
      LooseIs(u, x);
      LooseIs(v, x);
    }
  }

  lemma SlotAdded(s: State, v: State, k: nat, r: int)
    requires Disjoint(s) && k < REFS && s.model.slots[k] < 0 && r in s.freeCap && 0 <= r < Usable(s)
    requires v.capAllocd == s.capAllocd && v.model.slots == s.model.slots[k := r]
    ensures r in v.model.slots && |InSlots(v)| == |InSlots(s)| + 1
  {
    assert v.model.slots[k] == r;
    forall x ensures x in InSlots(v) <==> x in InSlots(s) || x == r {
      LooseIs(v, x);
      LooseIs(s, x);
      if x in s.model.slots && x >= 0 {
        var t :| 0 <= t < REFS && s.model.slots[t] == x;
        assert v.model.slots[t] == x;
      }
      if x in v.model.slots && x != r {
        var t :| 0 <= t < REFS && v.model.slots[t] == x;
        assert s.model.slots[t] == x;
      }
    }
    LooseIs(s, r);
    forall t | 0 <= t < REFS ensures s.model.slots[t] != r {}
    assert InSlots(v) == InSlots(s) + {r};
  }

  /** Mask 2^k names slot k alone. */
  lemma OneBitOf(k: nat)
    requires k < REFS
    ensures forall t :: 0 <= t < REFS ==> (Bit(OrderHint.Pow2(k) % 256, t) <==> t == k)
  {
    PowerFits(k);
    forall t | 0 <= t < REFS ensures Bit(OrderHint.Pow2(k), t) <==> t == k { OneBit(k, t); }
  }

  lemma {:induction false} PowerFits(k: nat)
    requires k < REFS
    ensures OrderHint.Pow2(k) <= 128
  {
    OrderHint.Pow2Grows(k, 7);
    OrderHint.Pow2Widths();
    assert OrderHint.Pow2(7) == 128;
    OrderHint.TimesBound(OrderHint.Pow2(7 - k), OrderHint.Pow2(k));
  }

  // ----- the exact condition

  lemma {:induction false} EpochJoins(s: State, a: seq<Event>, b: seq<Event>)
    requires EpochRun(s, a) && EpochRun(Run(s, a), b)
    ensures EpochRun(s, a + b) && Run(s, a + b) == Run(Run(s, a), b)
    decreases |a|
  {
    hide Step, Restarts;
    if a == [] {
      assert a + b == b;
    } else {
      assert (a + b)[0] == a[0] && (a + b)[1..] == a[1..] + b;
      EpochJoins(Step(s, a[0]), a[1..], b);
    }
  }

  lemma EpochPair(s: State, a: Event, b: Event)
    requires Admissible(s, a) && (a.End? ==> a.env.parsed) && !Restarts(s, a)
    requires Admissible(Step(s, a), b) && (b.End? ==> b.env.parsed) && !Restarts(Step(s, a), b)
    ensures EpochRun(s, [a, b]) && Run(s, [a, b]) == Step(Step(s, a), b)
  {
    hide Step, Restarts;
    var t := Step(s, a);
    assert [a, b][1..] == [b] && [b][1..] == [];
    assert EpochRun(Step(t, b), []) && Run(Step(t, b), []) == Step(t, b);
    assert EpochRun(t, [b]) && Run(t, [b]) == Step(t, b);
  }

  /** With a debt, eight good pictures into the eight slots take nine buffers away. */
  lemma {:induction false} Climb(s: State, id: nat, k: nat) returns (es: seq<Event>)
    requires Playing(s, id) && |Loose(s)| > 0 && k <= REFS && |InSlots(s)| == k
    requires forall t :: k <= t < REFS ==> s.model.slots[t] < 0
    ensures EpochRun(s, es) && |Away(Run(s, es))| > REFS
    decreases REFS - k
  {
    hide EpochRun, Loose, InSlots, Away, BeginPicture, EndPicture, Restarts;
    AwaySplits(s);
    if |Away(s)| > REFS {
      es := [];
      NoEvents(s);
    } else {
      Retarget(s, id);
      var t := BeginPicture(s, id, true);
      NeverStarves(t);
      PlayPicture(t, id, k);
      var env := GoodPicture(t, OrderHint.Pow2(k) % 256);
      var u := EndPicture(t, env);
      var rest := Climb(u, id, k + 1);
      BeginIsQuiet(s, id);
      EpochPair(s, Begin(id, true), End(env));
      EpochJoins(s, [Begin(id, true), End(env)], rest);
      es := [Begin(id, true), End(env)] + rest;
    }
  }

  lemma NoEvents(s: State)
    ensures EpochRun(s, []) && Run(s, []) == s
  {
  }

  lemma BeginIsQuiet(s: State, id: nat)
    ensures !Restarts(s, Begin(id, true))
  {
  }

  /** A context with more than eight and at most 24 capture buffers, a negotiated format, bitstream buffers and
    * a render target without a buffer. */
  ghost predicate Playable(s: State, id: nat) {
    && CopyMode(s) && Negotiated(s) && REFS < s.capAllocd <= NUM_CAP && s.outAllocd > 0
    && id in s.targets && id in s.held && !s.Holds(id)
  }

  /** If some surface holds a buffer at a reset, an epoch from there on takes more than eight buffers away. */
  lemma HeldExceeds(s: State, id: nat, holder: nat) returns (es: seq<Event>)
    requires Playable(s, id) && s.Holds(holder)
    ensures EpochRun(DecodeReset(s), es) && |Away(Run(DecodeReset(s), es))| > REFS
  {
    hide DecodeReset, EpochRun, Playable, Playing, Kept, Loose, Away, InSlots;
    ResetPlays(s, id);
    ResetOwes(s, id, holder);
    es := Climb(DecodeReset(s), id, 0);
  }

  lemma ResetPlays(s: State, id: nat)
    requires Playable(s, id)
    ensures var t := DecodeReset(s);
            Playing(t, id) && |InSlots(t)| == 0 && t.model.slots == NO_REFS
  {
    hide DecodeReset, CopyMode;
    AfterDecodeReset(s);
    var t := DecodeReset(s);
    forall x ensures x !in InSlots(t) { LooseIs(t, x); }
    assert InSlots(t) == {};
  }

  lemma ResetOwes(s: State, id: nat, holder: nat)
    requires Playable(s, id) && s.Holds(holder)
    ensures |Loose(DecodeReset(s))| > 0
  {
    hide DecodeReset, Loose;
    AfterDecodeReset(s);
    HeldIs(s, s.held[holder]);
    assert s.held[holder] in Kept(s);
  }

  /** Main result on epochs: at most eight buffers are away in every epoch run from a reset if and only if no
    * surface holds a buffer at that reset. */
  lemma EpochExact(s: State, id: nat)
    requires Playable(s, id)
    ensures (forall es :: EpochRun(DecodeReset(s), es) ==> |Away(Run(DecodeReset(s), es))| <= REFS)
            <==> (forall i :: !s.Holds(i))
  {
    hide DecodeReset, EpochRun, Away, Run;
    if forall i :: !s.Holds(i) {
      AfterDecodeReset(s);
      assert Kept(s) == {} by { forall x ensures x !in HeldSet(s) { HeldIs(s, x); } }
      forall es | EpochRun(DecodeReset(s), es) ensures |Away(Run(DecodeReset(s), es))| <= REFS {
        EpochBounded(DecodeReset(s), es);
      }
    } else {
      var holder :| s.Holds(holder);
      var es := HeldExceeds(s, id, holder);
    }
  }
}
