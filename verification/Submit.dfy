/** Accounting of `v4l2sl_decode_submit`: where every OUTPUT and CAPTURE index is on each exit. */
module Submit {
  import opened Wrappers
  import opened Pools
  import opened V4l2Kernel
  import opened Bridge
  import opened Ownership

  /** The capture index the decode is going to use: the claim in EXPBUF mode, else the pool's last. */
  ghost function Chosen(s: State): int
    requires ChooseCapture(s).Some?
  {
    ChooseCapture(s).value.0
  }

  /** The pool without it. */
  ghost function Rest(s: State): seq<int>
    requires ChooseCapture(s).Some?
  {
    ChooseCapture(s).value.1.freeCap
  }

  /** The state in which decode_submit is called: streaming, a request allocated, `out` filled. */
  ghost predicate Ready(s: State, out: int) {
    CaptureSide(s) && InHand(s, out) && s.streamed && s.request
  }

  /** The OUTPUT indices were complete before `out` was popped. */
  ghost predicate CompleteWith(s: State, out: int) {
    OutputCovered(s.(freeOut := s.freeOut + [out]))
  }

  /** Nothing but the pools, the request, the queues and, on a reset, the slot model may change. */
  ghost predicate SameOwners(s: State, t: State) {
    && t.cfg == s.cfg && t.geo == s.geo && t.outAllocd == s.outAllocd && t.capAllocd == s.capAllocd
    && t.targets == s.targets && t.current == s.current && t.held == s.held
    && t.kernel.fault == s.kernel.fault
  }

  /** The exit went through decode_reset. */
  ghost predicate AfterReset(s: State, t: State) {
    && !t.streamed && !t.request && t.model == ResetModel() && t.kernel.refs == NO_REFS
    && t.freeOut == Upto(Min(s.outAllocd, NUM_OUT)) && t.kernel.out.queued == {}
    && t.freeCap == Unclaimed(Min(s.capAllocd, MAX_CAP), ClaimedIndices(s))
    && (forall x :: x in t.freeCap <==>
                    0 <= x < Min(s.capAllocd, MAX_CAP) && !exists id :: s.Holds(id) && s.held[id] == x)
  }

  /** The chosen capture index went back to the pool and the reference table is untouched. */
  ghost predicate GaveBack(s: State, t: State) {
    && t.streamed && t.model == s.model && t.kernel.refs == s.kernel.refs
    && (ChooseCapture(s).None? ==> t.freeCap == s.freeCap)
    && (ChooseCapture(s).Some? ==> t.freeCap == Push(Rest(s), Chosen(s), MAX_CAP))
  }

  /** The picture was decoded into the chosen index, which the caller now owns. */
  ghost predicate Decoded(s: State, mask: Mask, t: State, r: int) {
    && ChooseCapture(s).Some? && r == Chosen(s) && t.freeCap == Rest(s)
    && t.streamed && t.model == s.model && t.kernel.refs == Refreshed(s.kernel.refs, mask, r)
  }

  ghost predicate Accounted(s: State, out: int, mask: Mask, t: State, r: int) {
    && Basic(t) && SameOwners(s, t)
    && (CompleteWith(s, out) ==> OutputCovered(t))
    && (r >= 0 ==> Decoded(s, mask, t, r))
    && (r == -2 ==> GaveBack(s, t) && ChooseCapture(s).Some?)
    && (r < 0 && r != -2 ==> r == -1 && (AfterReset(s, t) || GaveBack(s, t)))
  }

  // ----- the OUTPUT side

  lemma EnqueueOutput(s: State, out: int)
    requires InHand(s, out) && Agrees(s) && s.streamed
    ensures OutputSafe(s.(kernel := s.kernel.Enqueue(Output, out, true)))
    ensures CompleteWith(s, out) ==> OutputCovered(s.(kernel := s.kernel.Enqueue(Output, out, true)))
    ensures 0 <= out < s.outAllocd && out !in s.kernel.out.queued
  {
    PushOutSafe(s, out);
    var f := s.freeOut + [out];
    assert out in f;
    forall x ensures x in f <==> x in s.freeOut || x == out {}
    assert out !in s.freeOut by {
      assert f[|s.freeOut|] == out;
      assert forall i :: 0 <= i < |s.freeOut| ==> f[i] == s.freeOut[i];
    }
    assert NoDup(s.freeOut) by {
      forall i, j | 0 <= i < j < |s.freeOut| ensures s.freeOut[i] != s.freeOut[j] {
        assert f[i] == s.freeOut[i] && f[j] == s.freeOut[j];
      }
    }
  }

  /** DQBUF on OUTPUT moves an index from the kernel to the pool, or nothing happens. */
  lemma DequeueOutput(s: State, reply: Option<int>)
    requires OutputSafe(s)
    ensures var done := s.kernel.Answer(Output, reply);
            var s1 := s.(kernel := s.kernel.Dequeue(Output, reply));
            var t := if done.Some? then s1.PushOut(done.value) else s1;
            && OutputSafe(t) && (OutputCovered(s) ==> OutputCovered(t))
            && t == s.(freeOut := t.freeOut, kernel := s.kernel.(out := s.kernel.out.(queued := t.kernel.out.queued)))
  {
    var done := s.kernel.Answer(Output, reply);
    if done.Some? {
      var s1 := s.(kernel := s.kernel.Dequeue(Output, reply));
      PushElements(s.freeOut, done.value, NUM_OUT);
      forall x | x in s1.PushOut(done.value).freeOut ensures 0 <= x < Min(s.outAllocd, NUM_OUT) {}
    }
  }

  lemma RecoverOutputKeeps(s: State, env: SubmitEnv)
    requires OutputSafe(s)
    ensures var t := RecoverOutput(s, env);
            && OutputSafe(t) && (OutputCovered(s) ==> OutputCovered(t))
            && t == s.(freeOut := t.freeOut, kernel := s.kernel.(out := s.kernel.out.(queued := t.kernel.out.queued)))
  {
    var first := s.kernel.Answer(Output, env.dqOut);
    DequeueOutput(s, if first.Some? then env.dqOut else env.dqOutLate);
  }

  // ----- the CAPTURE side

  /** The chosen index is a real buffer. */
  lemma ChosenInRange(s: State)
    requires CaptureSide(s) && ChooseCapture(s).Some?
    ensures 0 <= Chosen(s) < Min(s.capAllocd, MAX_CAP)
    ensures NoDup(Rest(s)) && Within(Rest(s), Min(s.capAllocd, MAX_CAP))
    ensures !s.Claimed() ==> Chosen(s) in s.freeCap && Chosen(s) !in Rest(s)
    ensures !s.Claimed() ==> forall x :: x in Rest(s) <==> x in s.freeCap && x != Chosen(s)
    ensures s.Claimed() ==> Chosen(s) == s.held[s.current.value] && Rest(s) == s.freeCap
  {
    if !s.Claimed() {
      var last := s.freeCap[|s.freeCap| - 1];
      assert last in s.freeCap;
      PopElements(s.freeCap);
      assert forall x :: x in Rest(s) ==> x in s.freeCap;
    } else {
      assert s.Holds(s.current.value);
    }
  }

  /** Without a claim, giving the index back restores the pool exactly. */
  lemma GiveBackRestores(s: State)
    requires CaptureSide(s) && ChooseCapture(s).Some? && !s.Claimed()
    ensures Push(Rest(s), Chosen(s), MAX_CAP) == s.freeCap
  {
    assert Within(s.freeCap, MAX_CAP);
    PopPush(s.freeCap, MAX_CAP);
  }

  /** The state with both buffers queued. */
  ghost function BothQueued(s: State, out: int): State
    requires ChooseCapture(s).Some?
  {
    s.(freeCap := Rest(s), kernel := s.kernel.Enqueue(Output, out, true).Enqueue(Capture, Chosen(s), true))
  }

  lemma BothQueuedFacts(s: State, out: int)
    requires Ready(s, out) && ChooseCapture(s).Some?
    ensures var q := BothQueued(s, out);
            && OutputSafe(q) && (CompleteWith(s, out) ==> OutputCovered(q))
            && CapturePool(q) && SameOwners(s, q) && q.model == s.model
            && q.kernel.cap == Queue(s.capAllocd, true, {Chosen(s)})
  {
    ChosenInRange(s);
    EnqueueOutput(s, out);
  }

  /** The exits through decode_reset. */
  lemma ResetAccounted(s: State, out: int, mask: Mask)
    requires Ready(s, out) && ChooseCapture(s).Some?
    ensures Accounted(s, out, mask, DecodeReset(BothQueued(s, out)), -1)
  {
    BothQueuedFacts(s, out);
    var q := BothQueued(s, out);
    assert forall id :: s.Holds(id) <==> q.Holds(id);
    ResetRebuildsQueued(q, {Chosen(s)});
  }

  /** The capture buffer came back: it is in the caller's hand. */
  lemma CaptureDone(s: State, out: int)
    requires Ready(s, out) && ChooseCapture(s).Some?
    ensures var q := BothQueued(s, out);
            var d := q.(kernel := q.kernel.Dequeue(Capture, Some(Chosen(s))));
            && OutputSafe(d) && (CompleteWith(s, out) ==> OutputCovered(d))
            && CaptureSide(d) && SameOwners(s, d) && d.model == s.model && d.request == s.request
            && d.streamed && d.freeCap == Rest(s) && d.kernel.refs == s.kernel.refs
  {
    ChosenInRange(s);
    BothQueuedFacts(s, out);
    var q := BothQueued(s, out);
    var d := q.(kernel := q.kernel.Dequeue(Capture, Some(Chosen(s))));
    assert q.kernel.cap.queued - {Chosen(s)} == {};
    assert forall id :: d.Holds(id) <==> s.Holds(id);
  }

  lemma FinishAccounted(s: State, out: int, mask: Mask, env: SubmitEnv)
    requires Ready(s, out) && ChooseCapture(s).Some?
    ensures var (t, r) := FinishSubmit(BothQueued(s, out), Chosen(s), mask, env);
            Accounted(s, out, mask, t, r)
  {
    hide BothQueued, RecoverOutput;
    ChosenInRange(s);
    CaptureDone(s, out);
    var q := BothQueued(s, out);
    var d := q.(kernel := q.kernel.Dequeue(Capture, Some(Chosen(s))));
    var e := if env.capError then d.PushCap(Chosen(s)) else d.(kernel := d.kernel.Refresh(mask, Chosen(s)));
    if env.capError {
      PushCapKeeps(d, Chosen(s));
    }
    assert forall id :: e.Holds(id) <==> d.Holds(id);
    RecoverOutputKeeps(e, env);
    var f := RecoverOutput(e, env);
    assert forall id :: f.Holds(id) <==> e.Holds(id);
  }

  /** Both buffers queued: from here to the return. */
  lemma AwaitAccounted(s: State, out: int, mask: Mask, env: SubmitEnv)
    requires Ready(s, out) && ChooseCapture(s).Some?
    ensures var (t, r) := AwaitDecode(BothQueued(s, out), mask, env); Accounted(s, out, mask, t, r)
  {
    hide Accounted;
    BothQueuedFacts(s, out);
    ResetAccounted(s, out, mask);
    FinishAccounted(s, out, mask, env);
  }

  /** QBUF of the bitstream failed: both indices go back. */
  lemma OutputRefused(s: State, out: int, mask: Mask)
    requires Ready(s, out) && ChooseCapture(s).Some?
    ensures var s1 := s.(freeCap := Rest(s), kernel := s.kernel.Enqueue(Output, out, false));
            Accounted(s, out, mask, s1.PushOut(out).PushCap(Chosen(s)), -1)
  {
    ChosenInRange(s);
    EnqueueOutput(s, out);
    PushOutSafe(s, out);
    PushCapKeeps(s.(freeCap := Rest(s)), Chosen(s));
  }

  /** QBUF of the capture buffer failed: it goes back, and the bitstream buffer is recovered if the
    * kernel lets go of it. */
  lemma CaptureRefused(s: State, out: int, mask: Mask, rescue: Option<int>)
    requires Ready(s, out) && ChooseCapture(s).Some?
    ensures var s2 := s.(freeCap := Rest(s), kernel := s.kernel.Enqueue(Output, out, true)
                                                        .Enqueue(Capture, Chosen(s), false)).PushCap(Chosen(s));
            var done := s2.kernel.Answer(Output, rescue);
            var s3 := s2.(kernel := s2.kernel.Dequeue(Output, rescue));
            Accounted(s, out, mask, if done.Some? then s3.PushOut(done.value) else s3, -1)
  {
    ChosenInRange(s);
    EnqueueOutput(s, out);
    var s2 := s.(freeCap := Rest(s), kernel := s.kernel.Enqueue(Output, out, true)
                                                .Enqueue(Capture, Chosen(s), false));
    PushCapKeeps(s2, Chosen(s));
    DequeueOutput(s2.PushCap(Chosen(s)), rescue);
  }

  /** Main result: on every exit the kernel's CAPTURE queue is empty, a non-negative result is the
    * index that was queued, every OUTPUT index is in the pool or in the kernel, and a reset exit has
    * rebuilt both pools. */
  lemma SubmitAccounted(s: State, out: int, mask: Mask, env: SubmitEnv)
    requires Ready(s, out)
    ensures Accounted(s, out, mask, DecodeSubmit(s, out, mask, env).0, DecodeSubmit(s, out, mask, env).1)
  {
    PushOutSafe(s, out);
    if ChooseCapture(s).Some? {
      if !env.qbufOut {
        OutputRefused(s, out, mask);
      } else if !env.qbufCap {
        CaptureRefused(s, out, mask, env.rescue);
      } else {
        AwaitAccounted(s, out, mask, env);
      }
    }
  }
}
