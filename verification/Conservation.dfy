/** Conservation of buffer indices: for the codecs without a slot model every capture index is pooled or held, and
  * for all every OUTPUT index is pooled or queued, exactly until a step loses one in a renegotiation. */
module Conservation {
  import opened Wrappers
  import opened Pools
  import opened V4l2Kernel
  import opened Bridge
  import opened Ownership
  import opened Submit
  import opened SlotRelease
  import opened Invariant
  import opened Exclusive
  import opened Picture

  ghost predicate HeldBySomeone(s: State, x: int) {
    exists id :: s.Holds(id) && s.held[id] == x
  }

  /** Every capture index is pooled or held; with `Disjoint`, in exactly one of these places. */
  ghost predicate Covered(s: State) {
    forall x :: 0 <= x < s.capAllocd ==> x in s.freeCap || HeldBySomeone(s, x)
  }

  /** An allocated index from 40 on is in no place. */
  lemma CoveredCapacity(s: State)
    requires CapturePool(s) && Registered(s) && Covered(s)
    ensures s.capAllocd <= MAX_CAP
  {
    assert s.capAllocd > MAX_CAP ==> MAX_CAP in s.freeCap || HeldBySomeone(s, MAX_CAP);
  }

  ghost predicate Conserved(s: State) {
    Sound(s) && !s.cfg.codec.AV1? && Covered(s)
  }

  // ----- renegotiation

  /** The renegotiation loses capture indices: it stops after clearing surfaces that held some, or the
    * driver grants more buffers than the refill loop hands out. */
  ghost predicate LosesCapture(s: State, w: int, h: int, fourcc: nat, env: EnsureEnv) {
    Renegotiates(s, w, h, if fourcc != 0 then fourcc else NV12) &&
    if Stuck(s, env) then exists id :: s.Holds(id)
    else GrantedBy(env.attempts) > NUM_CAP
  }

  /** STREAMOFF handed queued OUTPUT buffers back, but nothing pools them. */
  ghost predicate LosesOutput(s: State, w: int, h: int, fourcc: nat, env: EnsureEnv) {
    && Renegotiates(s, w, h, if fourcc != 0 then fourcc else NV12)
    && (exists x :: x in s.kernel.out.queued) && !RebuildsOutput(s, w, h, env)
  }

  /** ensure_capture keeps every capture index accounted for if and only if it does not stop after
    * clearing surfaces and is not granted more than 24 buffers. */
  lemma EnsureConservesCapture(s: State, w: int, h: int, fourcc: nat, env: EnsureEnv)
    requires Sound(s) && Covered(s)
    ensures Covered(EnsureCapture(s, w, h, fourcc, env).0) <==> !LosesCapture(s, w, h, fourcc, env)
  {
    hide EnsureCapture, Basic;
    EnsureKeeps(s, w, h, fourcc, env);
    var (t, ok) := EnsureCapture(s, w, h, fourcc, env);
    if Renegotiates(s, w, h, if fourcc != 0 then fourcc else NV12) {
      EnsureSettled(s, w, h, fourcc, env);
      assert forall x :: !HeldBySomeone(t, x);
      if Stuck(s, env) {
        if exists id :: s.Holds(id) {
          var id :| s.Holds(id);
          InRange(s, id);
          assert s.held[id] !in t.freeCap;
        } else {
          assert forall x :: !HeldBySomeone(s, x);
        }
      } else if t.capAllocd > NUM_CAP {
        assert NUM_CAP !in t.freeCap;
      } else {
        forall x | 0 <= x < t.capAllocd ensures x in t.freeCap {
          assert t.freeCap[x] == x;
        }
      }
    }
  }

  lemma InRange(s: State, id: nat)
    requires Basic(s) && s.Holds(id)
    ensures 0 <= s.held[id] < s.capAllocd
  {
  }

  /** ensure_capture keeps every OUTPUT index accounted for if and only if nothing was queued or the
    * OUTPUT queue is requested again. */
  lemma EnsureConservesOutput(s: State, w: int, h: int, fourcc: nat, env: EnsureEnv)
    requires Basic(s) && OutputCovered(s)
    ensures OutputCovered(EnsureCapture(s, w, h, fourcc, env).0) <==> !LosesOutput(s, w, h, fourcc, env)
  {
    hide TryCapture, Basic;
    if Renegotiates(s, w, h, if fourcc != 0 then fourcc else NV12) {
      EnsureSettled(s, w, h, fourcc, env);
      var t := EnsureCapture(s, w, h, fourcc, env).0;
      if RebuildsOutput(s, w, h, env) {
        forall x | 0 <= x < Min(t.outAllocd, NUM_OUT) ensures x in t.freeOut {
          assert t.freeOut[x] == x;
        }
      } else if exists y :: y in s.kernel.out.queued {
        var x := QueuedInRange(s);
        assert x !in t.freeOut && x !in t.kernel.out.queued;
      }
    }
  }

  lemma QueuedInRange(s: State) returns (x: int)
    requires Basic(s) && exists y :: y in s.kernel.out.queued
    ensures x in s.kernel.out.queued && 0 <= x < Min(s.outAllocd, NUM_OUT) && x !in s.freeOut
  {
    x :| x in s.kernel.out.queued;
  }

  // ----- steps and runs

  /** The same surfaces, and a pool that still has everything it had. */
  lemma StaysCovered(s: State, t: State)
    requires Covered(s) && t.held == s.held && t.capAllocd == s.capAllocd
    requires forall x :: x in s.freeCap ==> x in t.freeCap
    ensures Covered(t)
  {
    forall x | 0 <= x < t.capAllocd ensures x in t.freeCap || HeldBySomeone(t, x) {
      if x !in s.freeCap {
        var id :| s.Holds(id) && s.held[id] == x;
        assert t.Holds(id);
      }
    }
  }

  /** One surface gives up its buffer to the pool. */
  lemma GivesUp(s: State, t: State, id: nat)
    requires Covered(s) && t.capAllocd == s.capAllocd
    requires forall i :: i in s.held && i != id ==> i in t.held && t.held[i] == s.held[i]
    requires forall x :: x in s.freeCap ==> x in t.freeCap
    requires s.Holds(id) ==> s.held[id] in t.freeCap || s.held[id] >= s.capAllocd
    ensures Covered(t)
  {
    forall x | 0 <= x < t.capAllocd ensures x in t.freeCap || HeldBySomeone(t, x) {
      if x !in s.freeCap {
        var i :| s.Holds(i) && s.held[i] == x;
        if i != id { assert t.Holds(i); }
      }
    }
  }

  /** One pool index moves to a surface that held nothing. */
  lemma Takes(s: State, t: State, id: nat, buf: int)
    requires Covered(s) && t.capAllocd == s.capAllocd && buf >= 0
    requires t.held == s.held[id := buf] && (s.Holds(id) ==> s.held[id] == buf)
    requires forall x :: x in s.freeCap && x != buf ==> x in t.freeCap
    ensures Covered(t)
  {
    assert t.Holds(id);
    forall x | 0 <= x < t.capAllocd ensures x in t.freeCap || HeldBySomeone(t, x) {
      if x !in t.freeCap && x != buf {
        var i :| s.Holds(i) && s.held[i] == x;
        assert t.Holds(i);
      }
    }
  }

  lemma FinishCovered(p: State, out: int, mask: Mask, env: EndEnv)
    requires Ready(p, out) && p.current.Some? && p.current.value in p.held
    requires !p.cfg.codec.AV1? && Covered(p)
    ensures var (t, r) := DecodeSubmit(p, out, mask, env.submit); Covered(Conclude(t, r, env))
  {
    hide DecodeSubmit;
    CoveredCapacity(p);
    SubmitAccounted(p, out, mask, env.submit);
    var (t, r) := DecodeSubmit(p, out, mask, env.submit);
    if ChooseCapture(p).Some? {
      ChosenInRange(p);
    }
    if r >= 0 {
      if PullWorks(t, r, env.copyOutOk) {
        Takes(p, Conclude(t, r, env), p.current.value, r);
      } else {
        PushCapKeeps(t, r);
        StaysCovered(p, Conclude(t, r, env));
      }
    } else if !t.streamed {
      ResetCovered(p, t);
      StaysCovered(t, Conclude(t, r, env));
    } else {
      if ChooseCapture(p).Some? {
        PushElements(Rest(p), Chosen(p), MAX_CAP);
      }
      StaysCovered(p, Conclude(t, r, env));
    }
  }

  /** A reset pools everything no surface holds, as far as 40. */
  lemma ResetCovered(p: State, t: State)
    requires AfterReset(p, t) && t.held == p.held && t.capAllocd == p.capAllocd && p.capAllocd <= MAX_CAP
    ensures Covered(t)
  {
    forall x | 0 <= x < t.capAllocd ensures x in t.freeCap || HeldBySomeone(t, x) {
      if id :| p.Holds(id) && p.held[id] == x { assert t.Holds(id); }
    }
  }

  /** More than 24 buffers were granted: index 24 is in no place. */
  ghost predicate Spilled(p: State) {
    && p.capAllocd > NUM_CAP && (forall x :: x in p.freeCap ==> x < NUM_CAP)
    && (forall id :: p.Holds(id) ==> p.held[id] < NUM_CAP)
  }

  lemma SpilledNotCovered(p: State)
    requires Spilled(p)
    ensures !Covered(p)
  {
    assert NUM_CAP !in p.freeCap && !HeldBySomeone(p, NUM_CAP);
  }

  /** Only a reset of at most 40 buffers gets the lost ones back. */
  lemma FinishSpilled(p: State, out: int, mask: Mask, env: EndEnv)
    requires Ready(p, out) && p.current.Some? && p.current.value in p.held && !p.cfg.codec.AV1? && Spilled(p)
    ensures var (t, r) := DecodeSubmit(p, out, mask, env.submit);
            Covered(Conclude(t, r, env)) <==> r < 0 && !t.streamed && p.capAllocd <= MAX_CAP
  {
    hide DecodeSubmit;
    SubmitAccounted(p, out, mask, env.submit);
    var (t, r) := DecodeSubmit(p, out, mask, env.submit);
    var u := Conclude(t, r, env);
    if ChooseCapture(p).Some? {
      ChosenInRange(p);
      PushElements(Rest(p), Chosen(p), MAX_CAP);
      if p.Claimed() { assert p.Holds(p.current.value); }
    }
    if r < 0 && !t.streamed {
      if p.capAllocd <= MAX_CAP {
        ResetCovered(p, t);
        StaysCovered(t, u);
      } else if Covered(u) {
        CoveredCapacity(t) by { StaysCovered(u, t); }
      }
    } else {
      if r >= 0 { PushCapKeeps(t, r); }
      SpilledNotCovered(u);
    }
  }

  /** The picture's renegotiation loses indices, and its own reset does not get them back. */
  ghost predicate PictureLoses(s: State, env: EndEnv) {
    && env.paramsOk && LosesCapture(s, env.w, env.h, env.fourcc, env.ensure)
    && !(Resets(s, env) && GrantedBy(env.ensure.attempts) <= MAX_CAP)
  }

  /** The event loses capture indices. */
  ghost predicate Loses(s: State, e: Event) {
    match e
    case End(env) => s.current.Some? && s.request && PictureLoses(s, env)
    case Export(id, w, h, env) =>
      && s.cfg.expbuf && id in s.held && s.held[id] < 0
      && LosesCapture(s, if s.geo.width > 0 then s.geo.width else w,
                      if s.geo.height > 0 then s.geo.height else h, s.geo.fourcc, env)
    case _ => false
  }

  lemma PrepareCovered(s: State, env: EndEnv)
    requires Conserved(s) && s.current.Some? && s.request && (env.streamOut ==> env.streamCap)
    ensures Covered(Prepare(s, env).0)
            <==> !(env.paramsOk && LosesCapture(s, env.w, env.h, env.fourcc, env.ensure))
  {
    hide EnsureCapture, StreamAndFill, LosesCapture, Basic, Disjoint, Tracked;
    var p := Prepare(s, env).0;
    assert Arm(s, env) == s;
    if env.paramsOk {
      EnsureConservesCapture(s, env.w, env.h, env.fourcc, env.ensure);
      var (s1, ok) := EnsureCapture(s, env.w, env.h, env.fourcc, env.ensure);
      if ok {
        StreamAndFillCapture(s1, env);
        if Covered(s1) { StaysCovered(s1, p); }
        if Covered(p) { StaysCovered(p, s1); }
      }
    }
  }

  /** A picture that loses indices and still reaches its decode was granted more than 24. */
  lemma LosingReached(s: State, env: EndEnv)
    requires Conserved(s) && s.current.Some? && s.request && (env.streamOut ==> env.streamCap)
    requires LosesCapture(s, env.w, env.h, env.fourcc, env.ensure) && Reaches(s, env)
    ensures var p := Prepare(s, env).0; Spilled(p) && p.capAllocd == GrantedBy(env.ensure.attempts)
  {
    hide Prepare;
    PrepareKeeps(s, env);
  }

  lemma StreamAndFillCapture(s: State, env: EndEnv)
    ensures var p := StreamAndFill(s, env).0;
            p == s.(freeOut := p.freeOut, streamed := p.streamed, kernel := p.kernel)
  {
  }

  lemma CreateCovered(s: State, id: nat)
    requires Conserved(s)
    ensures Covered(CreateSurface(s, id))
  {
    if id !in s.held { GivesUp(s, CreateSurface(s, id), id); }
  }

  lemma DestroyCovered(s: State, id: nat)
    requires Conserved(s)
    ensures Covered(DestroySurface(s, id))
  {
    if id in s.held {
      if s.Holds(id) { PushCapKeeps(s, s.held[id]); }
      GivesUp(s, DestroySurface(s, id), id);
    }
  }

  lemma BeginCovered(s: State, id: nat, allocOk: bool)
    requires Conserved(s)
    ensures Covered(BeginPicture(s, id, allocOk))
  {
    var t := BeginPicture(s, id, allocOk);
    if s.Holds(id) && !s.cfg.expbuf {
      PushCapKeeps(s, s.held[id]);
      GivesUp(s, t, id);
    } else {
      StaysCovered(s, t);
    }
  }

  lemma EndCovered(s: State, env: EndEnv)
    requires Conserved(s) && (env.streamOut ==> env.streamCap)
    ensures Covered(EndPicture(s, env)) <==> !Loses(s, End(env))
  {
    hide Prepare, DecodeSubmit, Conclude, LosesCapture, Basic, Disjoint, Tracked, Reaches, Resets;
    if s.current.Some? && s.request {
      PrepareKeeps(s, env);
      PrepareConfig(s, env);
      PrepareCovered(s, env);
      var (p, out) := Prepare(s, env);
      if out.Some? {
        PictureExit(s, env);
        if Covered(p) {
          FinishCovered(p, out.value, SubmittedMask(s, env), env);
        } else {
          LosingReached(s, env);
          FinishSpilled(p, out.value, SubmittedMask(s, env), env);
        }
      } else {
        NotReset(s, env);
        SameCovered(p, FailPicture(p));
      }
    } else {
      StaysCovered(s, EndPicture(s, env));
    }
  }

  lemma NotReset(s: State, env: EndEnv)
    requires !Reaches(s, env)
    ensures !Resets(s, env)
  {
  }

  lemma SameCovered(s: State, t: State)
    requires t.held == s.held && t.capAllocd == s.capAllocd && t.freeCap == s.freeCap
    ensures Covered(t) <==> Covered(s)
  {
    if Covered(s) { StaysCovered(s, t); }
    if Covered(t) { StaysCovered(t, s); }
  }

  /** Preparing a picture keeps the codec and the current surface. */
  lemma PrepareConfig(s: State, env: EndEnv)
    requires Basic(s) && s.request && s.current.Some? && (env.streamOut ==> env.streamCap)
    ensures var p := Prepare(s, env).0;
            p.cfg == s.cfg && p.current == s.current && p.current.value in p.held
  {
    hide Prepare;
    PrepareKeeps(s, env);
  }

  /** Main result, one step: every capture index is still in exactly one place if and only if the step recycles no
    * claim and loses no index in a renegotiation. */
  lemma StepConserves(s: State, e: Event)
    requires Conserved(s) && Admissible(s, e)
    ensures Conserved(Step(s, e)) <==> Clean(s, e) && !Loses(s, e)
  {
    StepOwned(s, e);
    StepConfig(s, e);
    hide *;
    StepCovered(s, e);
    ConservedParts(s, Step(s, e));
  }

  lemma ConservedParts(s: State, t: State)
    requires Conserved(s) && t.cfg == s.cfg && Basic(t) && Tracked(t)
    ensures Conserved(t) <==> Disjoint(t) && Covered(t)
  {
  }

  lemma StepCovered(s: State, e: Event)
    requires Conserved(s) && Admissible(s, e)
    ensures Covered(Step(s, e)) <==> !Loses(s, e)
  {
    hide EndPicture, ExportSurface, LosesCapture, PictureLoses;
    match e
    case Create(id) => CreateCovered(s, id);
    case Destroy(id) => DestroyCovered(s, id);
    case Begin(id, allocOk) => BeginCovered(s, id, allocOk);
    case End(env) => EndCovered(s, env);
    case Export(id, w, h, env) => ExportCovered(s, id, w, h, env);
  }

  lemma ExportCovered(s: State, id: nat, w: int, h: int, env: EnsureEnv)
    requires Conserved(s)
    ensures Covered(ExportSurface(s, id, w, h, env)) <==> !Loses(s, Export(id, w, h, env))
  {
    hide EnsureCapture, LosesCapture, Basic, Disjoint, Tracked;
    if id in s.held && s.cfg.expbuf && s.held[id] < 0 {
      var w' := if s.geo.width > 0 then s.geo.width else w;
      var h' := if s.geo.height > 0 then s.geo.height else h;
      EnsureConservesCapture(s, w', h', s.geo.fourcc, env);
      EnsureKeeps(s, w', h', s.geo.fourcc, env);
      var (s1, ok) := EnsureCapture(s, w', h', s.geo.fourcc, env);
      if ok && !s1.Holds(id) && |s1.freeCap| > 0 {
        ClaimKeepsRest(s1, id);
        var t := ExportSurface(s, id, w, h, env);
        if Covered(s1) {
          Takes(s1, t, id, s1.freeCap[|s1.freeCap| - 1]);
        } else {
          LosingEnsured(s, w', h', env);
          SpilledNotCovered(t);
        }
      }
    }
  }

  lemma LosingEnsured(s: State, w: int, h: int, env: EnsureEnv)
    requires Conserved(s) && LosesCapture(s, w, h, s.geo.fourcc, env) && EnsureCapture(s, w, h, s.geo.fourcc, env).1
    ensures Spilled(EnsureCapture(s, w, h, s.geo.fourcc, env).0)
  {
    hide EnsureCapture;
    EnsureKeeps(s, w, h, s.geo.fourcc, env);
    EnsureSettled(s, w, h, s.geo.fourcc, env);
  }

  lemma ClaimKeepsRest(s: State, id: nat)
    requires Basic(s) && |s.freeCap| > 0
    ensures s.freeCap[|s.freeCap| - 1] >= 0
    ensures forall x :: x in s.freeCap && x != s.freeCap[|s.freeCap| - 1] ==> x in s.freeCap[..|s.freeCap| - 1]
  {
    PopElements(s.freeCap);
    var last := s.freeCap[|s.freeCap| - 1];
    assert last in s.freeCap;
  }

  ghost predicate LosslessRun(s: State, es: seq<Event>)
    decreases |es|
  {
    es == [] || (!Loses(s, es[0]) && LosslessRun(Step(s, es[0]), es[1..]))
  }

  ghost predicate ConservedThroughout(s: State, es: seq<Event>)
    decreases |es|
  {
    Conserved(s) && (es == [] || ConservedThroughout(Step(s, es[0]), es[1..]))
  }

  /** Main result, whole runs: for the codecs without a slot model every capture index is in exactly one place - the
    * pool or one surface - throughout a run if and only if no step recycles a claim and none loses an index. */
  lemma {:induction false} RunConserves(s: State, es: seq<Event>)
    requires Conserved(s) && AdmissibleRun(s, es)
    ensures ConservedThroughout(s, es) <==> CleanRun(s, es) && LosslessRun(s, es)
    ensures CleanRun(s, es) && LosslessRun(s, es) ==> Conserved(Run(s, es))
    decreases |es|
  {
    hide Step, Clean, Loses;
    if es != [] {
      hide Conserved;
      StepConserves(s, es[0]);
      if Conserved(Step(s, es[0])) { RunConserves(Step(s, es[0]), es[1..]); }
    }
  }

  // ----- OUTPUT runs

  /** The event loses OUTPUT indices: its renegotiation does, and the picture's own reset does not get them back. */
  ghost predicate LosesOut(s: State, e: Event) {
    match e
    case End(env) =>
      && s.current.Some? && s.request && env.paramsOk
      && LosesOutput(s, env.w, env.h, env.fourcc, env.ensure) && !Resets(s, env)
    case Export(id, w, h, env) =>
      && s.cfg.expbuf && id in s.held && s.held[id] < 0
      && LosesOutput(s, if s.geo.width > 0 then s.geo.width else w,
                     if s.geo.height > 0 then s.geo.height else h, s.geo.fourcc, env)
    case _ => false
  }

  /** OUTPUT index x is in no place. */
  ghost predicate OutputLost(s: State, x: int) {
    0 <= x < Min(s.outAllocd, NUM_OUT) && x !in s.freeOut && x !in s.kernel.out.queued
  }

  /** DQBUF pools only what was queued. */
  lemma RecoverLost(s: State, env: SubmitEnv, x: int)
    requires OutputLost(s, x)
    ensures OutputLost(RecoverOutput(s, env), x)
  {
  }

  /** Without a reset a decode finds no lost OUTPUT index again. */
  lemma SubmitLost(p: State, out: int, mask: Mask, env: SubmitEnv, x: int)
    requires OutputLost(p, x) && x != out
    ensures var (t, r) := DecodeSubmit(p, out, mask, env); t.streamed ==> OutputLost(t, x)
  {
    hide RecoverOutput;
    if p.request && ChooseCapture(p).Some? {
      var (cap, s0) := ChooseCapture(p).value;
      var q := s0.(kernel := s0.kernel.Enqueue(Output, out, true));
      if env.qbufOut && env.qbufCap {
        AwaitLost(q.(kernel := q.kernel.Enqueue(Capture, cap, true)), mask, env, x);
      }
    }
  }

  lemma AwaitLost(q: State, mask: Mask, env: SubmitEnv, x: int)
    requires OutputLost(q, x)
    ensures var (t, r) := AwaitDecode(q, mask, env); t.streamed ==> OutputLost(t, x)
  {
    hide RecoverOutput;
    var done := q.kernel.Answer(Capture, env.dqCap);
    if env.submitted && env.polled && done.Some? {
      var s1 := q.(kernel := q.kernel.Dequeue(Capture, Some(done.value)));
      RecoverLost(if env.capError then s1.PushCap(done.value)
                  else s1.(kernel := s1.kernel.Refresh(mask, done.value)), env, x);
    }
  }

  /** Starting the queues and filling a bitstream buffer move no other OUTPUT index. */
  lemma StreamAndFillOutputs(s: State, env: EndEnv)
    requires Basic(s) && s.capAllocd > 0 && s.request && (env.streamOut ==> env.streamCap)
    ensures var (p, out) := StreamAndFill(s, env);
            && (OutputCovered(s) ==> (out.None? ==> OutputCovered(p)) && (out.Some? ==> CompleteWith(p, out.value)))
            && (forall x :: OutputLost(s, x) ==> OutputLost(p, x) && out != Some(x))
  {
    StartStreamingKeeps(s, env);
    var (s1, streaming) := StartStreaming(s, env);
    assert s1.kernel.out.queued == s.kernel.out.queued;
    if streaming && env.controlsOk {
      FillOutputKeeps(s1, env.copyInOk);
    }
  }

  /** The OUTPUT indices before the decode. */
  lemma PrepareOutputs(s: State, env: EndEnv) returns (x: int)
    requires Basic(s) && s.request && OutputCovered(s) && (env.streamOut ==> env.streamCap)
    ensures var (p, out) := Prepare(s, env);
            if env.paramsOk && LosesOutput(s, env.w, env.h, env.fourcc, env.ensure)
            then OutputLost(p, x) && out != Some(x)
            else (out.None? ==> OutputCovered(p)) && (out.Some? ==> CompleteWith(p, out.value))
  {
    hide EnsureCapture, StreamAndFill, LosesOutput, Basic;
    x := 0;
    if env.paramsOk {
      ArmBasic(s, env);
      var s0 := Arm(s, env);
      SameLoss(s, s0, env);
      EnsureConservesOutput(s0, env.w, env.h, env.fourcc, env.ensure);
      EnsureKeeps(s0, env.w, env.h, env.fourcc, env.ensure);
      var (s1, ok) := EnsureCapture(s0, env.w, env.h, env.fourcc, env.ensure);
      if !OutputCovered(s1) { x := SomeLost(s1); }
      if ok { StreamAndFillOutputs(s1, env); }
    }
  }

  lemma SameLoss(s: State, s0: State, env: EndEnv)
    requires s0 == s.(model := s0.model)
    ensures LosesOutput(s0, env.w, env.h, env.fourcc, env.ensure)
            <==> LosesOutput(s, env.w, env.h, env.fourcc, env.ensure)
  {
  }

  lemma SomeLost(s: State) returns (x: int)
    requires !OutputCovered(s)
    ensures OutputLost(s, x)
  {
    x :| 0 <= x < Min(s.outAllocd, NUM_OUT) && !(x in s.freeOut || x in s.kernel.out.queued);
  }

  lemma DeliverOutputs(s: State, r: int, env: EndEnv)
    requires Basic(s) && (r >= 0 ==> r < Min(s.capAllocd, MAX_CAP))
    ensures Conclude(s, r, env).freeOut == s.freeOut && Conclude(s, r, env).outAllocd == s.outAllocd
    ensures Conclude(s, r, env).kernel == s.kernel
  {
    if r >= 0 && s.current.Some? && PullWorks(s, r, env.copyOutOk) && s.cfg.codec.AV1? && s.model.active {
      var s1 := s.SetHeld(s.current.value, r);
      assert SlotsInRange(s1);
      ReleaseExact(s1, s.current.value, r, env.mask);
      ReleaseIgnoresCurrent(s1, s.current.value, r, env.mask);
    }
  }

  lemma EndOutputs(s: State, env: EndEnv)
    requires Basic(s) && OutputCovered(s) && (env.streamOut ==> env.streamCap)
    ensures OutputCovered(EndPicture(s, env)) <==> !LosesOut(s, End(env))
  {
    hide Prepare, DecodeSubmit, Conclude, LosesOutput, Basic, Reaches, Resets;
    if s.current.Some? && s.request {
      PrepareKeeps(s, env);
      var x := PrepareOutputs(s, env);
      var (p, out) := Prepare(s, env);
      if out.Some? {
        var mask := SubmittedMask(s, env);
        PictureExit(s, env);
        SubmitAccounted(p, out.value, mask, env.submit);
        var (t, r) := DecodeSubmit(p, out.value, mask, env.submit);
        if r >= 0 { ChosenInRange(p); }
        DeliverOutputs(t, r, env);
        if !t.streamed {
          assert OutputCovered(t) by { ResetOutputs(t); }
        } else if LosesOutput(s, env.w, env.h, env.fourcc, env.ensure) {
          SubmitLost(p, out.value, mask, env.submit, x);
        }
      } else {
        NotReset(s, env);
      }
    }
  }

  lemma ResetOutputs(t: State)
    requires t.freeOut == Upto(Min(t.outAllocd, NUM_OUT))
    ensures OutputCovered(t)
  {
    forall x | 0 <= x < Min(t.outAllocd, NUM_OUT) ensures x in t.freeOut {
      assert t.freeOut[x] == x;
    }
  }

  /** Main result, one step, in both modes and on every failure exit: every OUTPUT index is still pooled or queued if
    * and only if the step loses none. */
  lemma StepOutputs(s: State, e: Event)
    requires Basic(s) && Admissible(s, e) && OutputCovered(s)
    ensures OutputCovered(Step(s, e)) <==> !LosesOut(s, e)
  {
    hide EndPicture, EnsureCapture, LosesOutput, Basic;
    match e
    case Create(_) =>
    case Destroy(_) =>
    case Begin(_, _) =>
    case End(env) => EndOutputs(s, env);
    case Export(id, w, h, env) =>
      EnsureConservesOutput(s, if s.geo.width > 0 then s.geo.width else w,
                            if s.geo.height > 0 then s.geo.height else h, s.geo.fourcc, env);
  }

  ghost predicate OutputLosslessRun(s: State, es: seq<Event>)
    decreases |es|
  {
    es == [] || (!LosesOut(s, es[0]) && OutputLosslessRun(Step(s, es[0]), es[1..]))
  }

  /** Every OUTPUT index is in exactly one of the pool and the kernel queue. */
  ghost predicate OutputsThroughout(s: State, es: seq<Event>)
    decreases |es|
  {
    OutputSafe(s) && OutputCovered(s) && (es == [] || OutputsThroughout(Step(s, es[0]), es[1..]))
  }

  /** Main result, whole runs: every OUTPUT index is in exactly one of the pool and the kernel queue throughout a run,
    * in both modes and on every failure exit, if and only if no step loses one. */
  lemma {:induction false} RunOutputs(s: State, es: seq<Event>)
    requires Basic(s) && OutputCovered(s) && AdmissibleRun(s, es)
    ensures OutputsThroughout(s, es) <==> OutputLosslessRun(s, es)
    ensures OutputLosslessRun(s, es) ==> OutputSafe(Run(s, es)) && OutputCovered(Run(s, es))
    decreases |es|
  {
    hide Step, LosesOut, OutputSafe, OutputCovered;
    BasicSafe(s);
    if es != [] {
      StepKeeps(s, es[0]);
      StepOutputs(s, es[0]);
      if OutputCovered(Step(s, es[0])) { RunOutputs(Step(s, es[0]), es[1..]); }
      else { NotThroughout(Step(s, es[0]), es[1..]); }
    }
  }

  lemma BasicSafe(s: State)
    requires Basic(s)
    ensures OutputSafe(s)
  {
  }

  lemma NotThroughout(s: State, es: seq<Event>)
    requires !OutputCovered(s)
    ensures !OutputsThroughout(s, es)
  {
  }
}
