/** Every entry point keeps the structural invariant, and when exactly V4L2 refuses an ioctl. */
module Invariant {
  import opened Wrappers
  import opened Pools
  import opened V4l2Kernel
  import opened Bridge
  import opened Ownership
  import opened Submit
  import opened SlotRelease

  /** The picture reaches a renegotiation. */
  predicate PictureRenegotiates(s: State, env: EndEnv) {
    env.paramsOk && Renegotiates(s, env.w, env.h, if env.fourcc != 0 then env.fourcc else NV12)
  }

  // ----- a picture in terms of its inputs

  /** ensure_capture succeeds for the picture. */
  predicate Ensures(s: State, env: EndEnv) {
    && env.paramsOk && env.w > 0 && env.h > 0
    && (PictureRenegotiates(s, env) ==> !Stuck(s, env.ensure) && GrantedBy(env.ensure.attempts) > 0)
  }

  /** The queues still stream after ensure_capture. */
  predicate KeepsStreaming(s: State, env: EndEnv) {
    s.streamed && !PictureRenegotiates(s, env)
  }

  /** The OUTPUT buffers after ensure_capture. */
  function OutputsOf(s: State, env: EndEnv): nat {
    if PictureRenegotiates(s, env) then OutputsAfter(s, env.w, env.h, env.ensure) else s.outAllocd
  }

  /** The capture pool after ensure_capture. */
  function PoolOf(s: State, env: EndEnv): seq<int> {
    if !PictureRenegotiates(s, env) || Stuck(s, env.ensure) then s.freeCap
    else Upto(Min(GrantedBy(env.ensure.attempts), NUM_CAP))
  }

  /** The capture buffers after ensure_capture. */
  function CapturesOf(s: State, env: EndEnv): nat {
    if !PictureRenegotiates(s, env) || Stuck(s, env.ensure) then s.capAllocd else GrantedBy(env.ensure.attempts)
  }

  /** A bitstream buffer is free when the picture wants one. */
  predicate HasOutput(s: State, env: EndEnv) {
    if PictureRenegotiates(s, env) && RebuildsOutput(s, env.w, env.h, env.ensure)
    then OutputsOf(s, env) > 0 else |s.freeOut| > 0
  }

  /** The picture reaches decode_submit. */
  predicate Reaches(s: State, env: EndEnv) {
    && Ensures(s, env)
    && (KeepsStreaming(s, env) || (env.streamOut && env.streamCap && OutputsOf(s, env) > 0))
    && env.controlsOk && HasOutput(s, env) && env.copyInOk
  }

  /** The slot model is armed when the picture is delivered: its header was parsed, now or since the model was
    * last reset, and no renegotiation of a streaming queue has disarmed it again. */
  predicate ArmedFor(s: State, env: EndEnv) {
    && (s.model.active || (s.cfg.codec.AV1? && env.parsed))
    && !(s.streamed && PictureRenegotiates(s, env))
  }

  /** The picture tries STREAMON although the OUTPUT queue could not be requested again, or has had no buffers
    * since an earlier picture failed to. */
  predicate StreamsWithoutOutput(s: State, env: EndEnv) {
    Ensures(s, env) && !KeepsStreaming(s, env) && OutputsOf(s, env) == 0
  }

  /** The CAPTURE side of `p` is that of `s`, up to arming the model and starting the queues. */
  ghost predicate SameCapture(s: State, p: State) {
    && p.held == s.held && p.freeCap == s.freeCap && p.capAllocd == s.capAllocd
    && p.model.slots == s.model.slots && p.model.owner == s.model.owner
    && p.kernel.refs == s.kernel.refs
    && (s.streamed ==> p.streamed)
  }

  /** The renegotiation emptied the surfaces and the slots. */
  ghost predicate FreshCapture(p: State) {
    && (forall id :: !p.Holds(id)) && (forall t :: 0 <= t < REFS ==> p.model.slots[t] < 0)
  }

  /** How the CAPTURE side of a later state `p` of the same picture relates to its start. */
  ghost predicate Follows(s: State, env: EndEnv, p: State) {
    && p.cfg == s.cfg && p.targets == s.targets && p.current == s.current && p.request == s.request
    && p.held.Keys == s.held.Keys
    && (if PictureRenegotiates(s, env) then FreshCapture(p) && (s.streamed ==> !p.model.active)
        else SameCapture(s, p) && p.model.active == Arm(s, env).model.active)
  }

  lemma ArmBasic(s: State, env: EndEnv)
    requires Basic(s)
    ensures Basic(Arm(s, env))
  {
  }

  lemma StreamQueuesKeeps(s: State, streamOut: bool, streamCap: bool)
    requires Basic(s) && (streamOut ==> streamCap)
    ensures var (t, ok) := StreamQueues(s, streamOut, streamCap);
            !s.streamed && s.capAllocd > 0 ==>
              && Basic(t) && ok == t.streamed == (streamOut && streamCap && s.outAllocd > 0)
              && t == s.(streamed := t.streamed, kernel := t.kernel)
              && t.kernel.refs == s.kernel.refs
              && t.kernel.fault == (s.kernel.fault || s.outAllocd == 0)
  {
  }

  lemma StartStreamingKeeps(s: State, env: EndEnv)
    requires Basic(s) && s.capAllocd > 0 && (env.streamOut ==> env.streamCap)
    ensures var (t, ok) := StartStreaming(s, env);
            && Basic(t) && ok == t.streamed
            && ok == (s.streamed || (env.streamOut && env.streamCap && s.outAllocd > 0))
            && t == s.(streamed := t.streamed, kernel := t.kernel)
            && t.kernel.refs == s.kernel.refs && (s.streamed ==> t.streamed)
            && t.kernel.fault == (s.kernel.fault || (!s.streamed && s.outAllocd == 0))
  {
    StreamQueuesKeeps(s, env.streamOut, env.streamCap);
  }

  lemma FreshSlots(s: State, p: State)
    requires SlotsLive(s) && p.model == (if s.streamed then ResetModel() else s.model)
    ensures forall t :: 0 <= t < REFS ==> p.model.slots[t] < 0
  {
  }

  lemma EnsurePictureKeeps(s: State, env: EndEnv)
    requires Basic(s) && env.paramsOk
    ensures var (p, ok) := EnsureCapture(Arm(s, env), env.w, env.h, env.fourcc, env.ensure);
            && Basic(p) && Follows(s, env, p) && p.kernel.fault == s.kernel.fault && (ok ==> p.capAllocd > 0)
            && Ensured'(s, env, p, ok)
  {
    hide EnsureCapture;
    ArmBasic(s, env);
    var s0 := Arm(s, env);
    EnsureKeeps(s0, env.w, env.h, env.fourcc, env.ensure);
    EnsureSettled(s0, env.w, env.h, env.fourcc, env.ensure);
    if PictureRenegotiates(s, env) {
      FreshSlots(s0, EnsureCapture(s0, env.w, env.h, env.fourcc, env.ensure).0);
    }
  }

  /** The picture after ensure_capture, in terms of its inputs. */
  ghost predicate Ensured'(s: State, env: EndEnv, p: State, ok: bool) {
    && ok == Ensures(s, env) && p.streamed == KeepsStreaming(s, env)
    && p.outAllocd == OutputsOf(s, env) && p.capAllocd == CapturesOf(s, env) && p.freeCap == PoolOf(s, env)
    && (|p.freeOut| > 0 <==> HasOutput(s, env)) && p.model.active == ArmedFor(s, env)
  }

  lemma FillOutputKeeps(s: State, copyInOk: bool)
    requires Basic(s) && s.streamed && s.request
    ensures var (t, out) := FillOutput(s, copyInOk);
            && t == s.(freeOut := t.freeOut)
            && (out.None? ==> t == s) && (out.Some? ==> Ready(t, out.value) && s.freeOut == t.freeOut + [out.value])
            && (out.Some? <==> |s.freeOut| > 0 && copyInOk)
  {
    if |s.freeOut| > 0 {
      var out := s.freeOut[|s.freeOut| - 1];
      var s1 := s.(freeOut := s.freeOut[..|s.freeOut| - 1]);
      assert s1.freeOut + [out] == s.freeOut;
      assert s == s1.(freeOut := s1.freeOut + [out]);
      PushOutSafe(s1, out);
    }
  }

  lemma FollowsOn(s: State, env: EndEnv, s1: State, p: State)
    requires Follows(s, env, s1)
    requires p == s1.(freeOut := p.freeOut, streamed := p.streamed, kernel := p.kernel)
    requires p.kernel.refs == s1.kernel.refs && (s1.streamed ==> p.streamed)
    ensures Follows(s, env, p)
  {
    assert forall id :: p.Holds(id) <==> s1.Holds(id);
  }

  lemma StreamAndFillKeeps(s: State, env: EndEnv, s1: State)
    requires Basic(s1) && Follows(s, env, s1) && s1.capAllocd > 0 && s1.request
    requires env.streamOut ==> env.streamCap
    ensures var (p, out) := StreamAndFill(s1, env);
            && Follows(s, env, p) && p.request
            && (out.None? ==> Basic(p)) && (out.Some? ==> Ready(p, out.value))
            && p.kernel.fault == (s1.kernel.fault || (!s1.streamed && s1.outAllocd == 0))
            && p.freeCap == s1.freeCap && p.capAllocd == s1.capAllocd && p.model == s1.model
            && (out.Some? <==> && (s1.streamed || (env.streamOut && env.streamCap && s1.outAllocd > 0))
                               && env.controlsOk && |s1.freeOut| > 0 && env.copyInOk)
  {
    StartStreamingKeeps(s1, env);
    var (s2, streaming) := StartStreaming(s1, env);
    if streaming && env.controlsOk {
      FillOutputKeeps(s2, env.copyInOk);
    }
    FollowsOn(s, env, s1, StreamAndFill(s1, env).0);
  }

  /** The picture up to its bitstream buffer: a failed one leaves the invariant, a successful one is
    * ready for decode_submit; the only refusable ioctl is STREAMON without OUTPUT buffers. */
  lemma PrepareKeeps(s: State, env: EndEnv)
    requires Basic(s) && s.request && (env.streamOut ==> env.streamCap)
    ensures var (p, out) := Prepare(s, env);
            && (out.None? ==> Basic(p)) && (out.Some? ==> Ready(p, out.value))
            && p.request
            && (env.paramsOk ==> Follows(s, env, p)) && (!env.paramsOk ==> p == Arm(s, env) && out.None?)
            && p.kernel.fault == (s.kernel.fault || StreamsWithoutOutput(s, env))
            && (out.Some? <==> Reaches(s, env))
            && (env.paramsOk ==> p.freeCap == PoolOf(s, env) && p.capAllocd == CapturesOf(s, env)
                                 && p.model.active == ArmedFor(s, env))
  {
    hide EnsureCapture, StreamAndFill, Basic, PictureRenegotiates, OutputsOf, PoolOf, CapturesOf, ArmedFor, HasOutput;
    ArmBasic(s, env);
    if env.paramsOk {
      EnsurePictureKeeps(s, env);
      var (s1, ok) := EnsureCapture(Arm(s, env), env.w, env.h, env.fourcc, env.ensure);
      if ok {
        StreamAndFillKeeps(s, env, s1);
      }
    }
  }

  // ----- the end of a picture

  /** Holding one more buffer, or none, keeps the CAPTURE side once the picture is over. */
  lemma HoldKeeps(s: State, id: nat, buf: int)
    requires CaptureSide(s) && id in s.held && id in s.targets
    requires buf < Min(s.capAllocd, MAX_CAP)
    ensures CaptureSide(s.SetHeld(id, buf).(current := None))
  {
    var t := s.SetHeld(id, buf).(current := None);
    forall i | t.Holds(i) ensures i in t.targets && t.held[i] < Min(t.capAllocd, MAX_CAP) {
      if i != id { assert s.Holds(i); }
    }
  }

  lemma ReleaseKeeps(s: State, id: nat, buf: int, mask: Mask)
    requires CaptureSide(s) && s.current.None? && s.streamed && s.model.active
    requires 0 <= buf < Min(s.capAllocd, MAX_CAP)
    ensures CaptureSide(ReleaseUnreferenced(s, id, buf, mask))
    ensures var u := ReleaseUnreferenced(s, id, buf, mask);
            u == s.(freeCap := u.freeCap, held := u.held, model := u.model)
  {
    assert SlotsInRange(s);
    ReleaseExact(s, id, buf, mask);
    var u := ReleaseUnreferenced(s, id, buf, mask);
    forall i | u.Holds(i) ensures i in u.targets && u.held[i] < Min(u.capAllocd, MAX_CAP) {
      assert s.Holds(i);
    }
  }

  lemma DeliverKeeps(s: State, buf: int, env: EndEnv)
    requires Basic(s) && s.streamed && 0 <= buf < Min(s.capAllocd, MAX_CAP)
    ensures Basic(Deliver(s, buf, env).(current := None))
    ensures Deliver(s, buf, env).kernel == s.kernel
  {
    if s.current.None? || !PullWorks(s, buf, env.copyOutOk) {
      PushCapKeeps(s, buf);
    } else {
      var id := s.current.value;
      HoldKeeps(s, id, buf);
      var s1 := s.SetHeld(id, buf);
      if s.cfg.codec.AV1? && s.model.active {
        ReleaseKeeps(s1.(current := None), id, buf, env.mask);
        ReleaseIgnoresCurrent(s1, id, buf, env.mask);
      }
    }
  }

  /** The release never looks at the current surface. */
  lemma {:induction false} ReleaseFromIgnoresCurrent(s: State, buf: int, mask: Mask, t: nat)
    ensures ReleaseFrom(s.(current := None), buf, mask, t) == ReleaseFrom(s, buf, mask, t).(current := None)
    ensures ReleaseFrom(s, buf, mask, t).kernel == s.kernel
    decreases REFS - t
  {
    if t < REFS {
      ReleaseFromIgnoresCurrent(if Bit(mask, t) then OverwriteSlot(s, t, buf) else s, buf, mask, t + 1);
    }
  }

  lemma ReleaseIgnoresCurrent(s: State, id: nat, buf: int, mask: Mask)
    ensures ReleaseUnreferenced(s.(current := None), id, buf, mask)
         == ReleaseUnreferenced(s, id, buf, mask).(current := None)
    ensures ReleaseUnreferenced(s, id, buf, mask).kernel == s.kernel
  {
    if mask != 0 && 0 <= buf < MAX_CAP {
      ReleaseFromIgnoresCurrent(s.(model := s.model.(owner := s.model.owner[buf := id])), buf, mask, 0);
    }
  }

  lemma ConcludeKeeps(s: State, r: int, env: EndEnv)
    requires Basic(s) && (r >= 0 ==> s.streamed && r < Min(s.capAllocd, MAX_CAP))
    ensures Basic(Conclude(s, r, env)) && Conclude(s, r, env).kernel == s.kernel
  {
    if r >= 0 {
      DeliverKeeps(s, r, env);
    }
  }

  lemma EndKeeps(s: State, env: EndEnv)
    requires Basic(s) && (env.streamOut ==> env.streamCap)
    ensures Basic(EndPicture(s, env))
    ensures EndPicture(s, env).kernel.fault
            == (s.kernel.fault || (s.current.Some? && s.request && StreamsWithoutOutput(s, env)))
  {
    hide Prepare, DecodeSubmit, Conclude, StreamsWithoutOutput;
    if s.current.Some? && s.request {
      PrepareKeeps(s, env);
      var (p, out) := Prepare(s, env);
      if out.Some? {
        SubmitAccounted(p, out.value, SubmittedMask(s, env), env.submit);
        var (t, r) := DecodeSubmit(p, out.value, SubmittedMask(s, env), env.submit);
        if r >= 0 { ChosenInRange(p); }
        ConcludeKeeps(t, r, env);
      }
    }
  }

  // ----- the other entry points

  lemma BeginKeeps(s: State, id: nat, allocOk: bool)
    requires Basic(s) && id in s.targets
    ensures Basic(BeginPicture(s, id, allocOk)) && BeginPicture(s, id, allocOk).kernel == s.kernel
  {
    if s.Holds(id) && !s.cfg.expbuf {
      PushCapKeeps(s, s.held[id]);
      var t := BeginPicture(s, id, allocOk);
      forall i | t.Holds(i) ensures i in t.targets && t.held[i] < Min(t.capAllocd, MAX_CAP) {
        assert s.Holds(i);
      }
    } else {
      assert forall i :: BeginPicture(s, id, allocOk).Holds(i) ==> s.Holds(i);
    }
  }

  lemma StillRegistered(targets: seq<nat>, id: nat, other: nat)
    requires other in targets && other != id
    ensures other in Unregister(targets, id)
  {
    var i :| 0 <= i < |targets| && targets[i] == other;
    assert Unregister(targets, id)[i] == other;
  }

  lemma ReturnSlotKeeps(s: State, id: nat)
    requires Basic(s) && id in s.held
    ensures Basic(ReturnSlot(s, id))
    ensures var t := ReturnSlot(s, id); t == s.(freeCap := t.freeCap, model := t.model)
  {
    if s.Holds(id) {
      PushCapKeeps(s, s.held[id]);
      assert forall i :: s.PushCap(s.held[id]).Holds(i) ==> s.Holds(i);
    }
    assert forall i :: ReturnSlot(s, id).Holds(i) ==> s.Holds(i);
  }

  lemma ForgetKeeps(s: State, id: nat)
    requires Basic(s)
    ensures Basic(ForgetSurface(s, id))
  {
    var t := ForgetSurface(s, id);
    forall i | t.Holds(i) ensures i in t.targets && t.held[i] < Min(t.capAllocd, MAX_CAP) {
      assert s.Holds(i);
      StillRegistered(s.targets, id, i);
    }
    if t.current.Some? {
      StillRegistered(s.targets, id, t.current.value);
    }
  }

  lemma DestroyKeeps(s: State, id: nat)
    requires Basic(s)
    ensures Basic(DestroySurface(s, id)) && DestroySurface(s, id).kernel == s.kernel
  {
    if id in s.held {
      ReturnSlotKeeps(s, id);
      ForgetKeeps(ReturnSlot(s, id), id);
    }
  }

  lemma CreateKeeps(s: State, id: nat)
    requires Basic(s) && id != VA_INVALID
    ensures Basic(CreateSurface(s, id)) && CreateSurface(s, id).kernel == s.kernel
  {
    assert forall i :: CreateSurface(s, id).Holds(i) ==> s.Holds(i);
  }

  lemma ClaimKeeps(s: State, id: nat)
    requires Basic(s) && s.cfg.expbuf && id in s.targets && id in s.held && |s.freeCap| > 0
    ensures Basic(s.(freeCap := s.freeCap[..|s.freeCap| - 1]).SetHeld(id, s.freeCap[|s.freeCap| - 1]))
  {
    var b := s.freeCap[|s.freeCap| - 1];
    assert b in s.freeCap;
    PopElements(s.freeCap);
    var t := s.(freeCap := s.freeCap[..|s.freeCap| - 1]).SetHeld(id, b);
    assert forall x :: x in t.freeCap ==> x in s.freeCap;
    forall i | t.Holds(i) ensures i in t.targets && t.held[i] < Min(t.capAllocd, MAX_CAP) {
      if i != id { assert s.Holds(i); }
    }
  }

  lemma ExportKeeps(s: State, id: nat, w: int, h: int, env: EnsureEnv)
    requires Basic(s) && id in s.targets
    ensures Basic(ExportSurface(s, id, w, h, env))
    ensures ExportSurface(s, id, w, h, env).kernel.fault == s.kernel.fault
  {
    hide EnsureCapture, Basic;
    if id in s.held && s.cfg.expbuf && s.held[id] < 0 {
      var w' := if s.geo.width > 0 then s.geo.width else w;
      var h' := if s.geo.height > 0 then s.geo.height else h;
      EnsureKeeps(s, w', h', s.geo.fourcc, env);
      var (s1, ok) := EnsureCapture(s, w', h', s.geo.fourcc, env);
      if ok && !s1.Holds(id) && |s1.freeCap| > 0 {
        ClaimKeeps(s1, id);
      }
    }
  }

  /** Main result, one step: every entry point keeps the invariant on every failure exit, in both
    * export modes; V4L2 refuses an ioctl exactly when a picture tries to start streaming although the
    * OUTPUT queue has no buffers. */
  lemma StepKeeps(s: State, e: Event)
    requires Basic(s) && Admissible(s, e)
    ensures Basic(Step(s, e))
    ensures Step(s, e).kernel.fault == (s.kernel.fault || Refused(s, e))
  {
    match e
    case Create(id) => CreateKeeps(s, id);
    case Destroy(id) => DestroyKeeps(s, id);
    case Begin(id, allocOk) => BeginKeeps(s, id, allocOk);
    case End(env) => EndKeeps(s, env);
    case Export(id, w, h, env) => ExportKeeps(s, id, w, h, env);
  }

  ghost predicate Refused(s: State, e: Event) {
    e.End? && s.current.Some? && s.request && StreamsWithoutOutput(s, e.env)
  }

  // ----- whole runs

  ghost predicate AdmissibleRun(s: State, es: seq<Event>)
    decreases |es|
  {
    es == [] || (Admissible(s, es[0]) && AdmissibleRun(Step(s, es[0]), es[1..]))
  }

  ghost predicate RefusedInRun(s: State, es: seq<Event>)
    decreases |es|
  {
    es != [] && (Refused(s, es[0]) || RefusedInRun(Step(s, es[0]), es[1..]))
  }

  /** Main result, whole runs: the structural invariant holds after any sequence of entry points, and
    * the ioctl trace is legal unless some picture streamed without OUTPUT buffers. */
  lemma {:induction false} RunKeeps(s: State, es: seq<Event>)
    requires Basic(s) && AdmissibleRun(s, es)
    ensures Basic(Run(s, es))
    ensures Run(s, es).kernel.fault == (s.kernel.fault || RefusedInRun(s, es))
    decreases |es|
  {
    if es != [] {
      StepKeeps(s, es[0]);
      RunKeeps(Step(s, es[0]), es[1..]);
    }
  }

  lemma OpenedBasic(cfg: Config, w: int, h: int, targets: seq<nat>, live: set<nat>, granted: nat)
    requires VA_INVALID !in live
    ensures Basic(Opened(cfg, w, h, targets, live, granted))
    ensures OutputCovered(Opened(cfg, w, h, targets, live, granted))
  {
    var s := Opened(cfg, w, h, targets, live, granted);
    forall x | 0 <= x < Min(granted, NUM_OUT) ensures x in s.freeOut {
      assert s.freeOut[x] == x;
    }
  }
}
