/** The structural invariant of a decode context: what every entry point keeps, in both export modes
  * and on every failure exit. */
module Ownership {
  import opened Wrappers
  import opened Pools
  import opened V4l2Kernel
  import opened Bridge

  /** OUTPUT indices: the pool and the kernel queue are disjoint, in range and duplicate-free. */
  ghost predicate OutputSafe(s: State) {
    && NoDup(s.freeOut) && Within(s.freeOut, Min(s.outAllocd, NUM_OUT))
    && (forall x :: x in s.kernel.out.queued ==> 0 <= x < Min(s.outAllocd, NUM_OUT))
    && (forall x :: x in s.freeOut ==> x !in s.kernel.out.queued)
  }

  /** OUTPUT conservation: every index is in the pool or in the kernel. */
  ghost predicate OutputCovered(s: State) {
    forall x :: 0 <= x < Min(s.outAllocd, NUM_OUT) ==> x in s.freeOut || x in s.kernel.out.queued
  }

  /** The driver's counters tell the truth about the kernel, and no CAPTURE buffer is left queued. */
  ghost predicate Agrees(s: State) {
    && s.kernel.out.allocd == s.outAllocd && s.kernel.cap.allocd == s.capAllocd
    && s.kernel.out.streaming == s.streamed && s.kernel.cap.streaming == s.streamed
    && (!s.streamed ==> s.kernel.out.queued == {})
    && s.kernel.cap.queued == {}
  }

  ghost predicate CapturePool(s: State) {
    NoDup(s.freeCap) && Within(s.freeCap, Min(s.capAllocd, MAX_CAP))
  }

  /** A surface that holds a buffer is a render target, and the buffer exists. */
  ghost predicate Registered(s: State) {
    && VA_INVALID !in s.held
    && forall id :: s.Holds(id) ==> id in s.targets && s.held[id] < Min(s.capAllocd, MAX_CAP)
  }

  ghost predicate CurrentLive(s: State) {
    s.current.Some? ==>
      && s.current.value in s.held && s.current.value in s.targets
      && (!s.cfg.expbuf ==> s.held[s.current.value] < 0)
  }

  /** Only AV1 has a slot model, and slots are filled only while it is active on a streaming queue. */
  ghost predicate SlotsLive(s: State) {
    && (s.model.active ==> s.cfg.codec.AV1?)
    && (forall t :: 0 <= t < REFS && s.model.slots[t] >= 0 ==>
          s.model.active && s.streamed && s.model.slots[t] < Min(s.capAllocd, MAX_CAP))
  }

  /** The invariant without the OUTPUT side, which is split off while a bitstream buffer is in hand. */
  ghost predicate CaptureSide(s: State) {
    Agrees(s) && CapturePool(s) && Registered(s) && CurrentLive(s) && SlotsLive(s)
  }

  ghost predicate Basic(s: State) {
    CaptureSide(s) && OutputSafe(s)
  }

  /** OUTPUT buffer `out` is owned by the caller: neither pooled nor queued. */
  ghost predicate InHand(s: State, out: int) {
    OutputSafe(s.(freeOut := s.freeOut + [out]))
  }

  /** What a run may assume of each event: surfaces are registered before they are decoded into or
    * exported, IDs come from the surface table, and STREAMON of the two queues is all or nothing. */
  ghost predicate Admissible(s: State, e: Event) {
    match e
    case Create(id) => id != VA_INVALID
    case Destroy(_) => true
    case Begin(id, _) => id in s.targets
    case End(env) => env.streamOut ==> env.streamCap
    case Export(id, _, _, _) => id in s.targets
  }

  // ----- pools

  lemma PushOutSafe(s: State, out: int)
    requires InHand(s, out)
    ensures s.PushOut(out) == s.(freeOut := s.freeOut + [out])
    ensures OutputSafe(s.PushOut(out))
  {
    var f := s.freeOut + [out];
    assert NoDup(s.freeOut) by {
      forall i, j | 0 <= i < j < |s.freeOut| ensures s.freeOut[i] != s.freeOut[j] {
        assert f[i] == s.freeOut[i] && f[j] == s.freeOut[j];
      }
    }
    assert out !in s.freeOut by {
      assert f[|s.freeOut|] == out;
      assert forall i :: 0 <= i < |s.freeOut| ==> f[i] == s.freeOut[i];
    }
    assert out in f;
    forall x | x in s.freeOut ensures 0 <= x < NUM_OUT { assert x in f; }
    PushAdds(s.freeOut, out, NUM_OUT);
  }

  lemma PushCapKeeps(s: State, b: int)
    requires CapturePool(s) && 0 <= b < Min(s.capAllocd, MAX_CAP)
    ensures CapturePool(s.PushCap(b))
    ensures forall x :: x in s.PushCap(b).freeCap <==> x in s.freeCap || x == b
    ensures b !in s.freeCap ==> s.PushCap(b).freeCap == s.freeCap + [b]
  {
    PushElements(s.freeCap, b, MAX_CAP);
    if b !in s.freeCap { PushAdds(s.freeCap, b, MAX_CAP); }
  }

  /** Popping the pool and pushing the index back restores the pool. */
  lemma PopPush(pool: seq<int>, capacity: nat)
    requires NoDup(pool) && Within(pool, capacity) && |pool| > 0
    ensures Push(pool[..|pool| - 1], pool[|pool| - 1], capacity) == pool
  {
    var rest, last := pool[..|pool| - 1], pool[|pool| - 1];
    PopElements(pool);
    assert last in pool && last !in rest;
    forall x | x in rest ensures 0 <= x < capacity { assert x in pool; }
    PushAdds(rest, last, capacity);
    assert rest + [last] == pool;
  }

  // ----- resets

  /** A reset rebuilds the whole OUTPUT pool and exactly the unclaimed part of the CAPTURE pool. */
  lemma ResetRebuilds(s: State)
    requires CaptureSide(s)
    ensures Basic(DecodeReset(s)) && OutputCovered(DecodeReset(s))
    ensures DecodeReset(s).freeOut == Upto(Min(s.outAllocd, NUM_OUT))
    ensures DecodeReset(s).kernel.out.queued == {} && DecodeReset(s).kernel.cap.queued == {}
    ensures forall x :: x in DecodeReset(s).freeCap <==>
                        0 <= x < Min(s.capAllocd, MAX_CAP) && !exists id :: s.Holds(id) && s.held[id] == x
  {
    ResetRebuildsQueued(s, s.kernel.cap.queued);
  }

  /** The same with a capture buffer still queued, as on the exits of a decode. */
  lemma ResetRebuildsQueued(s: State, queued: set<int>)
    requires s.kernel.cap.queued == queued && (queued != {} ==> s.streamed)
    requires CaptureSide(s.(kernel := s.kernel.(cap := s.kernel.cap.(queued := {}))))
    ensures Basic(DecodeReset(s)) && OutputCovered(DecodeReset(s))
    ensures DecodeReset(s).freeOut == Upto(Min(s.outAllocd, NUM_OUT))
    ensures DecodeReset(s).kernel.out.queued == {} && DecodeReset(s).kernel.cap.queued == {}
    ensures forall x :: x in DecodeReset(s).freeCap <==>
                        0 <= x < Min(s.capAllocd, MAX_CAP) && !exists id :: s.Holds(id) && s.held[id] == x
  {
    var t := s.(kernel := s.kernel.(cap := s.kernel.cap.(queued := {})));
    var claimed := ClaimedIndices(s);
    UnclaimedElements(Min(s.capAllocd, MAX_CAP), claimed);
    forall x ensures x in claimed <==> exists id :: s.Holds(id) && s.held[id] == x {
      if x in claimed {
        var id :| id in s.held && id in s.targets && 0 <= s.held[id] < MAX_CAP && s.held[id] == x;
        assert s.Holds(id);
      }
      if id :| s.Holds(id) && s.held[id] == x {
        assert t.Holds(id);
      }
    }
    var r := DecodeReset(s);
    forall id | r.Holds(id) ensures id in r.targets && r.held[id] < Min(r.capAllocd, MAX_CAP) {
      assert t.Holds(id);
    }
    forall x | 0 <= x < Min(s.outAllocd, NUM_OUT) ensures x in r.freeOut {
      assert r.freeOut[x] == x;
    }
  }

  /** Whatever the surfaces are: after a reset no surface holds a pooled index if and only if every surface that
    * holds an allocated index is a render target. */
  lemma ResetDisjoint(s: State)
    requires forall i, j :: s.Holds(i) && s.Holds(j) && i != j ==> s.held[i] != s.held[j]
    ensures var t := DecodeReset(s);
            (forall id :: t.Holds(id) ==> t.held[id] !in t.freeCap)
            <==> (forall id :: s.Holds(id) && s.held[id] < Min(s.capAllocd, MAX_CAP) ==> id in s.targets)
  {
    var t := DecodeReset(s);
    var claimed := ClaimedIndices(s);
    UnclaimedElements(Min(s.capAllocd, MAX_CAP), claimed);
    forall id | s.Holds(id)
      ensures t.Holds(id) && t.held[id] == s.held[id]
      ensures s.held[id] in t.freeCap <==> s.held[id] < Min(s.capAllocd, MAX_CAP) && id !in s.targets
    {
      if s.held[id] in claimed {
        var other :| && other in s.held && other in s.targets
                     && 0 <= s.held[other] < MAX_CAP && s.held[other] == s.held[id];
        assert s.Holds(other);
      }
    }
    assert forall id :: t.Holds(id) <==> s.Holds(id);
  }

  // ----- renegotiation

  /** The capture attempts leave the queue with exactly the granted buffers and issue nothing illegal. */
  lemma TryCaptureLegal(k: Kernel, attempts: seq<Attempt>)
    requires k.cap.allocd == 0 && !k.cap.streaming && k.cap.queued == {}
    ensures var (k', n) := TryCapture(k, attempts);
            k'.cap == Queue(n, false, {}) && k'.out == k.out && k'.refs == k.refs && k'.fault == k.fault
  {
  }

  /** A torn-down context: not streaming, no surface holds a buffer, the OUTPUT side consistent. */
  ghost predicate TornDown(s: State, t: State) {
    && Agrees(t) && OutputSafe(t) && !t.streamed
    && t.kernel.fault == s.kernel.fault
    && t.held == Dropped(s.held, s.targets)
    && t.model == (if s.streamed then ResetModel() else s.model)
    && t.cfg == s.cfg && t.targets == s.targets && t.current == s.current
    && t.request == s.request
  }

  lemma RebuildOutputKeeps(s: State, t: State, w: int, h: int, env: EnsureEnv)
    requires TornDown(s, t) && t.capAllocd == 0
    ensures TornDown(s, RebuildOutput(t, w, h, env))
    ensures RebuildOutput(t, w, h, env).capAllocd == 0
    ensures RebuildOutput(t, w, h, env).freeCap == t.freeCap
  {
  }

  lemma EmptyPool(s: State)
    requires CapturePool(s)
    ensures s.capAllocd == 0 ==> s.freeCap == []
  {
    if |s.freeCap| > 0 {
      var x := s.freeCap[0];
      assert x in s.freeCap;
    }
  }

  lemma TeardownKeeps(s: State, w: int, h: int, env: EnsureEnv)
    requires Basic(s)
    ensures var (t, freed) := Teardown(s, w, h, env);
            && TornDown(s, t) && CapturePool(t)
            && (freed <==> s.capAllocd == 0 || env.freeCapOk)
            && (freed ==> t.capAllocd == 0 && t.freeCap == [])
            && (!freed ==> t.capAllocd == s.capAllocd && t.freeCap == s.freeCap)
  {
    EmptyPool(s);
    var s3 := FreeCapture(Quiesce(s), env);
    assert TornDown(s, s3);
    if s3.capAllocd == 0 {
      RebuildOutputKeeps(s, s3, w, h, env);
    }
  }

  /** Nobody holds a buffer after a teardown, so only the pool and the queues are left to check. */
  lemma TornDownBasic(s: State, t: State)
    requires Basic(s) && TornDown(s, t)
    requires CapturePool(t)
    ensures Basic(t) && forall id :: !t.Holds(id)
  {
    forall id ensures !t.Holds(id) {
      if t.Holds(id) { assert s.Holds(id); }
    }
    assert SlotsLive(t) by {
      assert forall i :: 0 <= i < REFS && s.model.slots[i] >= 0 ==> s.streamed;
    }
  }

  /** ensure_capture on every exit: the invariant is kept, no ioctl is refused, and a renegotiation
    * takes every buffer from the surfaces; success means a fresh pool of the requested format. */
  ghost predicate Ensured(s: State, w: int, h: int, fourcc: nat, env: EnsureEnv, t: State, ok: bool) {
    var fcc := if fourcc != 0 then fourcc else NV12;
    && Basic(t) && t.kernel.fault == s.kernel.fault
    && t.cfg == s.cfg && t.targets == s.targets && t.current == s.current && t.request == s.request
    && (!Renegotiates(s, w, h, fcc) ==> t == s && ok == (w > 0 && h > 0))
    && (Renegotiates(s, w, h, fcc) ==>
          && !t.streamed && t.held == Dropped(s.held, s.targets) && (forall id :: !t.Holds(id))
          && t.model == (if s.streamed then ResetModel() else s.model)
          && (ok ==> t.freeCap == Upto(Min(t.capAllocd, NUM_CAP)))
          && (!ok ==> (t.capAllocd == 0 && t.freeCap == [])
                      || (!env.freeCapOk && t.capAllocd == s.capAllocd > 0 && t.freeCap == s.freeCap)))
    && (ok ==> t.geo.fourcc == fcc && t.capAllocd > 0)
  }

  lemma EnsureKeeps(s: State, w: int, h: int, fourcc: nat, env: EnsureEnv)
    requires Basic(s)
    ensures Ensured(s, w, h, fourcc, env,
                    EnsureCapture(s, w, h, fourcc, env).0, EnsureCapture(s, w, h, fourcc, env).1)
  {
    hide Teardown, TryCapture, Basic;
    var fcc := if fourcc != 0 then fourcc else NV12;
    if Renegotiates(s, w, h, fcc) {
      TeardownKeeps(s, w, h, env);
      var (t, freed) := Teardown(s, w, h, env);
      if !freed {
        TornDownBasic(s, t);
      } else {
        TryCaptureLegal(t.kernel, env.attempts);
        var (k, n) := TryCapture(t.kernel, env.attempts);
        if n == 0 {
          TornDownBasic(s, t.(kernel := k));
        } else {
          TornDownBasic(s, t.(kernel := k, capAllocd := n, freeCap := Upto(Min(n, NUM_CAP)),
                              geo := Negotiated(t.geo, w, h, fcc, env)));
        }
      }
    }
  }

  // ----- a renegotiation in terms of its inputs

  /** What one capture attempt is granted. */
  function Offer(attempts: seq<Attempt>, i: nat): nat {
    if i < |attempts| && attempts[i].formatOk then attempts[i].granted else 0
  }

  /** What the capture attempts are granted in the end: the first offer that is not empty. */
  function GrantedBy(attempts: seq<Attempt>): nat {
    if Offer(attempts, 0) > 0 then Offer(attempts, 0)
    else if Offer(attempts, 1) > 0 then Offer(attempts, 1)
    else Offer(attempts, 2)
  }

  /** REQBUFS(0) on the capture queue fails: the renegotiation stops there. */
  predicate Stuck(s: State, env: EnsureEnv) {
    s.capAllocd > 0 && !env.freeCapOk
  }

  /** The OUTPUT queue is torn down and requested again. */
  predicate RebuildsOutput(s: State, w: int, h: int, env: EnsureEnv) {
    && !Stuck(s, env) && SizeChanged(s, w, h) && s.outAllocd > 0
    && env.coded.Some? && (env.coded.value.0 < w || env.coded.value.1 < h) && env.freeOutOk
  }

  /** The OUTPUT buffers after the renegotiation. */
  function OutputsAfter(s: State, w: int, h: int, env: EnsureEnv): nat {
    if !RebuildsOutput(s, w, h, env) then s.outAllocd
    else if env.outFormatOk then env.outGranted else 0
  }

  lemma TryCaptureGrants(k: Kernel, attempts: seq<Attempt>)
    requires k.cap.allocd == 0 && !k.cap.streaming
    ensures TryCapture(k, attempts).1 == GrantedBy(attempts)
  {
  }

  /** The OUTPUT side after a teardown. */
  ghost predicate OutputsRebuilt(s: State, w: int, h: int, env: EnsureEnv, t: State) {
    && t.kernel.out.queued == {} && t.outAllocd == OutputsAfter(s, w, h, env)
    && t.freeOut == (if RebuildsOutput(s, w, h, env) then Upto(Min(t.outAllocd, NUM_OUT)) else s.freeOut)
  }

  lemma TeardownRebuilds(s: State, w: int, h: int, env: EnsureEnv)
    requires Basic(s)
    ensures OutputsRebuilt(s, w, h, env, Teardown(s, w, h, env).0)
  {
    hide Basic, StreamOffBoth;
    TeardownKeeps(s, w, h, env);
    QuiesceStops(s);
    hide Quiesce;
    var q := Quiesce(s);
    assert FreeCapture(q, env).kernel.out == q.kernel.out && FreeCapture(q, env).freeOut == s.freeOut;
  }

  lemma QuiesceStops(s: State)
    requires Basic(s)
    ensures var q := Quiesce(s);
            && q.kernel.out.queued == {} && !q.kernel.out.streaming && !q.kernel.cap.streaming
            && q.outAllocd == s.outAllocd && q.freeOut == s.freeOut && q.capAllocd == s.capAllocd
            && q.freeCap == s.freeCap && q.kernel.out.allocd == s.outAllocd && q.kernel.cap.allocd == s.capAllocd
            && q.geo == s.geo
  {
  }

  /** Main result on renegotiations: result, pools and counts of ensure_capture in terms of its inputs. */
  ghost predicate Settles(s: State, w: int, h: int, fourcc: nat, env: EnsureEnv, t: State, ok: bool) {
    var fcc := if fourcc != 0 then fourcc else NV12;
    && (ok <==> w > 0 && h > 0 && (Renegotiates(s, w, h, fcc) ==> !Stuck(s, env) && GrantedBy(env.attempts) > 0))
    && (!Renegotiates(s, w, h, fcc) ==> t == s)
    && (Renegotiates(s, w, h, fcc) ==>
          && t.capAllocd == (if Stuck(s, env) then s.capAllocd else GrantedBy(env.attempts))
          && t.freeCap == (if Stuck(s, env) then s.freeCap else Upto(Min(GrantedBy(env.attempts), NUM_CAP)))
          && OutputsRebuilt(s, w, h, env, t))
  }

  lemma EnsureSettled(s: State, w: int, h: int, fourcc: nat, env: EnsureEnv)
    requires Basic(s)
    ensures Settles(s, w, h, fourcc, env,
                    EnsureCapture(s, w, h, fourcc, env).0, EnsureCapture(s, w, h, fourcc, env).1)
  {
    hide Teardown, TryCapture, Basic, GrantedBy, OutputsAfter, RebuildsOutput;
    var fcc := if fourcc != 0 then fourcc else NV12;
    if Renegotiates(s, w, h, fcc) {
      TeardownKeeps(s, w, h, env);
      TeardownRebuilds(s, w, h, env);
      var (t, freed) := Teardown(s, w, h, env);
      if freed {
        TryCaptureLegal(t.kernel, env.attempts);
        TryCaptureGrants(t.kernel, env.attempts);
        assert [] == Upto(Min(0, NUM_CAP));
      }
    }
  }

  // ----- surfaces that are not render targets

  /** The context as its render targets see it. */
  function Listed(s: State): State {
    s.(held := map id | id in s.held && id in s.targets :: s.held[id], current := None)
  }

  /** `t` differs from `u` in the surfaces only. */
  ghost predicate AsideFrom(s: State, t: State, u: State) {
    t == u.(held := t.held, current := s.current) && t.held == Dropped(s.held, s.targets)
  }

  lemma TeardownIgnores(s: State, w: int, h: int, env: EnsureEnv)
    ensures var (t, freed) := Teardown(s, w, h, env);
            var (u, freed') := Teardown(Listed(s), w, h, env);
            AsideFrom(s, t, u) && freed == freed'
  {
    var a, b := Quiesce(s), Quiesce(Listed(s));
    assert AsideFrom(s, a, b);
    hide Quiesce;
    var c, d := FreeCapture(a, env), FreeCapture(b, env);
    assert AsideFrom(s, c, d);
    hide FreeCapture;
    assert AsideFrom(s, RebuildOutput(c, w, h, env), RebuildOutput(d, w, h, env));
  }

  /** A renegotiation does not look at the other surfaces. */
  lemma EnsureIgnores(s: State, w: int, h: int, fourcc: nat, env: EnsureEnv)
    requires w > 0 && h > 0 && Renegotiates(s, w, h, if fourcc != 0 then fourcc else NV12)
    ensures AsideFrom(s, EnsureCapture(s, w, h, fourcc, env).0, EnsureCapture(Listed(s), w, h, fourcc, env).0)
  {
    hide Teardown, TryCapture;
    TeardownIgnores(s, w, h, env);
  }

  /** After a renegotiation no surface holds a pooled index if and only if it stopped before the pool was refilled, or
    * every surface holding an index of the new pool is a render target. */
  lemma RenegotiationDisjoint(s: State, w: int, h: int, fourcc: nat, env: EnsureEnv)
    requires Basic(Listed(s)) && forall id :: s.Holds(id) ==> s.held[id] !in s.freeCap
    requires w > 0 && h > 0 && Renegotiates(s, w, h, if fourcc != 0 then fourcc else NV12)
    ensures var t := EnsureCapture(s, w, h, fourcc, env).0;
            (forall id :: t.Holds(id) ==> t.held[id] !in t.freeCap)
            <==> Stuck(s, env) || (forall id :: s.Holds(id) && s.held[id] < Min(GrantedBy(env.attempts), NUM_CAP)
                                               ==> id in s.targets)
  {
    hide EnsureCapture, Basic, GrantedBy;
    EnsureIgnores(s, w, h, fourcc, env);
    EnsureSettled(Listed(s), w, h, fourcc, env);
    var t := EnsureCapture(s, w, h, fourcc, env).0;
    forall id | t.Holds(id) ensures s.Holds(id) && id !in s.targets && t.held[id] == s.held[id] {}
    forall id | s.Holds(id) && id !in s.targets ensures t.Holds(id) && t.held[id] == s.held[id] {}
    var n := Min(GrantedBy(env.attempts), NUM_CAP);
    forall x ensures x in Upto(n) <==> 0 <= x < n {
      if 0 <= x < n { assert Upto(n)[x] == x; }
    }
  }

  /** Destroying a surface, with no armed slot model, gives its buffer back if and only if it is a render target. */
  lemma DestroyReturns(s: State, id: nat)
    requires CapturePool(s) && !(s.cfg.codec.AV1? && s.model.active)
    requires s.Holds(id) && s.held[id] < Min(s.capAllocd, MAX_CAP) && s.held[id] !in s.freeCap
    ensures s.held[id] in DestroySurface(s, id).freeCap <==> id in s.targets
  {
    PushCapKeeps(s, s.held[id]);
  }
}
