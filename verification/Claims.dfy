/** Claim-at-export: in EXPBUF mode a surface keeps its capture buffer. Also what a renegotiation leaves
  * behind. */
module Claims {
  import opened Wrappers
  import opened Pools
  import opened V4l2Kernel
  import opened Bridge
  import opened Ownership
  import opened Submit
  import opened Invariant
  import opened Conservation

  // ----- claims are stable

  /** The event runs into a renegotiation, which takes every claim. */
  ghost predicate TakesClaims(s: State, e: Event) {
    match e
    case End(env) => s.current.Some? && s.request && PictureRenegotiates(s, env)
    case Export(id, w, h, env) =>
      && s.cfg.expbuf && id in s.held && s.held[id] < 0
      && Renegotiates(s, if s.geo.width > 0 then s.geo.width else w,
                      if s.geo.height > 0 then s.geo.height else h,
                      if s.geo.fourcc != 0 then s.geo.fourcc else NV12)
    case _ => false
  }

  lemma FinishKeepsClaim(p: State, out: int, mask: Mask, env: EndEnv, id: nat)
    requires Ready(p, out) && p.cfg.expbuf && !p.cfg.codec.AV1? && p.Holds(id)
    ensures var (t, r) := DecodeSubmit(p, out, mask, env.submit);
            && Conclude(t, r, env).Holds(id) && Conclude(t, r, env).held[id] == p.held[id]
            && (r >= 0 && p.current == Some(id) ==> r == p.held[id])
  {
    hide DecodeSubmit;
    SubmitAccounted(p, out, mask, env.submit);
    if ChooseCapture(p).Some? { ChosenInRange(p); }
  }

  /** One step: whatever fails, a claim survives every event but the surface's destruction and a
    * renegotiation; ownership may even be broken at the time. */
  lemma StepKeepsClaim(s: State, e: Event, id: nat)
    requires Basic(s) && Admissible(s, e) && s.cfg.expbuf && !s.cfg.codec.AV1? && s.Holds(id)
    requires e != Destroy(id) && !TakesClaims(s, e)
    ensures Step(s, e).Holds(id) && Step(s, e).held[id] == s.held[id]
    ensures Step(s, e).cfg == s.cfg
  {
    hide Prepare, EnsureCapture, DecodeSubmit, Basic;
    match e
    case Create(_) =>
    case Destroy(_) =>
    case Begin(_, _) =>
    case Export(other, w, h, env) =>
      EnsureKeeps(s, if s.geo.width > 0 then s.geo.width else w,
                  if s.geo.height > 0 then s.geo.height else h, s.geo.fourcc, env);
    case End(env) =>
      if s.current.Some? && s.request {
        PrepareKeeps(s, env);
        var (p, out) := Prepare(s, env);
        assert p.Holds(id);
        if out.Some? {
          FinishKeepsClaim(p, out.value, SubmittedMask(s, env), env, id);
          SubmitAccounted(p, out.value, SubmittedMask(s, env), env.submit);
        }
      }
  }

  ghost predicate KeepsClaim(s: State, es: seq<Event>, id: nat)
    decreases |es|
  {
    es == [] || (es[0] != Destroy(id) && !TakesClaims(s, es[0]) && KeepsClaim(Step(s, es[0]), es[1..], id))
  }

  /** Main result, whole runs: from its first claim or decode a surface names the same capture buffer
    * across any number of decodes, failures and resets, until it is destroyed or the capture queue is
    * renegotiated. */
  lemma {:induction false} ClaimStable(s: State, es: seq<Event>, id: nat)
    requires Basic(s) && AdmissibleRun(s, es) && s.cfg.expbuf && !s.cfg.codec.AV1? && s.Holds(id)
    requires KeepsClaim(s, es, id)
    ensures Run(s, es).Holds(id) && Run(s, es).held[id] == s.held[id]
    decreases |es|
  {
    if es != [] {
      StepKeepsClaim(s, es[0], id);
      StepKeeps(s, es[0]);
      ClaimStable(Step(s, es[0]), es[1..], id);
    }
  }

  // ----- what a renegotiation leaves behind

  /** A successful ensure_capture has the requested format and a pool; it needs no further ioctl for the
    * same request if and only if the driver's capture size holds the requested one. */
  lemma EnsureSettles(s: State, w: int, h: int, fourcc: nat, env: EnsureEnv, again: EnsureEnv)
    requires Basic(s) && EnsureCapture(s, w, h, fourcc, env).1
    ensures var t := EnsureCapture(s, w, h, fourcc, env).0;
            var holds := t.geo.capW != 0 && w <= t.geo.capW && h <= t.geo.capH;
            && t.geo.fourcc == (if fourcc != 0 then fourcc else NV12) && t.capAllocd > 0
            && (holds <==> !Renegotiates(t, w, h, t.geo.fourcc))
            && (holds ==> EnsureCapture(t, w, h, fourcc, again) == (t, true))
  {
    EnsureKeeps(s, w, h, fourcc, env);
    hide Basic, Teardown, TryCapture;
  }

  /** The index the next decode pops. */
  ghost predicate OnTop(pool: seq<int>, x: int) {
    |pool| > 0 && pool[|pool| - 1] == x
  }

  /** The pool is rebuilt in increasing order. */
  lemma HighestLast(n: nat, claimed: set<int>)
    requires n > 0 && n - 1 !in claimed
    ensures OnTop(Unclaimed(n, claimed), n - 1)
  {
  }

  /** When the driver grants more than 24 buffers, as it does when AV1 gets the 40 it asks for, the refill
    * loop leaves the rest in no place at all. The next reset pools those below 40, the highest on top; the
    * others stay in no place. */
  lemma GrantAbove24Lost(s: State, w: int, h: int, fourcc: nat, env: EnsureEnv)
    requires Basic(s) && Renegotiates(s, w, h, if fourcc != 0 then fourcc else NV12)
    requires EnsureCapture(s, w, h, fourcc, env).1
    ensures var t := EnsureCapture(s, w, h, fourcc, env).0;
            var u := DecodeReset(t);
            && (forall x :: NUM_CAP <= x < t.capAllocd ==>
                  x !in t.freeCap && !HeldBySomeone(t, x) && x !in t.model.slots)
            && (forall x :: NUM_CAP <= x < t.capAllocd ==> (x in u.freeCap <==> x < MAX_CAP))
            && (NUM_CAP < t.capAllocd ==> OnTop(u.freeCap, Min(t.capAllocd, MAX_CAP) - 1))
  {
    hide EnsureCapture;
    EnsureKeeps(s, w, h, fourcc, env);
    var t := EnsureCapture(s, w, h, fourcc, env).0;
    FreshSlots(s, t);
    ResetRebuilds(t);
    if NUM_CAP < t.capAllocd {
      assert ClaimedIndices(t) == {};
      HighestLast(Min(t.capAllocd, MAX_CAP), {});
    }
  }
}
