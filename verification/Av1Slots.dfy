/** The AV1 copy-out model over whole runs: the slot table against the kernel's reference table. */
module Av1Slots {
  import opened Wrappers
  import opened V4l2Kernel
  import opened Bridge
  import opened Ownership
  import opened Submit
  import opened SlotRelease
  import opened Invariant
  import opened Exclusive

  // ----- the slot table refines the kernel's

  /** Every filled slot names the buffer the kernel has in that slot. */
  ghost predicate Matches(s: State) {
    forall t :: 0 <= t < REFS && s.model.slots[t] >= 0 ==> s.kernel.refs[t] == s.model.slots[t]
  }

  /** A decode succeeded in the kernel. */
  ghost predicate Completes(p: State, env: SubmitEnv) {
    && ChooseCapture(p).Some?
    && env.qbufOut && env.qbufCap && env.submitted && env.polled && env.dqCap == Some(Chosen(p))
    && !env.capError
  }

  /** The kernel entered the picture in a slot the model had filled with another buffer, but the picture
    * could not be copied out, so the model did not follow. */
  ghost predicate MissedRefresh(p: State, env: EndEnv) {
    && Completes(p, env.submit) && !PullWorks(p, Chosen(p), env.copyOutOk)
    && exists t :: 0 <= t < REFS && Bit(SubmittedMask(p, env), t)
                   && p.model.slots[t] >= 0 && p.model.slots[t] != Chosen(p)
  }

  /** Only slots that are filled can be missed, and a renegotiation leaves none. */
  ghost predicate Missed(s: State, e: Event) {
    && e.End? && s.current.Some? && s.request && Reaches(s, e.env) && !PictureRenegotiates(s, e.env)
    && MissedRefresh(s, e.env)
  }

  lemma MissedPrepared(s: State, env: EndEnv)
    requires Basic(s) && s.request && s.current.Some? && (env.streamOut ==> env.streamCap) && Reaches(s, env)
    ensures MissedRefresh(Prepare(s, env).0, env) <==> !PictureRenegotiates(s, env) && MissedRefresh(s, env)
  {
    hide Prepare, Basic;
    PrepareKeeps(s, env);
  }

  /** Emptied slots match any table, and so do equal tables. */
  lemma MatchesFrom(s: State, t: State)
    requires Matches(s)
    requires (t.model.slots == s.model.slots && t.kernel.refs == s.kernel.refs)
             || forall i :: 0 <= i < REFS ==> t.model.slots[i] < 0
    ensures Matches(t)
  {
  }

  lemma PrepareMatches(s: State, env: EndEnv)
    requires Basic(s) && Matches(s) && s.request && (env.streamOut ==> env.streamCap)
    ensures Matches(Prepare(s, env).0)
  {
    hide Prepare, Basic;
    PrepareKeeps(s, env);
    MatchesFrom(s, Prepare(s, env).0);
  }

  /** What the slot table is after the picture is delivered. */
  lemma DeliverSlots(s: State, buf: int, env: EndEnv)
    requires Basic(s) && 0 <= buf < Min(s.capAllocd, MAX_CAP) && s.current.Some?
    ensures var u := Deliver(s, buf, env);
            && u.kernel == s.kernel
            && u.model.slots == if PullWorks(s, buf, env.copyOutOk) && s.cfg.codec.AV1? && s.model.active
                                then Refreshed(s.model.slots, env.mask, buf) else s.model.slots
  {
    if PullWorks(s, buf, env.copyOutOk) && s.cfg.codec.AV1? && s.model.active {
      var s1 := s.SetHeld(s.current.value, buf);
      assert SlotsInRange(s1);
      ReleaseExact(s1, s.current.value, buf, env.mask);
      ReleaseIgnoresCurrent(s1, s.current.value, buf, env.mask);
    }
  }

  lemma FinishMatches(p: State, out: int, env: EndEnv)
    requires Ready(p, out) && Matches(p) && p.current.Some?
    ensures var (t, r) := DecodeSubmit(p, out, SubmittedMask(p, env), env.submit);
            Matches(Conclude(t, r, env)) <==> !MissedRefresh(p, env)
  {
    hide DecodeSubmit, Deliver;
    var mask := SubmittedMask(p, env);
    SubmitAccounted(p, out, mask, env.submit);
    var (t, r) := DecodeSubmit(p, out, mask, env.submit);
    var u := Conclude(t, r, env);
    if ChooseCapture(p).Some? {
      SubmitBranch(p, out, mask, env.submit);
    }
    if r >= 0 {
      ChosenInRange(p);
      DeliverSlots(t, r, env);
      if PullWorks(p, r, env.copyOutOk) {
        assert u.model.slots == p.model.slots || u.model.slots == Refreshed(p.model.slots, mask, r);
        assert !p.model.active ==> forall i :: 0 <= i < REFS ==> p.model.slots[i] < 0;
      } else if i :| 0 <= i < REFS && Bit(mask, i) && p.model.slots[i] >= 0 && p.model.slots[i] != r {
        assert u.kernel.refs[i] == r;
      }
    } else {
      MatchesFrom(p, u);
    }
  }

  /** Main result, one step: the slot table keeps agreeing with the kernel if and only if no completed
    * picture that overwrites a filled slot fails to be copied out. */
  lemma StepMatches(s: State, e: Event)
    requires Basic(s) && Admissible(s, e) && Matches(s)
    ensures Matches(Step(s, e)) <==> !Missed(s, e)
  {
    hide Prepare, EnsureCapture, DecodeSubmit, Conclude, MissedRefresh, Basic;
    match e
    case Create(_) =>
    case Destroy(_) =>
    case Begin(_, _) =>
    case End(env) =>
      if s.current.Some? && s.request {
        PrepareKeeps(s, env);
        PrepareMatches(s, env);
        var (p, out) := Prepare(s, env);
        if out.Some? {
          assert SubmittedMask(s, env) == SubmittedMask(p, env);
          MissedPrepared(s, env);
          FinishMatches(p, out.value, env);
        }
      }
    case Export(id, w, h, env) => ExportMatches(s, id, w, h, env);
  }

  lemma ExportMatches(s: State, id: nat, w: int, h: int, env: EnsureEnv)
    requires Basic(s) && Matches(s)
    ensures Matches(ExportSurface(s, id, w, h, env))
  {
    hide EnsureCapture;
    if id in s.held && s.cfg.expbuf && s.held[id] < 0 {
      var w' := if s.geo.width > 0 then s.geo.width else w;
      var h' := if s.geo.height > 0 then s.geo.height else h;
      EnsureKeeps(s, w', h', s.geo.fourcc, env);
      var (s1, ok) := EnsureCapture(s, w', h', s.geo.fourcc, env);
      if Renegotiates(s, w', h', if s.geo.fourcc != 0 then s.geo.fourcc else NV12) {
        FreshSlots(s, s1);
      }
      MatchesFrom(s, s1);
    }
  }

  ghost predicate MissedInRun(s: State, es: seq<Event>)
    decreases |es|
  {
    es != [] && (Missed(s, es[0]) || MissedInRun(Step(s, es[0]), es[1..]))
  }

  ghost predicate MatchesThroughout(s: State, es: seq<Event>)
    decreases |es|
  {
    Matches(s) && (es == [] || MatchesThroughout(Step(s, es[0]), es[1..]))
  }

  /** Main result, whole runs: every non-negative slot equals the kernel's entry throughout a run, resets and
    * renegotiations included, if and only if no copy-out is missed. */
  lemma {:induction false} RunMatches(s: State, es: seq<Event>)
    requires Basic(s) && Matches(s) && AdmissibleRun(s, es)
    ensures MatchesThroughout(s, es) <==> !MissedInRun(s, es)
    ensures Basic(Run(s, es)) && (!MissedInRun(s, es) ==> Matches(Run(s, es)))
    decreases |es|
  {
    hide Step, Missed, Matches;
    if es != [] {
      StepKeeps(s, es[0]);
      StepMatches(s, es[0]);
      RunKeeps(s, es);
      if Matches(Step(s, es[0])) { RunMatches(Step(s, es[0]), es[1..]); }
    }
  }
}
