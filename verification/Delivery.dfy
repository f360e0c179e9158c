/** Which pictures can be copied out: the mapping stops at 24 buffers, a reset pools up to 40. */
module Delivery {
  import opened Wrappers
  import opened Pools
  import opened V4l2Kernel
  import opened Bridge
  import opened Ownership
  import opened Submit
  import opened SlotRelease
  import opened Invariant
  import opened Exclusive
  import opened Picture
  import opened CopyOut
  import opened Epochs

  // ----- one picture

  /** Main result, one picture: when every ioctl and the copy itself succeed, the picture reaches its surface or
    * the slot table exactly when its buffer is below 24; otherwise the buffer is back in the pool and nothing
    * has changed. */
  lemma PictureDelivers(s: State, env: EndEnv)
    requires CopyMode(s) && s.current.Some? && s.request && (env.streamOut ==> env.streamCap)
    requires Decodes(s, env) && env.copyOutOk
    ensures var p, u := Prepare(s, env).0, EndPicture(s, env);
            && (Pick(s, env) < NUM_CAP ==>
                  && (ArmedFor(s, env) ==> u.model.slots == Refreshed(p.model.slots, env.mask, Pick(s, env)))
                  && (!ArmedFor(s, env) ==> u.held == p.held[s.current.value := Pick(s, env)]))
            && (Pick(s, env) >= NUM_CAP ==>
                  && !PictureRenegotiates(s, env)
                  && u.held == s.held && u.model.slots == s.model.slots && u.freeCap == s.freeCap)
  {
    hide Prepare, DecodeSubmit, Deliver, ArmedFor, PoolOf, CapturesOf;
    PictureExit(s, env);
    PrepareKeeps(s, env);
    PrepareConfigured(s, env);
    var (p, out) := Prepare(s, env);
    var mask := SubmittedMask(s, env);
    SubmitAccounted(p, out.value, mask, env.submit);
    var (t, r) := DecodeSubmit(p, out.value, mask, env.submit);
    assert EndPicture(s, env) == Deliver(t, r, env).(current := None);
    ChosenInRange(p);
    if r < NUM_CAP {
      DeliverReaches(t, r, env);
    } else {
      HighPick(s, env);
      GiveBackRestores(p);
      DeliverRefused(t, r, env);
    }
  }

  lemma PrepareConfigured(s: State, env: EndEnv)
    requires CopyMode(s) && s.current.Some? && s.request && (env.streamOut ==> env.streamCap) && Reaches(s, env)
    ensures var p := Prepare(s, env).0; !p.cfg.expbuf && p.cfg.codec.AV1? && !p.Claimed()
  {
    hide Prepare;
    PrepareKeeps(s, env);
  }

  /** A fresh pool stays below 24. */
  lemma HighPick(s: State, env: EndEnv)
    requires !s.cfg.expbuf && HasCapture(s, env) && Pick(s, env) >= NUM_CAP && Reaches(s, env)
    ensures !PictureRenegotiates(s, env)
  {
  }

  lemma DeliverReaches(t: State, r: int, env: EndEnv)
    requires Basic(t) && t.current.Some? && t.cfg.codec.AV1? && PullWorks(t, r, env.copyOutOk)
    requires 0 <= r < Min(t.capAllocd, MAX_CAP)
    ensures var u := Deliver(t, r, env);
            && (t.model.active ==> u.model.slots == Refreshed(t.model.slots, env.mask, r))
            && (!t.model.active ==> u.held == t.held[t.current.value := r])
  {
    hide ReleaseUnreferenced;
    if t.model.active {
      var s1 := t.SetHeld(t.current.value, r);
      assert SlotsInRange(s1);
      ReleaseExact(s1, t.current.value, r, env.mask);
    }
  }

  lemma DeliverRefused(t: State, r: int, env: EndEnv)
    requires r >= NUM_CAP
    ensures Deliver(t, r, env) == t.PushCap(r)
  {
  }

  // ----- runs

  /** Every index in the pool, a slot or a surface can be mapped. */
  ghost predicate Mappable(s: State) {
    && (forall x :: x in s.freeCap ==> x < NUM_CAP)
    && (forall id :: id in s.held ==> s.held[id] < NUM_CAP)
    && (forall t :: 0 <= t < REFS ==> s.model.slots[t] < NUM_CAP)
  }

  /** The event ends in a reset of more than 24 capture buffers. */
  predicate Overflows(s: State, e: Event) {
    e.End? && s.current.Some? && s.request && Resets(s, e.env) && CapturesOf(s, e.env) > NUM_CAP
  }

  /** A renegotiation hands out indices below 24 only. */
  lemma EnsureMappable(s: State, w: int, h: int, fourcc: nat, env: EnsureEnv)
    requires Basic(s) && Mappable(s)
    ensures Mappable(EnsureCapture(s, w, h, fourcc, env).0)
  {
    hide EnsureCapture, Basic;
    EnsureKeeps(s, w, h, fourcc, env);
    EnsureSettled(s, w, h, fourcc, env);
    var t := EnsureCapture(s, w, h, fourcc, env).0;
    if Renegotiates(s, w, h, if fourcc != 0 then fourcc else NV12) {
      assert forall id :: id in t.held ==> id in s.held && t.held[id] <= if s.held[id] > -1 then s.held[id] else -1;
    }
  }

  lemma PrepareMappable(s: State, env: EndEnv)
    requires Basic(s) && Mappable(s) && s.request && (env.streamOut ==> env.streamCap)
    ensures Mappable(Prepare(s, env).0)
  {
    hide EnsureCapture, Basic;
    ArmBasic(s, env);
    var s0 := Arm(s, env);
    if env.paramsOk {
      EnsureMappable(s0, env.w, env.h, env.fourcc, env.ensure);
    }
  }

  /** Pushing, holding or releasing a buffer below 24 brings no index from 24 on into play. */
  lemma DeliverMappable(t: State, r: int, env: EndEnv)
    requires Basic(t) && Mappable(t) && 0 <= r < Min(t.capAllocd, MAX_CAP) && r < NUM_CAP
    ensures Mappable(Deliver(t, r, env))
  {
    hide ReleaseUnreferenced;
    PushCapKeeps(t, r);
    if t.current.Some? && PullWorks(t, r, env.copyOutOk) && t.cfg.codec.AV1? && t.model.active {
      var s1 := t.SetHeld(t.current.value, r);
      assert SlotsInRange(s1);
      ReleaseExact(s1, t.current.value, r, env.mask);
    }
  }

  /** After a reset the highest index is pooled. */
  lemma ResetMappable(p: State, t: State)
    requires Mappable(p) && CaptureReset(p, t)
    ensures Mappable(t) <==> p.capAllocd <= NUM_CAP
  {
    if p.capAllocd > NUM_CAP {
      assert NUM_CAP in t.freeCap;
    }
  }

  lemma EndMappable(s: State, env: EndEnv)
    requires Basic(s) && Mappable(s) && (env.streamOut ==> env.streamCap)
    ensures Mappable(EndPicture(s, env)) <==> !Overflows(s, End(env))
  {
    hide Prepare, DecodeSubmit, Deliver, Basic, Resets, Reaches, PoolOf, CapturesOf, Decodes, Delivers;
    if s.current.Some? && s.request {
      PrepareKeeps(s, env);
      PrepareMappable(s, env);
      var (p, out) := Prepare(s, env);
      if out.None? {
        NotReached(s, env);
      } else {
        PictureExit(s, env);
        ExitsExclude(s, env);
        var mask := SubmittedMask(s, env);
        SubmitAccounted(p, out.value, mask, env.submit);
        var (t, r) := DecodeSubmit(p, out.value, mask, env.submit);
        if r < 0 && !t.streamed {
          ResetMappable(p, t);
          assert Mappable(Conclude(t, r, env)) <==> Mappable(t);
        } else {
          KeptMappable(p, t, r);
          if r >= 0 { DeliverMappable(t, r, env); }
        }
      }
    }
  }

  /** The exits without a reset keep or give back the chosen index. */
  lemma KeptMappable(p: State, t: State, r: int)
    requires CaptureSide(p) && Mappable(p) && t.held == p.held && t.model == p.model
    requires (r >= 0 && ChooseCapture(p).Some? && r == Chosen(p) && t.freeCap == Rest(p)) || GaveBack(p, t)
    ensures Mappable(t) && (ChooseCapture(p).Some? && r == Chosen(p) ==> r < NUM_CAP)
  {
    if ChooseCapture(p).Some? {
      ChosenInRange(p);
      if GaveBack(p, t) { PushElements(Rest(p), Chosen(p), MAX_CAP); }
    }
  }

  /** Main result on reuse, one step, in both modes: the context stays mappable in every step but exactly a reset
    * of more than 24 buffers. */
  lemma StepMappable(s: State, e: Event)
    requires Basic(s) && Mappable(s) && Admissible(s, e)
    ensures Mappable(Step(s, e)) <==> !Overflows(s, e)
  {
    hide EndPicture, EnsureCapture, Overflows, Basic;
    match e
    case Create(_) => QuietOverflow(s, e);
    case Destroy(id) => QuietOverflow(s, e); GiveUpMappable(s, id);
    case Begin(id, allocOk) => QuietOverflow(s, e); GiveUpMappable(s, id);
    case End(env) => EndMappable(s, env);
    case Export(id, w, h, env) =>
      QuietOverflow(s, e);
      ExportMappable(s, id, w, h, env);
  }

  lemma ExportMappable(s: State, id: nat, w: int, h: int, env: EnsureEnv)
    requires Basic(s) && Mappable(s)
    ensures Mappable(ExportSurface(s, id, w, h, env))
  {
    hide EnsureCapture, Basic;
    var w' := if s.geo.width > 0 then s.geo.width else w;
    var h' := if s.geo.height > 0 then s.geo.height else h;
    EnsureMappable(s, w', h', s.geo.fourcc, env);
    var (s1, ok) := EnsureCapture(s, w', h', s.geo.fourcc, env);
    if |s1.freeCap| > 0 {
      ClaimMappable(s1, id);
    }
  }

  lemma ClaimMappable(s: State, id: nat)
    requires Mappable(s) && |s.freeCap| > 0
    ensures Mappable(s.(freeCap := s.freeCap[..|s.freeCap| - 1]).SetHeld(id, s.freeCap[|s.freeCap| - 1]))
  {
    TopMappable(s);
    var rest := s.freeCap[..|s.freeCap| - 1];
    forall x | x in rest ensures x < NUM_CAP { assert x in s.freeCap; }
  }

  lemma QuietOverflow(s: State, e: Event)
    requires !e.End?
    ensures !Overflows(s, e)
  {
  }

  /** Pushing what a surface held. */
  lemma GiveUpMappable(s: State, id: nat)
    requires Mappable(s)
    ensures id in s.held ==> Mappable(s.PushCap(s.held[id]))
  {
  }

  ghost predicate MappableThroughout(s: State, es: seq<Event>)
    decreases |es|
  {
    Mappable(s) && (es == [] || MappableThroughout(Step(s, es[0]), es[1..]))
  }

  ghost predicate NoOverflow(s: State, es: seq<Event>)
    decreases |es|
  {
    es == [] || (!Overflows(s, es[0]) && NoOverflow(Step(s, es[0]), es[1..]))
  }

  /** Main result on reuse, whole runs: every index that is or can be used stays below 24 throughout a run if and
    * only if no reset of the run finds more than 24 buffers granted. */
  lemma {:induction false} RunMappable(s: State, es: seq<Event>)
    requires Basic(s) && Mappable(s) && AdmissibleRun(s, es)
    ensures MappableThroughout(s, es) <==> NoOverflow(s, es)
    decreases |es|
  {
    hide Step, Overflows, Basic, Mappable;
    if es != [] {
      StepMappable(s, es[0]);
      StepKeeps(s, es[0]);
      if !Overflows(s, es[0]) { RunMappable(Step(s, es[0]), es[1..]); }
    }
  }

  /** Every picture of the run whose ioctls and copy succeed is copied out. */
  ghost predicate DecodedDelivered(s: State, es: seq<Event>)
    decreases |es|
  {
    es == [] ||
    (&& (es[0].End? && s.current.Some? && s.request && Decodes(s, es[0].env) && es[0].env.copyOutOk ==>
           Delivers(s, es[0].env))
     && DecodedDelivered(Step(s, es[0]), es[1..]))
  }

  lemma MappablePick(s: State, env: EndEnv)
    requires Mappable(s) && Decodes(s, env) && env.copyOutOk
    ensures Delivers(s, env)
  {
    var pool := PoolOf(s, env);
    if !UsesClaim(s, env) { assert pool[|pool| - 1] in pool; }
  }

  /** So in such a run every decoded picture is copied out. */
  lemma {:induction false} RunDelivers(s: State, es: seq<Event>)
    requires Basic(s) && Mappable(s) && AdmissibleRun(s, es) && NoOverflow(s, es)
    ensures DecodedDelivered(s, es)
    decreases |es|
  {
    hide Step, Overflows, Basic, Mappable, Decodes, Delivers;
    if es != [] {
      var e := es[0];
      if e.End? && s.current.Some? && s.request && Decodes(s, e.env) && e.env.copyOutOk { MappablePick(s, e.env); }
      StepMappable(s, e);
      StepKeeps(s, e);
      RunDelivers(Step(s, e), es[1..]);
    }
  }

  /** In an epoch without debt a picture finds a buffer that can be copied out, if nine are usable. */
  lemma {:induction false} EpochDelivers(s: State, es: seq<Event>)
    requires CopyMode(s) && Loose(s) == {} && Mappable(s) && EpochRun(s, es) && Usable(Run(s, es)) > REFS
    ensures var u := Run(s, es); |u.freeCap| > 0 && u.freeCap[|u.freeCap| - 1] < NUM_CAP
    decreases |es|
  {
    hide Step, Restarts, CopyMode, Loose, Mappable;
    if es == [] {
      LooseNone(s);
      TopMappable(s);
    } else {
      StepStaysFree(s, es[0]);
      QuietEpoch(s, es[0]);
      BasicOf(s);
      StepMappable(s, es[0]);
      EpochDelivers(Step(s, es[0]), es[1..]);
    }
  }

  lemma LooseNone(s: State)
    requires CopyMode(s) && Loose(s) == {} && Usable(s) > REFS
    ensures |s.freeCap| > 0
  {
    CopyModeSplits(s);
    NeverStarves(s);
  }

  lemma TopMappable(s: State)
    requires Mappable(s) && |s.freeCap| > 0
    ensures s.freeCap[|s.freeCap| - 1] < NUM_CAP
  {
    assert s.freeCap[|s.freeCap| - 1] in s.freeCap;
  }

  lemma BasicOf(s: State)
    requires CopyMode(s)
    ensures Basic(s)
  {
  }

  lemma QuietEpoch(s: State, e: Event)
    requires !Restarts(s, e)
    ensures !Overflows(s, e)
  {
  }

  // ----- after a reset of more than 24 buffers

  /** The next index is one that cannot be mapped, and no surface has one to give back. */
  ghost predicate Wedged(s: State) {
    CopyMode(s) && |s.freeCap| > 0 && s.freeCap[|s.freeCap| - 1] >= NUM_CAP && forall id :: !s.Holds(id)
  }

  lemma ResetWedges(s: State)
    requires CopyMode(s) && s.capAllocd > NUM_CAP && forall id :: !s.Holds(id)
    ensures Wedged(DecodeReset(s))
  {
    AfterDecodeReset(s);
    assert ClaimedIndices(s) == {};
    RebuiltTop(Min(s.capAllocd, MAX_CAP));
  }

  lemma RebuiltTop(n: nat)
    requires n > 0
    ensures var f := Unclaimed(n, {}); |f| > 0 && f[|f| - 1] == n - 1
  {
  }

  /** A picture on a wedged context: whatever succeeds or fails, the context stays wedged. */
  lemma EndWedged(s: State, env: EndEnv)
    requires Wedged(s) && (env.streamOut ==> env.streamCap)
    requires s.current.Some? && s.request ==> !PictureRenegotiates(s, env)
    ensures Wedged(EndPicture(s, env))
    ensures s.current.Some? && s.request ==> !Delivers(s, env)
  {
    hide CopyMode, EndPicture, Delivers;
    StepSound(s, End(env));
    assert Step(s, End(env)) == EndPicture(s, env);
    if s.current.Some? && s.request {
      WedgedPick(s, env);
    }
    EndWedgedPool(s, env);
  }

  /** The top of the pool, and nobody holding. */
  ghost predicate Topped(u: State) {
    |u.freeCap| > 0 && u.freeCap[|u.freeCap| - 1] >= NUM_CAP && forall id :: !u.Holds(id)
  }

  lemma SameTopped(s: State, u: State)
    requires Topped(s) && u.freeCap == s.freeCap && u.held == s.held
    ensures Topped(u)
  {
    assert forall id :: u.Holds(id) <==> s.Holds(id);
  }

  lemma EndWedgedPool(s: State, env: EndEnv)
    requires Wedged(s) && (env.streamOut ==> env.streamCap)
    requires s.current.Some? && s.request ==> !PictureRenegotiates(s, env)
    ensures Topped(EndPicture(s, env))
  {
    hide Prepare, DecodeSubmit, Conclude, Basic, Reaches, PictureRenegotiates, PoolOf, CapturesOf;
    if s.current.Some? && s.request {
      PrepareKeeps(s, env);
      var (p, out) := Prepare(s, env);
      SameTopped(s, p);
      if out.Some? {
        WedgedPick(s, env);
        PickIsChosen(s, env);
        WedgedExit(p, out.value, SubmittedMask(s, env), env);
      } else {
        SameTopped(p, FailPicture(p));
      }
    } else {
      SameTopped(s, EndPicture(s, env));
    }
  }

  lemma WedgedPick(s: State, env: EndEnv)
    requires Wedged(s) && !PictureRenegotiates(s, env)
    ensures HasCapture(s, env) && Pick(s, env) >= NUM_CAP && !Delivers(s, env)
  {
  }

  lemma WedgedExit(p: State, out: int, mask: Mask, env: EndEnv)
    requires Topped(p) && p.current.Some? && Ready(p, out)
    ensures var (t, r) := DecodeSubmit(p, out, mask, env.submit); Topped(Conclude(t, r, env))
  {
    hide DecodeSubmit, Deliver, Basic;
    SubmitAccounted(p, out, mask, env.submit);
    var (t, r) := DecodeSubmit(p, out, mask, env.submit);
    var u := Conclude(t, r, env);
    assert !p.Claimed();
    ChosenInRange(p);
    GiveBackRestores(p);
    if r >= 0 {
      DeliverRefused(t, r, env);
      SameTopped(p, u);
    } else if AfterReset(p, t) {
      WedgedReset(p, t);
      SameTopped(t, u);
    } else {
      SameTopped(p, u);
    }
  }

  lemma WedgedReset(p: State, t: State)
    requires Topped(p) && CapturePool(p) && t.held == p.held
    requires t.freeCap == Unclaimed(Min(p.capAllocd, MAX_CAP), ClaimedIndices(p))
    ensures Topped(t)
  {
    var top := p.freeCap[|p.freeCap| - 1];
    assert top in p.freeCap;
    forall x ensures x !in ClaimedIndices(p) {
      if id :| id in p.held && id in p.targets && 0 <= p.held[id] < MAX_CAP && p.held[id] == x { assert p.Holds(id); }
    }
    assert ClaimedIndices(p) == {};
    RebuiltTop(Min(p.capAllocd, MAX_CAP));
    assert forall id :: t.Holds(id) <==> p.Holds(id);
  }

  /** A run in which no picture renegotiates. */
  ghost predicate Settled(s: State, es: seq<Event>)
    decreases |es|
  {
    es == [] ||
    (&& Admissible(s, es[0])
     && !(es[0].End? && s.current.Some? && s.request && PictureRenegotiates(s, es[0].env))
     && Settled(Step(s, es[0]), es[1..]))
  }

  /** No picture of the run is copied out. */
  ghost predicate NothingDelivered(s: State, es: seq<Event>)
    decreases |es|
  {
    es == [] ||
    (&& !(es[0].End? && s.current.Some? && s.request && Delivers(s, es[0].env))
     && NothingDelivered(Step(s, es[0]), es[1..]))
  }

  lemma StepWedged(s: State, e: Event)
    requires Wedged(s) && Admissible(s, e)
    requires !(e.End? && s.current.Some? && s.request && PictureRenegotiates(s, e.env))
    ensures Wedged(Step(s, e))
    ensures !(e.End? && s.current.Some? && s.request && Delivers(s, e.env))
  {
    hide EndPicture, CopyMode, Delivers;
    StepSound(s, e);
    match e
    case Create(id) => assert forall i :: Step(s, e).Holds(i) ==> s.Holds(i);
    case Destroy(id) =>
      assert !s.Holds(id);
      assert Step(s, e).freeCap == s.freeCap;
      assert forall i :: Step(s, e).Holds(i) ==> s.Holds(i);
    case Begin(id, allocOk) =>
      assert !s.Holds(id);
      assert Step(s, e).freeCap == s.freeCap;
      assert forall i :: Step(s, e).Holds(i) ==> s.Holds(i);
    case End(env) => EndWedged(s, env);
    case Export(id, w, h, env) => NotExpbuf(s);
  }

  lemma NotExpbuf(s: State)
    requires CopyMode(s)
    ensures !s.cfg.expbuf
  {
  }

  /** Main result on wedging: once a reset finds more than 24 buffers granted and no surface holding one, no
    * picture is ever copied out again, whatever succeeds, until a renegotiation. */
  lemma {:induction false} RunWedged(s: State, es: seq<Event>)
    requires Wedged(s) && Settled(s, es)
    ensures Wedged(Run(s, es)) && NothingDelivered(s, es)
    decreases |es|
  {
    hide Step, Wedged, Delivers, PictureRenegotiates;
    if es != [] {
      StepWedged(s, es[0]);
      RunWedged(Step(s, es[0]), es[1..]);
    }
  }
}
