/** Whether the usable capture buffers of an AV1 context all have a place - the pool, a reference slot or a surface -
  * in both export modes. */
module Places {
  import opened Pools
  import opened V4l2Kernel
  import opened Bridge
  import opened Ownership
  import opened Submit
  import opened SlotRelease
  import opened Invariant
  import opened Exclusive
  import opened CopyOut

  ghost predicate HasPlace(s: State, x: int) {
    x in s.freeCap || x in s.model.slots || exists id :: s.Holds(id) && s.held[id] == x
  }

  ghost predicate Placed(s: State) {
    forall x :: 0 <= x < Usable(s) ==> HasPlace(s, x)
  }

  lemma PlacedIs(s: State)
    ensures Placed(s) <==> Lost(s) == {}
  {
    forall x ensures x in Lost(s) <==> 0 <= x < Usable(s) && !HasPlace(s, x) {
      LooseIs(s, x);
      HeldIs(s, x);
    }
    assert (forall x :: x !in Lost(s)) ==> Lost(s) == {};
  }

  /** The renegotiation of an export stops after clearing the surfaces. */
  predicate ExportStops(s: State, id: nat, w: int, h: int, env: EnsureEnv) {
    && s.cfg.expbuf && id in s.held && s.held[id] < 0
    && var w' := if s.geo.width > 0 then s.geo.width else w;
       var h' := if s.geo.height > 0 then s.geo.height else h;
       w' > 0 && h' > 0 && Renegotiates(s, w', h', if s.geo.fourcc != 0 then s.geo.fourcc else NV12) && Stuck(s, env)
  }

  /** The event takes a usable index out of every place: the armed model leaves the buffer of a surface that is given
    * up to its slots, but no slot has it; or a renegotiation stops short with indices away. Re-targeting gives a
    * surface up in copying mode only. */
  ghost predicate Leaks(s: State, e: Event) {
    match e
    case Begin(id, _) => !s.cfg.expbuf && Strands(s, id)
    case Destroy(id) => Strands(s, id)
    case End(env) => s.current.Some? && s.request && StopsShort(s, env) && exists x :: x in Away(s)
    case Export(id, w, h, env) => ExportStops(s, id, w, h, env) && exists x :: x in Away(s)
    case _ => false
  }

  // ----- what keeps every place

  /** Whatever had a place has one. */
  lemma KeepsPlaces(s: State, t: State)
    requires Placed(s) && t.capAllocd == s.capAllocd
    requires forall x :: 0 <= x < Usable(s) && HasPlace(s, x) ==> HasPlace(t, x)
    ensures Placed(t)
  {
  }

  /** The same surfaces and slots, and a pool that has everything it had but `r`, which is held or in a slot. */
  lemma GrownPool(s: State, t: State)
    requires Placed(s) && t.capAllocd == s.capAllocd && t.held == s.held && t.model.slots == s.model.slots
    requires forall x :: x in s.freeCap ==> x in t.freeCap
    ensures Placed(t)
  {
    forall x | 0 <= x < Usable(s) && HasPlace(s, x) ensures HasPlace(t, x) {
      if id :| s.Holds(id) && s.held[id] == x { assert t.Holds(id); }
    }
  }

  lemma SamePlaces(s: State, t: State)
    requires t.capAllocd == s.capAllocd && t.held == s.held && t.model.slots == s.model.slots && t.freeCap == s.freeCap
    ensures Placed(t) <==> Placed(s)
  {
    if Placed(s) { GrownPool(s, t); }
    if Placed(t) { GrownPool(t, s); }
  }

  /** Surface `id`, which held nothing or `buf`, takes `buf`, which may leave the pool. */
  lemma TakesPlace(s: State, t: State, id: nat, buf: int)
    requires Placed(s) && t.capAllocd == s.capAllocd && t.model.slots == s.model.slots && buf >= 0
    requires t.held == s.held[id := buf] && (s.Holds(id) ==> s.held[id] == buf)
    requires forall x :: x in s.freeCap && x != buf ==> x in t.freeCap
    ensures Placed(t)
  {
    assert t.Holds(id);
    forall x | 0 <= x < Usable(s) && HasPlace(s, x) ensures HasPlace(t, x) {
      if i :| s.Holds(i) && s.held[i] == x { assert t.Holds(i); }
    }
  }

  /** The release leaves no buffer without a place: what loses its last slot goes to the pool. */
  lemma ReleasePlaces(s: State, id: nat, buf: int, mask: Mask)
    requires CapturePool(s) && SlotsInRange(s) && 0 <= buf < Min(s.capAllocd, MAX_CAP)
    requires Placed(s) && id in s.held && s.held[id] == buf
    ensures Placed(ReleaseUnreferenced(s, id, buf, mask))
  {
    hide ReleaseUnreferenced;
    ReleaseExact(s, id, buf, mask);
    var u := ReleaseUnreferenced(s, id, buf, mask);
    forall x | 0 <= x < Usable(s) && HasPlace(s, x) ensures HasPlace(u, x) {
      if i :| s.Holds(i) && s.held[i] == x {
        if x !in u.freeCap && x !in u.model.slots { assert u.Holds(i) && u.held[i] == x; }
      }
    }
  }

  lemma DeliverPlaces(t: State, p: State, r: int, env: EndEnv)
    requires Basic(t) && t.current.Some? && t.current.value in t.held && 0 <= r < Min(t.capAllocd, MAX_CAP)
    requires Placed(p) && p.capAllocd == t.capAllocd && p.held == t.held && p.model.slots == t.model.slots
    requires forall x :: x in p.freeCap && x != r ==> x in t.freeCap
    requires t.Holds(t.current.value) ==> t.held[t.current.value] == r
    ensures Placed(Deliver(t, r, env))
  {
    hide ReleaseUnreferenced;
    PushCapKeeps(t, r);
    if PullWorks(t, r, env.copyOutOk) {
      var s1 := t.SetHeld(t.current.value, r);
      TakesPlace(p, s1, t.current.value, r);
      if t.cfg.codec.AV1? && t.model.active {
        assert SlotsInRange(s1);
        ReleasePlaces(s1, t.current.value, r, env.mask);
      }
    } else {
      GrownPool(p, t.PushCap(r));
    }
  }

  lemma ResetPlaced(p: State, t: State)
    requires Registered(p) && CaptureReset(p, t)
    ensures Placed(t)
  {
    ResetBooks(p, t);
    PlacedIs(t);
  }

  // ----- the decode, in both modes

  lemma FinishPlaces(p: State, out: int, mask: Mask, env: EndEnv)
    requires Ready(p, out) && p.current.Some? && p.current.value in p.held && Placed(p)
    requires !p.Claimed() ==> !p.Holds(p.current.value)
    ensures var (t, r) := DecodeSubmit(p, out, mask, env.submit); Placed(Conclude(t, r, env))
  {
    hide DecodeSubmit, Deliver;
    SubmitAccounted(p, out, mask, env.submit);
    var (t, r) := DecodeSubmit(p, out, mask, env.submit);
    var u := Conclude(t, r, env);
    if ChooseCapture(p).Some? {
      ChosenInRange(p);
      PushElements(Rest(p), Chosen(p), MAX_CAP);
    }
    if r >= 0 {
      DeliverPlaces(t, p, r, env);
      SamePlaces(Deliver(t, r, env), u);
    } else if !t.streamed {
      ResetPlaced(p, t);
      SamePlaces(t, u);
    } else {
      GrownPool(p, u);
    }
  }

  lemma PreparePlaces(s: State, env: EndEnv)
    requires Sound(s) && s.request && (env.streamOut ==> env.streamCap) && Placed(s)
    ensures Placed(Prepare(s, env).0) <==> !(StopsShort(s, env) && exists x :: x in Away(s))
  {
    hide Prepare, Basic, Disjoint, Tracked;
    PrepareKeeps(s, env);
    var p := Prepare(s, env).0;
    if PictureRenegotiates(s, env) {
      FreshBooks(s, env, p);
      PlacedIs(p);
      assert (forall x :: x !in Away(s)) ==> Away(s) == {};
    } else {
      GrownPool(s, p);
    }
  }

  lemma EndPlaces(s: State, env: EndEnv)
    requires Sound(s) && (env.streamOut ==> env.streamCap) && Placed(s)
    ensures Placed(EndPicture(s, env)) <==> !Leaks(s, End(env))
  {
    hide Prepare, DecodeSubmit, Conclude, Disjoint, Tracked, StopsShort, Placed;
    if s.current.Some? && s.request {
      PrepareKeeps(s, env);
      PreparePlaces(s, env);
      var (p, out) := Prepare(s, env);
      if out.Some? {
        ReachedOn(s, env);
        FinishPlaces(p, out.value, SubmittedMask(s, env), env);
      } else {
        SamePlaces(p, FailPicture(p));
      }
    } else {
      SamePlaces(s, EndPicture(s, env));
    }
  }

  /** A picture that reaches its decode has not stopped short, and its surface holds nothing but a claim. */
  lemma ReachedOn(s: State, env: EndEnv)
    requires Basic(s) && s.request && s.current.Some? && (env.streamOut ==> env.streamCap) && Reaches(s, env)
    ensures !StopsShort(s, env)
    ensures var p := Prepare(s, env).0;
            p.current == s.current && p.current.value in p.held && (!p.Claimed() ==> !p.Holds(p.current.value))
  {
    hide Prepare;
    PrepareKeeps(s, env);
    var p := Prepare(s, env).0;
    if PictureRenegotiates(s, env) { assert !p.Holds(p.current.value); }
  }

  // ----- exports

  lemma ExportPlaces(s: State, id: nat, w: int, h: int, env: EnsureEnv)
    requires Sound(s) && Placed(s)
    ensures Placed(ExportSurface(s, id, w, h, env)) <==> !Leaks(s, Export(id, w, h, env))
  {
    hide EnsureCapture, Disjoint, Tracked, Placed, Away, Basic;
    if id in s.held && s.cfg.expbuf && s.held[id] < 0 {
      var w' := if s.geo.width > 0 then s.geo.width else w;
      var h' := if s.geo.height > 0 then s.geo.height else h;
      EnsurePlaces(s, w', h', s.geo.fourcc, env);
      EnsureKeeps(s, w', h', s.geo.fourcc, env);
      var (s1, ok) := EnsureCapture(s, w', h', s.geo.fourcc, env);
      if ok && !s1.Holds(id) && |s1.freeCap| > 0 {
        ClaimPlaces(s1, id);
      }
    }
  }

  lemma ClaimPlaces(s: State, id: nat)
    requires Basic(s) && Placed(s) && !s.Holds(id) && |s.freeCap| > 0
    ensures Placed(s.(freeCap := s.freeCap[..|s.freeCap| - 1]).SetHeld(id, s.freeCap[|s.freeCap| - 1]))
  {
    hide Placed;
    PopElements(s.freeCap);
    var last := s.freeCap[|s.freeCap| - 1];
    assert last in s.freeCap;
    TakesPlace(s, s.(freeCap := s.freeCap[..|s.freeCap| - 1]).SetHeld(id, last), id, last);
  }

  lemma EnsurePlaces(s: State, w: int, h: int, fourcc: nat, env: EnsureEnv)
    requires Sound(s) && Placed(s)
    ensures var (t, ok) := EnsureCapture(s, w, h, fourcc, env);
            var stops := w > 0 && h > 0 && Renegotiates(s, w, h, if fourcc != 0 then fourcc else NV12) && Stuck(s, env);
            (Placed(t) <==> !(stops && exists x :: x in Away(s))) && (ok ==> !stops)
  {
    hide EnsureCapture, Disjoint, Tracked;
    EnsureKeeps(s, w, h, fourcc, env);
    EnsureSettled(s, w, h, fourcc, env);
    var t := EnsureCapture(s, w, h, fourcc, env).0;
    if w > 0 && h > 0 && Renegotiates(s, w, h, if fourcc != 0 then fourcc else NV12) {
      FreshSlots(s, t);
      ClearedPlaces(s, t, env);
    }
  }

  /** Surfaces and slots are empty: only the pool is left. */
  lemma ClearedPlaces(s: State, t: State, env: EnsureEnv)
    requires FreshCapture(t)
    requires if Stuck(s, env) then t.capAllocd == s.capAllocd && t.freeCap == s.freeCap
             else t.capAllocd == GrantedBy(env.attempts) && t.freeCap == Upto(Usable(t))
    ensures Placed(t) <==> !(Stuck(s, env) && exists x :: x in Away(s))
  {
    forall x | 0 <= x < Usable(t) ensures HasPlace(t, x) <==> x in t.freeCap {
      assert x in t.model.slots ==> false;
    }
    if Stuck(s, env) {
      forall x ensures x in Away(s) <==> 0 <= x < Usable(s) && x !in s.freeCap { LooseIs(s, x); }
    } else {
      forall x | 0 <= x < Usable(t) ensures x in t.freeCap { assert t.freeCap[x] == x; }
    }
  }

  // ----- steps and runs

  /** With EXPBUF on, re-targeting takes nothing, and a destroyed surface gives its buffer up as in copying mode. */
  lemma ClaimedStepPlaces(s: State, e: Event)
    requires Sound(s) && s.cfg.expbuf && Admissible(s, e) && Placed(s)
    ensures Placed(Step(s, e)) <==> !Leaks(s, e)
  {
    hide EndPicture, ExportSurface, DestroySurface, Sound, Placed, Away, StopsShort, ExportStops;
    match e
    case Create(id) => CreatePlaces(s, id);
    case Destroy(id) => DestroyPlaces(s, id);
    case Begin(id, allocOk) => SamePlaces(s, BeginPicture(s, id, allocOk));
    case End(env) => EndPlaces(s, env);
    case Export(id, w, h, env) => ExportPlaces(s, id, w, h, env);
  }

  lemma CreatePlaces(s: State, id: nat)
    requires Placed(s)
    ensures Placed(CreateSurface(s, id))
  {
    forall x | 0 <= x < Usable(s) && HasPlace(s, x) ensures HasPlace(CreateSurface(s, id), x) {
      if i :| s.Holds(i) && s.held[i] == x { assert CreateSurface(s, id).Holds(i); }
    }
  }

  lemma DestroyPlaces(s: State, id: nat)
    requires Sound(s) && Placed(s)
    ensures Placed(DestroySurface(s, id)) <==> !Strands(s, id)
  {
    var t := DestroySurface(s, id);
    if s.Holds(id) { PushCapKeeps(s, s.held[id]); }
    forall x | 0 <= x < Usable(s)
      ensures HasPlace(t, x) <==> !(Strands(s, id) && x == s.held[id])
    {
      assert HasPlace(s, x);
      if i :| s.Holds(i) && s.held[i] == x {
        if i != id { assert t.Holds(i); }
      }
    }
    assert Strands(s, id) ==> !HasPlace(t, s.held[id]);
  }

  /** Main result on leaks, one step, in both modes: with every usable index in the pool, a slot or a surface, one of
    * them leaves all three exactly when the event leaks. */
  lemma StepPlaces(s: State, e: Event)
    requires Sound(s) && s.cfg.codec.AV1? && Admissible(s, e) && Lost(s) == {}
    ensures Lost(Step(s, e)) == {} <==> !Leaks(s, e)
  {
    hide Step, Sound, Lost;
    PlacedIs(s);
    PlacedIs(Step(s, e));
    if s.cfg.expbuf {
      ClaimedStepPlaces(s, e);
    } else {
      StepDebt(s, e);
      assert (forall x :: x !in Away(s)) ==> Away(s) == {};
    }
  }

  ghost predicate PlacedThroughout(s: State, es: seq<Event>)
    decreases |es|
  {
    Lost(s) == {} && (es == [] || PlacedThroughout(Step(s, es[0]), es[1..]))
  }

  ghost predicate LeakFree(s: State, es: seq<Event>)
    decreases |es|
  {
    es == [] || (!Leaks(s, es[0]) && LeakFree(Step(s, es[0]), es[1..]))
  }

  /** Main result on leaks, whole runs, in both modes: while ownership stays disjoint, every usable index is in the
    * pool, a slot or a surface throughout a run if and only if no event of the run leaks. */
  lemma {:induction false} RunPlaces(s: State, es: seq<Event>)
    requires Sound(s) && s.cfg.codec.AV1? && Lost(s) == {} && AdmissibleRun(s, es) && CleanRun(s, es)
    ensures PlacedThroughout(s, es) <==> LeakFree(s, es)
    decreases |es|
  {
    hide Step, Basic, Disjoint, Tracked, Leaks, Lost, Clean;
    if es != [] {
      StepPlaces(s, es[0]);
      StepOwned(s, es[0]);
      StepConfig(s, es[0]);
      if !Leaks(s, es[0]) { RunPlaces(Step(s, es[0]), es[1..]); }
    }
  }
}
