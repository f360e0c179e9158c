/** Capture-buffer ownership: no pooled index is in use. Holds over every run of the copying mode, and
  * in EXPBUF mode exactly while no exit recycles a claimed index. */
module Exclusive {
  import opened Wrappers
  import opened Pools
  import opened V4l2Kernel
  import opened Bridge
  import opened Ownership
  import opened Submit
  import opened SlotRelease
  import opened Invariant
  import opened MaskBits

  /** No pooled index is held by a surface or in a reference slot, and no two surfaces hold the same one. A surface
    * and a slot may name the same buffer. */
  ghost predicate Disjoint(s: State) {
    && (forall id :: s.Holds(id) ==> s.held[id] !in s.freeCap)
    && (forall i, j :: s.Holds(i) && s.Holds(j) && i != j ==> s.held[i] != s.held[j])
    && (forall t :: 0 <= t < REFS && s.model.slots[t] >= 0 ==> s.model.slots[t] !in s.freeCap)
  }

  /** A surface that holds a buffer some slot references is that buffer's recorded owner. */
  ghost predicate Tracked(s: State) {
    forall id :: s.Holds(id) && s.held[id] < MAX_CAP && s.held[id] in s.model.slots ==>
      s.model.owner[s.held[id]] == id
  }

  ghost predicate Sound(s: State) {
    Basic(s) && Disjoint(s) && Tracked(s)
  }

  /** The decode of `p` ends on an exit that puts the claimed index back into the pool although the
    * surface keeps it: a failed QBUF, a corrupt frame, a failed mapping, or an AV1 picture with refresh
    * mask zero decoded over a buffer that is still a reference. */
  predicate Recycles(p: State, env: EndEnv) {
    p.Claimed() &&
    var cap := p.held[p.current.value];
    || !env.submit.qbufOut || !env.submit.qbufCap
    || (env.submit.submitted && env.submit.polled && env.submit.dqCap == Some(cap)
        && (env.submit.capError || !PullWorks(p, cap, env.copyOutOk)
            || (p.cfg.codec.AV1? && p.model.active && env.mask == 0 && cap in p.model.slots)))
  }

  /** The picture recycles no claim. A renegotiation takes every claim before the decode. */
  predicate Clean(s: State, e: Event) {
    e.End? && s.current.Some? && s.request && Reaches(s, e.env) && !PictureRenegotiates(s, e.env) ==>
      !Recycles(s, e.env)
  }

  /** A prepared picture still has the claim exactly when it has not renegotiated. */
  lemma CleanPrepared(s: State, env: EndEnv)
    requires Basic(s) && s.request && s.current.Some? && (env.streamOut ==> env.streamCap) && Reaches(s, env)
    ensures Recycles(Prepare(s, env).0, env) <==> !PictureRenegotiates(s, env) && Recycles(s, env)
  {
    hide Prepare, Basic;
    PrepareKeeps(s, env);
    var p := Prepare(s, env).0;
    if PictureRenegotiates(s, env) {
      assert !p.Holds(p.current.value);
    } else if s.Claimed() && !s.model.active {
      NoSlots(s, s.held[s.current.value]);
    }
  }

  lemma NoSlots(s: State, b: int)
    requires Basic(s) && !s.model.active && b >= 0
    ensures b !in s.model.slots
  {
  }

  // ----- states that are trivially in order

  lemma FreshOwned(p: State)
    requires FreshCapture(p)
    ensures Disjoint(p) && Tracked(p)
  {
  }

  /** The CAPTURE side after a reset. */
  ghost predicate CaptureReset(s: State, t: State) {
    && t.capAllocd == s.capAllocd && t.held == s.held && t.model == ResetModel()
    && (forall x :: x in t.freeCap <==>
                    0 <= x < Min(s.capAllocd, MAX_CAP) && !exists id :: s.Holds(id) && s.held[id] == x)
  }

  lemma ResetOwned(s: State, t: State)
    requires Disjoint(s) && CaptureReset(s, t)
    ensures Disjoint(t) && Tracked(t)
  {
    forall id | t.Holds(id) ensures t.held[id] !in t.freeCap {
      assert s.Holds(id);
    }
    forall i, j | t.Holds(i) && t.Holds(j) && i != j ensures t.held[i] != t.held[j] {
      assert s.Holds(i) && s.Holds(j);
    }
    assert forall i :: 0 <= i < REFS ==> t.model.slots[i] == -1;
  }

  /** Same surfaces, same slots, a pool with the same elements. */
  lemma SameOwned(s: State, t: State)
    requires Disjoint(s) && Tracked(s)
    requires t.held == s.held && t.model.slots == s.model.slots && t.model.owner == s.model.owner
    requires forall x :: x in t.freeCap ==> x in s.freeCap
    ensures Disjoint(t) && Tracked(t)
  {
    assert forall id :: t.Holds(id) <==> s.Holds(id);
  }

  lemma PrepareOwned(s: State, env: EndEnv)
    requires Sound(s) && s.request && (env.streamOut ==> env.streamCap)
    ensures Disjoint(Prepare(s, env).0) && Tracked(Prepare(s, env).0)
  {
    PrepareKeeps(s, env);
    var p := Prepare(s, env).0;
    if env.paramsOk && PictureRenegotiates(s, env) {
      FreshOwned(p);
    } else {
      SameOwned(s, p);
    }
  }

  // ----- delivering the decoded buffer

  /** `buf` belongs to the picture alone: unpooled, and named by no surface but the current one. */
  ghost predicate Exclusively(s: State, buf: int) {
    && s.current.Some? && s.current.value in s.held && s.current.value in s.targets
    && 0 <= buf < Min(s.capAllocd, MAX_CAP) && buf !in s.freeCap
    && (s.Holds(s.current.value) ==> s.held[s.current.value] == buf)
    && (forall id :: s.Holds(id) && id != s.current.value ==> s.held[id] != buf)
    && (buf in s.model.slots ==> s.Holds(s.current.value))
  }

  /** Refresh mask zero: the buffer leaves the surface for the pool. */
  lemma ZeroMaskOwned(s: State, u: State, buf: int)
    requires Disjoint(s) && Tracked(s) && Exclusively(s, buf) && s.held[s.current.value] == buf
    requires forall x :: x in u.freeCap <==> x in s.freeCap || x == buf
    requires u == s.(freeCap := u.freeCap, held := s.held[s.current.value := -1],
                     model := s.model.(owner := s.model.owner[buf := VA_INVALID]))
    ensures Tracked(u) && (Disjoint(u) <==> buf !in s.model.slots)
  {
    assert forall i :: u.Holds(i) ==> s.Holds(i) && i != s.current.value && u.held[i] == s.held[i];
    if buf in s.model.slots {
      var t :| 0 <= t < REFS && s.model.slots[t] == buf;
      assert u.model.slots[t] in u.freeCap;
    }
  }

  /** A nonzero mask: the buffer is now a reference, the overwritten ones are gone from everywhere. */
  lemma RefreshOwned(s: State, u: State, buf: int)
    requires Disjoint(s) && Tracked(s) && Returned(s, u) && CapturePool(s)
    requires forall id :: s.Holds(id) ==>
               s.held[id] < MAX_CAP && (s.held[id] == buf ==> s.model.owner[buf] == id)
    requires 0 <= buf < MAX_CAP && buf in u.model.slots && buf !in s.freeCap
    requires forall t :: 0 <= t < REFS ==> u.model.slots[t] == buf || u.model.slots[t] in s.model.slots
    ensures Disjoint(u) && Tracked(u)
  {
    forall id | u.Holds(id) ensures s.Holds(id) && u.held[id] == s.held[id] && !Gone(s, u, s.held[id]) {
      assert id in s.held;
      assert s.Holds(id) && s.held[id] in s.model.slots ==> s.model.owner[s.held[id]] == id;
    }
    forall t | 0 <= t < REFS && u.model.slots[t] >= 0 ensures u.model.slots[t] !in u.freeCap {
      var x := u.model.slots[t];
      assert x in u.model.slots;
      assert !Gone(s, u, x);
      if x != buf {
        var i :| 0 <= i < REFS && s.model.slots[i] == x;
      }
    }
    forall id | u.Holds(id) && u.held[id] < MAX_CAP && u.held[id] in u.model.slots
      ensures u.model.owner[u.held[id]] == id
    {
      assert s.Holds(id);
    }
  }

  lemma ReleaseOwned(s: State, buf: int, mask: Mask)
    requires Disjoint(s) && Tracked(s) && CapturePool(s) && SlotsLive(s) && Registered(s)
    requires Exclusively(s, buf) && s.held[s.current.value] == buf
    ensures var u := ReleaseUnreferenced(s, s.current.value, buf, mask);
            Tracked(u) && (Disjoint(u) <==> !(mask == 0 && buf in s.model.slots))
  {
    hide ReleaseUnreferenced, Returned;
    var id := s.current.value;
    assert SlotsInRange(s);
    ReleaseExact(s, id, buf, mask);
    var u := ReleaseUnreferenced(s, id, buf, mask);
    if mask == 0 {
      ZeroMaskOwned(s, u, buf);
    } else {
      SomeBit(mask);
      var t :| 0 <= t < REFS && Bit(mask, t);
      assert u.model.slots[t] == buf;
      SameHolders(s, s.(model := s.model.(owner := s.model.owner[buf := id])));
      RefreshOwned(s.(model := s.model.(owner := s.model.owner[buf := id])), u, buf);
    }
  }

  lemma SameHolders(s: State, s1: State)
    requires s1.held == s.held
    ensures forall i :: s1.Holds(i) <==> s.Holds(i)
  {
  }

  /** The CAPTURE side without the clause on the current surface, which is busy while delivering. */
  ghost predicate CaptureSide'(s: State) {
    CapturePool(s) && Registered(s) && SlotsLive(s)
  }

  lemma HeldOwned(s: State, buf: int)
    requires CaptureSide'(s) && Disjoint(s) && Tracked(s) && Exclusively(s, buf)
    ensures var u := s.SetHeld(s.current.value, buf);
            CaptureSide'(u) && Disjoint(u) && Tracked(u) && Exclusively(u, buf)
  {
    var id := s.current.value;
    var u := s.SetHeld(id, buf);
    assert forall i :: u.Holds(i) <==> s.Holds(i) || i == id;
    assert s.Holds(id) ==> s.held[id] == buf;
  }

  /** A buffer the picture owns reaches its surface; ownership stays disjoint unless the pull of a
    * claimed buffer fails or a zero mask returns a referenced one. */
  lemma DeliverOwned(s: State, buf: int, env: EndEnv)
    requires CaptureSide'(s) && Disjoint(s) && Tracked(s) && Exclusively(s, buf)
    ensures var u := Deliver(s, buf, env);
            && Tracked(u)
            && (Disjoint(u) <==>
                  if PullWorks(s, buf, env.copyOutOk)
                  then !(s.cfg.codec.AV1? && s.model.active && env.mask == 0 && buf in s.model.slots)
                  else !s.Holds(s.current.value))
  {
    var id := s.current.value;
    if !PullWorks(s, buf, env.copyOutOk) {
      PushCapKeeps(s, buf);
      var u := s.PushCap(buf);
      assert forall i :: u.Holds(i) <==> s.Holds(i);
      if s.Holds(id) {
        assert u.held[id] in u.freeCap;
      }
    } else {
      HeldOwned(s, buf);
      if s.cfg.codec.AV1? && s.model.active {
        ReleaseOwned(s.SetHeld(id, buf), buf, env.mask);
      }
    }
  }

  // ----- the end of a picture

  lemma ChosenExclusively(p: State, t: State)
    requires CaptureSide(p) && Disjoint(p) && p.current.Some? && ChooseCapture(p).Some?
    requires SameOwners(p, t) && t.model == p.model && t.freeCap == Rest(p)
    ensures Exclusively(t, Chosen(p)) && (t.Holds(t.current.value) <==> p.Claimed())
  {
    ChosenInRange(p);
    var cap := Chosen(p);
    if p.Claimed() {
      assert p.Holds(p.current.value);
      assert p.held[p.current.value] !in p.freeCap;
    } else {
      assert cap in p.freeCap;
      forall i | 0 <= i < REFS ensures p.model.slots[i] != cap {}
    }
    assert forall i :: t.Holds(i) <==> p.Holds(i);
  }

  /** Giving the chosen index back is harmless without a claim and fatal with one. */
  lemma GaveBackOwned(p: State, t: State)
    requires CaptureSide(p) && Disjoint(p) && Tracked(p) && SameOwners(p, t) && GaveBack(p, t)
    ensures Tracked(t) && (Disjoint(t) <==> !p.Claimed())
  {
    assert forall i :: t.Holds(i) <==> p.Holds(i);
    if p.Claimed() {
      ChosenInRange(p);
      PushCapKeeps(p, Chosen(p));
      assert t.Holds(t.current.value) && t.held[t.current.value] in t.freeCap;
    } else if ChooseCapture(p).Some? {
      GiveBackRestores(p);
    }
  }

  /** The current surface is irrelevant to ownership. */
  lemma CurrentIrrelevant(s: State, t: State)
    requires t == s.(current := t.current, request := t.request)
    ensures (Disjoint(t) <==> Disjoint(s)) && (Tracked(t) <==> Tracked(s))
  {
    assert forall i :: t.Holds(i) <==> s.Holds(i);
  }

  /** From a ready picture to its end: ownership survives exactly when no claimed index is recycled. */
  lemma FinishOwned(p: State, out: int, mask: Mask, env: EndEnv)
    requires Ready(p, out) && Disjoint(p) && Tracked(p) && p.current.Some?
    ensures var (t, r) := DecodeSubmit(p, out, mask, env.submit);
            Tracked(Conclude(t, r, env)) && (Disjoint(Conclude(t, r, env)) <==> !Recycles(p, env))
  {
    hide DecodeSubmit, Deliver;
    SubmitAccounted(p, out, mask, env.submit);
    var (t, r) := DecodeSubmit(p, out, mask, env.submit);
    var u := Conclude(t, r, env);
    if ChooseCapture(p).Some? {
      SubmitBranch(p, out, mask, env.submit);
    }
    if r >= 0 {
      ChosenInRange(p);
      ChosenExclusively(p, t);
      SameOwned(p, t);
      DeliverOwned(t, r, env);
      CurrentIrrelevant(Deliver(t, r, env), u);
    } else {
      if t.streamed {
        GaveBackOwned(p, t);
      } else {
        ResetOwned(p, t);
      }
      CurrentIrrelevant(t, u);
    }
  }

  /** Which exit decode_submit takes, in terms of the ioctl outcomes. */
  lemma SubmitBranch(p: State, out: int, mask: Mask, env: SubmitEnv)
    requires Ready(p, out) && ChooseCapture(p).Some?
    ensures var (t, r) := DecodeSubmit(p, out, mask, env);
            var queued := env.qbufOut && env.qbufCap;
            var done := env.submitted && env.polled && env.dqCap == Some(Chosen(p));
            && (r >= 0 <==> queued && done && !env.capError)
            && (r == -2 <==> queued && done && env.capError)
            && (t.streamed <==> !queued || done)
  {
    ChosenInRange(p);
  }

  lemma EndOwned(s: State, env: EndEnv)
    requires Sound(s) && (env.streamOut ==> env.streamCap)
    ensures Tracked(EndPicture(s, env)) && (Disjoint(EndPicture(s, env)) <==> Clean(s, End(env)))
  {
    hide Prepare, DecodeSubmit, Conclude, Recycles;
    if s.current.Some? && s.request {
      PrepareKeeps(s, env);
      PrepareOwned(s, env);
      var (p, out) := Prepare(s, env);
      if out.None? {
        CurrentIrrelevant(p, FailPicture(p));
      } else {
        CleanPrepared(s, env);
        FinishOwned(p, out.value, SubmittedMask(s, env), env);
      }
    } else {
      CurrentIrrelevant(s, EndPicture(s, env));
    }
  }

  // ----- the other entry points

  lemma BeginOwned(s: State, id: nat, allocOk: bool)
    requires Sound(s)
    ensures Disjoint(BeginPicture(s, id, allocOk)) && Tracked(BeginPicture(s, id, allocOk))
  {
    var t := BeginPicture(s, id, allocOk);
    if s.Holds(id) && !s.cfg.expbuf {
      PushCapKeeps(s, s.held[id]);
      assert forall i :: t.Holds(i) <==> s.Holds(i) && i != id;
      assert !s.model.active ==> forall i :: 0 <= i < REFS ==> s.model.slots[i] < 0;
    } else {
      CurrentIrrelevant(s, t);
    }
  }

  lemma DestroyOwned(s: State, id: nat)
    requires Sound(s)
    ensures Disjoint(DestroySurface(s, id)) && Tracked(DestroySurface(s, id))
  {
    if id in s.held {
      var t := DestroySurface(s, id);
      if s.Holds(id) {
        PushCapKeeps(s, s.held[id]);
      }
      assert forall i :: t.Holds(i) <==> s.Holds(i) && i != id;
      assert !s.model.active ==> forall i :: 0 <= i < REFS ==> s.model.slots[i] < 0;
    }
  }

  lemma CreateOwned(s: State, id: nat)
    requires Sound(s)
    ensures Disjoint(CreateSurface(s, id)) && Tracked(CreateSurface(s, id))
  {
    assert forall i :: CreateSurface(s, id).Holds(i) <==> s.Holds(i);
  }

  lemma ClaimOwned(s: State, id: nat)
    requires Sound(s) && id in s.held && !s.Holds(id) && |s.freeCap| > 0
    ensures var t := s.(freeCap := s.freeCap[..|s.freeCap| - 1]).SetHeld(id, s.freeCap[|s.freeCap| - 1]);
            Disjoint(t) && Tracked(t)
  {
    var b := s.freeCap[|s.freeCap| - 1];
    var t := s.(freeCap := s.freeCap[..|s.freeCap| - 1]).SetHeld(id, b);
    assert b in s.freeCap;
    PopElements(s.freeCap);
    assert forall i :: t.Holds(i) ==> s.Holds(i) || i == id;
    forall i | 0 <= i < REFS ensures s.model.slots[i] != b {}
  }

  lemma EnsureOwned(s: State, w: int, h: int, fourcc: nat, env: EnsureEnv)
    requires Sound(s)
    ensures Sound(EnsureCapture(s, w, h, fourcc, env).0)
  {
    hide EnsureCapture;
    EnsureKeeps(s, w, h, fourcc, env);
    var t := EnsureCapture(s, w, h, fourcc, env).0;
    if Renegotiates(s, w, h, if fourcc != 0 then fourcc else NV12) {
      FreshSlots(s, t);
      FreshOwned(t);
    }
  }

  lemma ExportOwned(s: State, id: nat, w: int, h: int, env: EnsureEnv)
    requires Sound(s) && id in s.targets
    ensures Disjoint(ExportSurface(s, id, w, h, env)) && Tracked(ExportSurface(s, id, w, h, env))
  {
    hide EnsureCapture, Basic;
    if id in s.held && s.cfg.expbuf && s.held[id] < 0 {
      var w' := if s.geo.width > 0 then s.geo.width else w;
      var h' := if s.geo.height > 0 then s.geo.height else h;
      EnsureKeeps(s, w', h', s.geo.fourcc, env);
      EnsureOwned(s, w', h', s.geo.fourcc, env);
      var (s1, ok) := EnsureCapture(s, w', h', s.geo.fourcc, env);
      if ok && !s1.Holds(id) && |s1.freeCap| > 0 {
        ClaimOwned(s1, id);
      }
    }
  }

  /** Main result, one step: starting from disjoint ownership, the step keeps it if and only if it is
    * clean, that is, unless a picture recycles the index its surface has claimed. */
  lemma StepOwned(s: State, e: Event)
    requires Sound(s) && Admissible(s, e)
    ensures Basic(Step(s, e)) && Tracked(Step(s, e))
    ensures Disjoint(Step(s, e)) <==> Clean(s, e)
  {
    StepKeeps(s, e);
    match e
    case Create(id) => CreateOwned(s, id);
    case Destroy(id) => DestroyOwned(s, id);
    case Begin(id, allocOk) => BeginOwned(s, id, allocOk);
    case End(env) => EndOwned(s, env);
    case Export(id, w, h, env) => ExportOwned(s, id, w, h, env);
  }

  // ----- whole runs

  ghost predicate CleanRun(s: State, es: seq<Event>)
    decreases |es|
  {
    es == [] || (Clean(s, es[0]) && CleanRun(Step(s, es[0]), es[1..]))
  }

  /** Ownership is disjoint after every prefix of the run. */
  ghost predicate DisjointThroughout(s: State, es: seq<Event>)
    decreases |es|
  {
    Disjoint(s) && (es == [] || DisjointThroughout(Step(s, es[0]), es[1..]))
  }

  /** Main result, whole runs, both modes: ownership stays disjoint throughout a run if and only if no
    * step of the run recycles a claimed index. */
  lemma {:induction false} RunOwned(s: State, es: seq<Event>)
    requires Sound(s) && AdmissibleRun(s, es)
    ensures DisjointThroughout(s, es) <==> CleanRun(s, es)
    ensures CleanRun(s, es) ==> Sound(Run(s, es))
    decreases |es|
  {
    if es != [] {
      StepOwned(s, es[0]);
      if Clean(s, es[0]) {
        RunOwned(Step(s, es[0]), es[1..]);
      } else {
        assert !Disjoint(Step(s, es[0]));
      }
    }
  }

  /** The mode never changes. */
  lemma StepConfig(s: State, e: Event)
    requires Sound(s) && Admissible(s, e)
    ensures Step(s, e).cfg == s.cfg
  {
    hide EnsureCapture, Prepare, DecodeSubmit, Deliver;
    match e
    case Create(_) =>
    case Destroy(_) =>
    case Begin(_, _) =>
    case End(env) =>
      if s.current.Some? && s.request {
        PrepareKeeps(s, env);
        var (p, out) := Prepare(s, env);
        if out.Some? {
          SubmitAccounted(p, out.value, SubmittedMask(s, env), env.submit);
          var (t, r) := DecodeSubmit(p, out.value, SubmittedMask(s, env), env.submit);
          if r >= 0 {
            ChosenInRange(p);
            DeliverConfig(t, r, env);
          }
        }
      }
    case Export(id, w, h, env) =>
      var w' := if s.geo.width > 0 then s.geo.width else w;
      var h' := if s.geo.height > 0 then s.geo.height else h;
      EnsureKeeps(s, w', h', s.geo.fourcc, env);
  }

  lemma DeliverConfig(s: State, buf: int, env: EndEnv)
    requires Basic(s) && 0 <= buf < Min(s.capAllocd, MAX_CAP)
    ensures Deliver(s, buf, env).cfg == s.cfg
  {
    if s.current.Some? && PullWorks(s, buf, env.copyOutOk) && s.cfg.codec.AV1? && s.model.active {
      var s1 := s.SetHeld(s.current.value, buf);
      assert SlotsInRange(s1);
      ReleaseExact(s1, s.current.value, buf, env.mask);
    }
  }

  /** Main result for the copying mode: with EXPBUF off every admissible run, with arbitrary ioctl
    * failures, keeps ownership disjoint. */
  lemma {:induction false} CopyModeOwned(s: State, es: seq<Event>)
    requires Sound(s) && !s.cfg.expbuf && AdmissibleRun(s, es)
    ensures Sound(Run(s, es)) && DisjointThroughout(s, es)
    decreases |es|
  {
    if es != [] {
      var e := es[0];
      assert Clean(s, e);
      StepOwned(s, e);
      StepConfig(s, e);
      CopyModeOwned(Step(s, e), es[1..]);
    }
  }
}
