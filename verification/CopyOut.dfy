/** Where the capture buffers of an AV1 context are between two pictures, exactly, with EXPBUF off: in the
  * pool, in a reference slot, or in a debt whose every change is given here. */
module CopyOut {
  import opened Wrappers
  import opened Pools
  import opened V4l2Kernel
  import opened Bridge
  import opened Ownership
  import opened Submit
  import opened SlotRelease
  import opened Invariant
  import opened Exclusive
  import opened Picture
  import opened MaskBits

  ghost predicate CopyMode(s: State) {
    Sound(s) && !s.cfg.expbuf && s.cfg.codec.AV1?
  }

  /** The indices that can be mapped and copied out. */
  function Usable(s: State): nat {
    Min(s.capAllocd, NUM_CAP)
  }

  /** The usable indices that are not in the pool. */
  ghost function Away(s: State): set<int> {
    set x | x in Upto(Usable(s)) && x !in s.freeCap
  }

  /** The usable indices in reference slots. */
  ghost function InSlots(s: State): set<int> {
    set x | x in Upto(Usable(s)) && x in s.model.slots
  }

  /** The debt: the usable indices in neither place. */
  ghost function Loose(s: State): set<int> {
    set x | x in Upto(Usable(s)) && x !in s.freeCap && x !in s.model.slots
  }

  /** The indices surfaces hold. */
  ghost function HeldSet(s: State): set<int> {
    set id | id in s.held && s.held[id] >= 0 :: s.held[id]
  }

  /** The usable indices that are in no place at all. */
  ghost function Lost(s: State): set<int> {
    Loose(s) - HeldSet(s)
  }

  lemma LooseIs(s: State, x: int)
    ensures x in Loose(s) <==> 0 <= x < Usable(s) && x !in s.freeCap && x !in s.model.slots
    ensures x in Away(s) <==> 0 <= x < Usable(s) && x !in s.freeCap
    ensures x in InSlots(s) <==> 0 <= x < Usable(s) && x in s.model.slots
  {
    if 0 <= x < Usable(s) { assert Upto(Usable(s))[x] == x; }
  }

  lemma HeldIs(s: State, x: int)
    ensures x in HeldSet(s) <==> exists id :: s.Holds(id) && s.held[id] == x
  {
    if id :| s.Holds(id) && s.held[id] == x { assert s.held[id] in HeldSet(s); }
  }

  // ----- counting

  ghost function SlotPrefix(slots: Slots, n: nat): set<int>
    requires n <= REFS
  {
    set x | x in slots[..n]
  }

  lemma {:induction false} SlotPrefixSize(slots: Slots, n: nat)
    requires n <= REFS
    ensures |SlotPrefix(slots, n)| <= n
  {
    if n == 0 {
      assert SlotPrefix(slots, 0) == {};
    } else {
      SlotPrefixSize(slots, n - 1);
      assert slots[..n] == slots[..n - 1] + [slots[n - 1]];
      assert SlotPrefix(slots, n) == SlotPrefix(slots, n - 1) + {slots[n - 1]};
    }
  }

  /** Away from the pool are exactly the usable slot buffers, at most eight, and the debt. */
  lemma AwaySplits(s: State)
    requires Disjoint(s)
    ensures Away(s) == InSlots(s) + Loose(s) && InSlots(s) !! Loose(s)
    ensures |Away(s)| == |InSlots(s)| + |Loose(s)| && |InSlots(s)| <= REFS
  {
    forall x ensures x in Away(s) <==> x in InSlots(s) || x in Loose(s) {
      LooseIs(s, x);
      if x in s.model.slots && x >= 0 {
        var t :| 0 <= t < REFS && s.model.slots[t] == x;
        assert x !in s.freeCap;
      }
    }
    SlotPrefixSize(s.model.slots, REFS);
    assert s.model.slots[..REFS] == s.model.slots;
    SubsetSize(InSlots(s), SlotPrefix(s.model.slots, REFS));
  }

  /** A pool with more usable indices than are away is not empty. */
  lemma NeverStarves(s: State)
    requires CapturePool(s) && Usable(s) > |Away(s)|
    ensures |s.freeCap| > 0
  {
    NoDupSize(Upto(Usable(s)));
    NoDupSize(s.freeCap);
    forall x | x in Elements(Upto(Usable(s))) ensures x in Away(s) + Elements(s.freeCap) { LooseIs(s, x); }
    SubsetSize(Elements(Upto(Usable(s))), Away(s) + Elements(s.freeCap));
  }

  // ----- what an event does

  /** The renegotiation of this picture stops after clearing the surfaces. */
  predicate StopsShort(s: State, env: EndEnv) {
    PictureRenegotiates(s, env) && Stuck(s, env.ensure)
  }

  /** The indices a reset leaves with the surfaces. */
  ghost function Kept(s: State): set<int> {
    set x | x in HeldSet(s) && x < Usable(s)
  }

  /** The picture is delivered to its surface without entering the slot model. */
  predicate DeliversUnarmed(s: State, env: EndEnv) {
    Delivers(s, env) && !ArmedFor(s, env)
  }

  /** The debt after a picture: a renegotiation clears it, or turns everything away into debt when it stops
    * short; a reset leaves what the surfaces hold; an unarmed delivery adds its buffer. */
  ghost function PictureDebt(s: State, env: EndEnv, H: set<int>): set<int> {
    if StopsShort(s, env) then Away(s) else
    var base := if PictureRenegotiates(s, env) then {} else if Resets(s, env) then Kept(s) else H;
    if DeliversUnarmed(s, env) then base + {Pick(s, env)} else base
  }

  /** The debt after an event. Giving a surface up returns its buffer unless the slot model is armed. */
  ghost function Debt(s: State, e: Event, H: set<int>): set<int> {
    match e
    case Begin(id, _) => if s.Holds(id) && !s.model.active then H - {s.held[id]} else H
    case Destroy(id) => if s.Holds(id) && !s.model.active then H - {s.held[id]} else H
    case End(env) => if s.current.Some? && s.request then PictureDebt(s, env, H) else H
    case _ => H
  }

  /** Surface `id` has the only place of its buffer, and the armed model would not take it. */
  ghost predicate Strands(s: State, id: nat) {
    s.Holds(id) && s.model.active && s.held[id] < Usable(s) && s.held[id] !in s.model.slots
  }

  /** The indices in no place after an event. A renegotiation that goes through and a reset find them again. */
  ghost function Missing(s: State, e: Event, L: set<int>): set<int> {
    match e
    case Begin(id, _) => if Strands(s, id) then L + {s.held[id]} else L
    case Destroy(id) => if Strands(s, id) then L + {s.held[id]} else L
    case End(env) =>
      if s.current.None? || !s.request then L
      else if StopsShort(s, env) then Away(s)
      else if PictureRenegotiates(s, env) || Resets(s, env) then {}
      else L
    case _ => L
  }

  /** Both bookkeepings at once: the debt and the lost indices of `t` are these. */
  ghost predicate Books(t: State, H: set<int>, L: set<int>) {
    Loose(t) == H && Lost(t) == L
  }

  /** The same places: nothing changes. */
  lemma SameBooks(s: State, t: State)
    requires t.capAllocd == s.capAllocd && t.held == s.held && t.model.slots == s.model.slots
    requires forall x :: x in t.freeCap <==> x in s.freeCap
    ensures Books(t, Loose(s), Lost(s))
  {
    forall x ensures x in Loose(t) <==> x in Loose(s) {
      LooseIs(t, x);
      LooseIs(s, x);
    }
    assert HeldSet(t) == HeldSet(s);
  }

  // ----- surfaces given up

  /** Surface `id` holds nothing any more; `back`: its buffer went to the pool. */
  lemma GivenUpBooks(s: State, t: State, id: nat, back: bool)
    requires CopyMode(s) && s.Holds(id) && back == !s.model.active
    requires t.capAllocd == s.capAllocd && t.model.slots == s.model.slots
    requires forall x :: x in t.freeCap <==> x in s.freeCap || (back && x == s.held[id])
    requires forall i :: t.Holds(i) <==> s.Holds(i) && i != id
    requires forall i :: t.Holds(i) ==> t.held[i] == s.held[i]
    ensures Books(t, if back then Loose(s) - {s.held[id]} else Loose(s),
                  if Strands(s, id) then Lost(s) + {s.held[id]} else Lost(s))
  {
    var b := s.held[id];
    forall x ensures x in Loose(t) <==> x in Loose(s) && !(back && x == b) {
      LooseIs(s, x);
      LooseIs(t, x);
    }
    forall x ensures x in HeldSet(t) <==> x in HeldSet(s) && x != b {
      HeldIs(s, x);
      HeldIs(t, x);
      if x in HeldSet(s) && x != b {
        var i :| s.Holds(i) && s.held[i] == x;
        assert t.Holds(i);
      }
    }
    HeldIs(s, b);
    LooseIs(s, b);
  }

  lemma BeginBooks(s: State, id: nat, allocOk: bool)
    requires CopyMode(s)
    ensures Books(BeginPicture(s, id, allocOk), Debt(s, Begin(id, allocOk), Loose(s)),
                  Missing(s, Begin(id, allocOk), Lost(s)))
  {
    hide Books;
    var t := BeginPicture(s, id, allocOk);
    if s.Holds(id) {
      PushCapKeeps(s, s.held[id]);
      GivenUpBooks(s, t, id, !s.model.active);
    } else {
      SameBooks(s, t);
    }
  }

  lemma DestroyBooks(s: State, id: nat)
    requires CopyMode(s)
    ensures Books(DestroySurface(s, id), Debt(s, Destroy(id), Loose(s)), Missing(s, Destroy(id), Lost(s)))
  {
    hide Books;
    var t := DestroySurface(s, id);
    if s.Holds(id) {
      PushCapKeeps(s, s.held[id]);
      GivenUpBooks(s, t, id, !s.model.active);
    } else if id in s.held {
      IdleBooks(s, t, id);
    } else {
      SameBooks(s, t);
    }
  }

  /** A surface without a buffer comes or goes. */
  lemma IdleBooks(s: State, t: State, id: nat)
    requires t.capAllocd == s.capAllocd && t.freeCap == s.freeCap && t.model.slots == s.model.slots
    requires !s.Holds(id) && !t.Holds(id)
    requires forall i :: i != id ==> (i in t.held <==> i in s.held) && (i in s.held ==> t.held[i] == s.held[i])
    ensures Books(t, Loose(s), Lost(s))
  {
    forall x ensures x in Loose(t) <==> x in Loose(s) {
      LooseIs(t, x);
      LooseIs(s, x);
    }
    forall x ensures x in HeldSet(t) <==> x in HeldSet(s) {
      HeldIs(s, x);
      HeldIs(t, x);
      if i :| s.Holds(i) && s.held[i] == x { assert t.Holds(i); }
      if i :| t.Holds(i) && t.held[i] == x { assert s.Holds(i); }
    }
  }

  // ----- pictures

  /** The prepared picture. */
  lemma PrepareBooks(s: State, env: EndEnv)
    requires CopyMode(s) && s.request && (env.streamOut ==> env.streamCap)
    ensures var p := Prepare(s, env).0;
            if StopsShort(s, env) then Books(p, Away(s), Away(s))
            else if PictureRenegotiates(s, env) then Books(p, {}, {}) else Books(p, Loose(s), Lost(s))
  {
    hide Prepare, Basic, Books;
    PrepareKeeps(s, env);
    var p := Prepare(s, env).0;
    if PictureRenegotiates(s, env) {
      FreshBooks(s, env, p);
    } else {
      SameBooks(s, p);
    }
  }

  lemma FreshBooks(s: State, env: EndEnv, p: State)
    requires PictureRenegotiates(s, env) && FreshCapture(p)
    requires p.freeCap == PoolOf(s, env) && p.capAllocd == CapturesOf(s, env)
    ensures if StopsShort(s, env) then Books(p, Away(s), Away(s)) else Books(p, {}, {})
  {
    forall x ensures x in Loose(p) <==> StopsShort(s, env) && x in Away(s) {
      LooseIs(p, x);
      LooseIs(s, x);
      if !StopsShort(s, env) && 0 <= x < Usable(p) { assert p.freeCap[x] == x; }
      assert x >= 0 ==> x !in p.model.slots;
    }
    forall x ensures x !in HeldSet(p) { HeldIs(p, x); }
  }

  /** After a reset everything but what the surfaces hold is in the pool. */
  lemma ResetBooks(p: State, t: State)
    requires Registered(p) && CaptureReset(p, t)
    ensures Books(t, Kept(p), {})
  {
    forall x ensures x in Loose(t) <==> x in HeldSet(p) && x < Usable(p) {
      LooseIs(t, x);
      HeldIs(p, x);
      assert x >= 0 ==> x !in t.model.slots;
    }
    assert HeldSet(t) == HeldSet(p);
  }

  /** The decoded buffer, popped, is in the caller's hand. */
  lemma InHandBooks(p: State, t: State, r: int)
    requires CaptureSide(p) && Disjoint(p) && SameOwners(p, t) && t.model == p.model
    requires r in p.freeCap && forall x :: x in t.freeCap <==> x in p.freeCap && x != r
    ensures Loose(t) == Loose(p) + (if r < Usable(p) then {r} else {}) && HeldSet(t) == HeldSet(p)
    ensures r !in Loose(p) && r !in p.model.slots && r !in HeldSet(p)
  {
    forall i | 0 <= i < REFS ensures p.model.slots[i] != r {}
    HeldIs(p, r);
    forall x ensures x in Loose(t) <==> x in Loose(p) || (x == r && r < Usable(p)) {
      LooseIs(t, x);
      LooseIs(p, x);
    }
    LooseIs(p, r);
    assert HeldSet(t) == HeldSet(p);
  }

  /** Back to the pool. */
  lemma PushedBooks(s: State, u: State, buf: int)
    requires u.capAllocd == s.capAllocd && u.model.slots == s.model.slots
    requires forall x :: x in u.freeCap <==> x in s.freeCap || x == buf
    ensures Loose(u) == Loose(s) - {buf}
  {
    forall x ensures x in Loose(u) <==> x in Loose(s) && x != buf {
      LooseIs(u, x);
      LooseIs(s, x);
    }
  }

  /** A surface without a buffer receives one. */
  lemma HeldMore(s: State, id: nat, buf: int)
    requires id in s.held && !s.Holds(id) && buf >= 0
    ensures HeldSet(s.SetHeld(id, buf)) == HeldSet(s) + {buf}
    ensures HeldSet(s.SetHeld(id, -1)) == HeldSet(s)
  {
    var u, v := s.SetHeld(id, buf), s.SetHeld(id, -1);
    forall x ensures (x in HeldSet(u) <==> x in HeldSet(s) || x == buf) && (x in HeldSet(v) <==> x in HeldSet(s)) {
      HeldIs(u, x);
      HeldIs(v, x);
      HeldIs(s, x);
      if i :| s.Holds(i) && s.held[i] == x { assert u.Holds(i) && v.Holds(i); }
      if x == buf { assert u.Holds(id); }
      if i :| u.Holds(i) && u.held[i] == x && i != id { assert s.Holds(i); }
      if i :| v.Holds(i) && v.held[i] == x { assert s.Holds(i); }
    }
  }

  /** What the delivery of an owned buffer does to the books: unarmed it stays in the debt, held by its surface;
    * otherwise it enters the pool or a slot. */
  lemma DeliverBooks(s: State, buf: int, env: EndEnv)
    requires CaptureSide'(s) && Disjoint(s) && Tracked(s) && Exclusively(s, buf)
    requires !s.Holds(s.current.value) && s.cfg.codec.AV1?
    ensures var u := Deliver(s, buf, env);
            var stays := PullWorks(s, buf, env.copyOutOk) && !s.model.active;
            && u.capAllocd == s.capAllocd
            && Loose(u) == (if stays then Loose(s) else Loose(s) - {buf})
            && (forall x :: x in Loose(u) ==> (x in HeldSet(u) <==> x in HeldSet(s) || (stays && x == buf)))
  {
    hide ReleaseUnreferenced;
    PushCapKeeps(s, buf);
    var id := s.current.value;
    HeldMore(s, id, buf);
    if !PullWorks(s, buf, env.copyOutOk) {
      PushedBooks(s, s.PushCap(buf), buf);
    } else if !s.model.active {
      SameBooks(s.SetHeld(id, buf), s.SetHeld(id, buf));
      assert Loose(s.SetHeld(id, buf)) == Loose(s);
    } else {
      HeldOwned(s, buf);
      ReleaseBooks(s, buf, env.mask);
    }
  }

  lemma ReleaseBooks(s: State, buf: int, mask: Mask)
    requires CaptureSide'(s) && Disjoint(s) && Tracked(s) && Exclusively(s, buf)
    requires !s.Holds(s.current.value)
    ensures var u := ReleaseUnreferenced(s.SetHeld(s.current.value, buf), s.current.value, buf, mask);
            && u.capAllocd == s.capAllocd && Loose(u) == Loose(s) - {buf}
            && (forall x :: x in Loose(u) ==> (x in HeldSet(u) <==> x in HeldSet(s)))
  {
    hide ReleaseUnreferenced;
    var id := s.current.value;
    var s1 := s.SetHeld(id, buf);
    assert SlotsInRange(s1);
    ReleaseExact(s1, id, buf, mask);
    var u := ReleaseUnreferenced(s1, id, buf, mask);
    if mask == 0 {
      PushedBooks(s, u, buf);
      HeldMore(s, id, buf);
      assert u.held == s.SetHeld(id, -1).held;
      assert HeldSet(u) == HeldSet(s.SetHeld(id, -1));
    } else {
      SomeBit(mask);
      var t :| 0 <= t < REFS && Bit(mask, t);
      assert u.model.slots[t] == buf;
      RefreshBooks(s, s1.(model := s1.model.(owner := s1.model.owner[buf := id])), u, buf);
    }
  }

  /** A refresh moves the buffer into slots and the buffers it removes into the pool; everything else stays. */
  lemma RefreshBooks(s: State, s1: State, u: State, buf: int)
    requires s.current.Some? && s1.held == s.held[s.current.value := buf] && s1.capAllocd == s.capAllocd
    requires s1.freeCap == s.freeCap && s1.model.slots == s.model.slots && !s.Holds(s.current.value)
    requires Returned(s1, u) && buf in u.model.slots && SlotsInRange(s1) && buf >= 0
    requires forall t :: 0 <= t < REFS ==> u.model.slots[t] == buf || u.model.slots[t] in s.model.slots
    ensures u.capAllocd == s.capAllocd && Loose(u) == Loose(s) - {buf}
    ensures forall x :: x in Loose(u) ==> (x in HeldSet(u) <==> x in HeldSet(s))
  {
    forall x ensures x in Loose(u) <==> x in Loose(s) && x != buf {
      LooseIs(u, x);
      LooseIs(s, x);
      if x in u.model.slots {
        var t :| 0 <= t < REFS && u.model.slots[t] == x;
      }
    }
    forall x | x in Loose(u) ensures x in HeldSet(u) <==> x in HeldSet(s) {
      HeldIs(u, x);
      HeldIs(s, x);
      LooseIs(s, x);
      if i :| s.Holds(i) && s.held[i] == x {
        assert s1.held[i] == x && !Gone(s1, u, x);
        assert u.Holds(i) && u.held[i] == x;
      }
      if i :| u.Holds(i) && u.held[i] == x {
        assert i in s1.held && s1.held[i] == x && i != s.current.value;
        assert s.Holds(i);
      }
    }
  }

  /** A prepared picture that reaches decode_submit. */
  lemma FinishBooks(s: State, env: EndEnv, p: State, out: int)
    requires CopyMode(s) && s.current.Some? && s.request && (env.streamOut ==> env.streamCap) && Reaches(s, env)
    requires Prepare(s, env) == (p, Some(out))
    ensures var (t, r) := DecodeSubmit(p, out, SubmittedMask(s, env), env.submit);
            Books(Conclude(t, r, env),
                  (if Resets(s, env) then Kept(p) else Loose(p))
                  + (if DeliversUnarmed(s, env) then {Pick(s, env)} else {}),
                  if Resets(s, env) then {} else Lost(p))
  {
    hide Prepare, DecodeSubmit, Deliver, Books, Resets, Delivers, Decodes, Pick, HasCapture, ArmedFor, Reaches, Kept;
    PictureExit(s, env);
    PrepareKeeps(s, env);
    PrepareOwned(s, env);
    ExitsExclude(s, env);
    var mask := SubmittedMask(s, env);
    SubmitAccounted(p, out, mask, env.submit);
    var (t, r) := DecodeSubmit(p, out, mask, env.submit);
    var u := Conclude(t, r, env);
    if r >= 0 {
      DecodedBooks(p, t, r, env);
      SameBooks(Deliver(t, r, env), u);
      Rebook(u, Deliver(t, r, env));
    } else if t.streamed {
      if ChooseCapture(p).Some? { GiveBackRestores(p); }
      SameBooks(p, u);
      Plain(u, Loose(p), Lost(p));
    } else {
      ResetBooks(p, t);
      SameBooks(t, u);
      Rebook(u, t);
      Plain(u, Kept(p), {});
    }
  }

  lemma ExitsExclude(s: State, env: EndEnv)
    ensures Decodes(s, env) ==> !Resets(s, env)
    ensures Delivers(s, env) ==> Decodes(s, env)
  {
  }

  lemma Rebook(u: State, t: State)
    requires Books(u, Loose(t), Lost(t))
    ensures Loose(u) == Loose(t) && Lost(u) == Lost(t)
    ensures forall H, L :: Books(t, H, L) ==> Books(u, H, L)
  {
  }

  lemma Plain(u: State, H: set<int>, L: set<int>)
    requires Books(u, H, L)
    ensures Books(u, H + {}, L)
  {
    assert H + {} == H;
  }

  /** The buffer came back decoded. */
  lemma DecodedBooks(p: State, t: State, r: int, env: EndEnv)
    requires CaptureSide(p) && Disjoint(p) && Tracked(p) && p.current.Some? && ChooseCapture(p).Some?
    requires !p.cfg.expbuf && p.cfg.codec.AV1? && r == Chosen(p)
    requires Basic(t) && SameOwners(p, t) && t.model == p.model && t.freeCap == Rest(p)
    ensures var stays := PullWorks(t, r, env.copyOutOk) && !p.model.active;
            Books(Deliver(t, r, env), Loose(p) + (if stays then {r} else {}), Lost(p))
  {
    hide Deliver;
    ChosenInRange(p);
    ChosenExclusively(p, t);
    SameOwned(p, t);
    InHandBooks(p, t, r);
    DeliverBooks(t, r, env);
    var u := Deliver(t, r, env);
    var stays := PullWorks(t, r, env.copyOutOk) && !p.model.active;
    assert Loose(u) == Loose(p) + (if stays then {r} else {});
    forall x ensures x in Lost(u) <==> x in Lost(p) {
    }
  }

  /** A picture. */
  lemma EndBooks(s: State, env: EndEnv)
    requires CopyMode(s) && (env.streamOut ==> env.streamCap)
    ensures Books(EndPicture(s, env), Debt(s, End(env), Loose(s)), Missing(s, End(env), Lost(s)))
  {
    hide Prepare, DecodeSubmit, Conclude, Books, Resets, Reaches, DeliversUnarmed, Pick, StopsShort, Basic;
    if s.current.Some? && s.request {
      PrepareKeeps(s, env);
      PrepareBooks(s, env);
      var (p, out) := Prepare(s, env);
      if out.None? {
        NotReached(s, env);
        SameBooks(p, FailPicture(p));
        Rebook(FailPicture(p), p);
      } else {
        FinishBooks(s, env, p, out.value);
        ReachedBooks(s, env, p);
        KeptPrepared(s, env, p);
      }
    } else {
      SameBooks(s, EndPicture(s, env));
    }
  }

  lemma NotReached(s: State, env: EndEnv)
    requires !Reaches(s, env)
    ensures !Resets(s, env) && !DeliversUnarmed(s, env)
  {
  }

  /** A picture that reaches decode_submit has not stopped short. */
  lemma ReachedBooks(s: State, env: EndEnv, p: State)
    requires Reaches(s, env)
    requires if StopsShort(s, env) then Books(p, Away(s), Away(s))
             else if PictureRenegotiates(s, env) then Books(p, {}, {}) else Books(p, Loose(s), Lost(s))
    ensures !StopsShort(s, env)
    ensures Loose(p) == (if PictureRenegotiates(s, env) then {} else Loose(s))
    ensures Lost(p) == (if PictureRenegotiates(s, env) then {} else Lost(s))
    ensures forall H: set<int> :: H + {} == H
  {
  }

  lemma KeptPrepared(s: State, env: EndEnv, p: State)
    requires Follows(s, env, p)
    ensures Kept(p) == (if PictureRenegotiates(s, env) then {} else Kept(s))
  {
    if PictureRenegotiates(s, env) {
      forall x ensures x !in HeldSet(p) { HeldIs(p, x); }
    } else {
      assert HeldSet(p) == HeldSet(s);
    }
  }

  // ----- steps and runs

  lemma StepSound(s: State, e: Event)
    requires CopyMode(s) && Admissible(s, e)
    ensures CopyMode(Step(s, e))
  {
    StepOwned(s, e);
    StepConfig(s, e);
    assert Clean(s, e);
  }

  lemma StepBooks(s: State, e: Event)
    requires CopyMode(s) && Admissible(s, e)
    ensures Books(Step(s, e), Debt(s, e, Loose(s)), Missing(s, e, Lost(s)))
  {
    hide EndPicture, BeginPicture, DestroySurface, Sound, Books;
    match e
    case Create(id) => if id in s.held { SameBooks(s, s); } else { IdleBooks(s, CreateSurface(s, id), id); }
    case Destroy(id) => DestroyBooks(s, id);
    case Begin(id, allocOk) => BeginBooks(s, id, allocOk);
    case End(env) => EndBooks(s, env);
    case Export(id, w, h, env) => SameBooks(s, s);
  }

  /** Main result, one step: the debt after any event, on every exit, is exactly `Debt`, and the indices in no
    * place at all are exactly `Missing`. */
  lemma StepDebt(s: State, e: Event)
    requires CopyMode(s) && Admissible(s, e)
    ensures CopyMode(Step(s, e))
    ensures Loose(Step(s, e)) == Debt(s, e, Loose(s))
    ensures Lost(Step(s, e)) == Missing(s, e, Lost(s))
  {
    StepSound(s, e);
    hide Step, Debt, Missing, CopyMode, Loose, Lost;
    StepBooks(s, e);
  }

  /** The debt of a run, event by event. */
  ghost function RunDebt(s: State, es: seq<Event>, H: set<int>): set<int>
    decreases |es|
  {
    if es == [] then H else RunDebt(Step(s, es[0]), es[1..], Debt(s, es[0], H))
  }

  /** Main result on liveness, whole runs, every failure included: what is away from the pool after a run is
    * exactly the usable slot buffers, at most eight, and the run's debt. */
  lemma {:induction false} RunAway(s: State, es: seq<Event>)
    requires CopyMode(s) && AdmissibleRun(s, es)
    ensures var t := Run(s, es);
            && CopyMode(t) && Loose(t) == RunDebt(s, es, Loose(s))
            && Away(t) == InSlots(t) + RunDebt(s, es, Loose(s))
            && |Away(t)| == |InSlots(t)| + |RunDebt(s, es, Loose(s))| <= REFS + |RunDebt(s, es, Loose(s))|
    decreases |es|
  {
    hide Step, Debt, Loose, Away, InSlots;
    if es == [] {
      AwaySplits(s);
    } else {
      StepDebt(s, es[0]);
      RunAway(Step(s, es[0]), es[1..]);
    }
  }
}
