/** What `av1_release_unrefd` does as a whole: the sequential slot loop against the set of buffers that
  * lose their last slot. */
module SlotRelease {
  import opened V4l2Kernel
  import opened Bridge
  import opened Ownership
  import opened MaskBits

  /** Buffer `b` is in a slot of `s` and in none of `u`: its last slot was overwritten. */
  ghost predicate Gone(s: State, u: State, b: int) {
    0 <= b < MAX_CAP && b in s.model.slots && b !in u.model.slots
  }

  ghost predicate SlotsInRange(s: State) {
    forall t :: 0 <= t < REFS ==> s.model.slots[t] < Min(s.capAllocd, MAX_CAP)
  }

  /** From `s` to `u` exactly the gone buffers were pushed, after the owner that still named them had
    * forgotten them. */
  ghost predicate Returned(s: State, u: State) {
    && CapturePool(u)
    && (forall x :: x in u.freeCap <==> x in s.freeCap || Gone(s, u, x))
    && u.held.Keys == s.held.Keys
    && (forall i :: i in s.held ==>
          u.held[i] == if Gone(s, u, s.held[i]) && s.model.owner[s.held[i]] == i then -1 else s.held[i])
    && (forall b :: 0 <= b < MAX_CAP ==>
          u.model.owner[b] == if Gone(s, u, b) then VA_INVALID else s.model.owner[b])
    && u == s.(freeCap := u.freeCap, held := u.held,
               model := SlotModel(s.model.active, u.model.slots, u.model.owner))
  }

  /** Overwriting a slot removes at most the entry it held. */
  lemma OverwriteSlots(slots: Slots, t: nat, buf: int)
    requires t < REFS
    ensures buf in slots[t := buf]
    ensures forall b :: b in slots && b != slots[t] ==> b in slots[t := buf]
    ensures forall b :: b in slots[t := buf] ==> b in slots || b == buf
  {
    assert slots[t := buf][t] == buf;
    forall b | b in slots && b != slots[t] ensures b in slots[t := buf] {
      var i :| 0 <= i < REFS && slots[i] == b;
      assert slots[t := buf][i] == b;
    }
  }

  /** The last slot of `prev` was overwritten. */
  lemma LastSlotReturns(s: State, prev: int, slots: Slots)
    requires CapturePool(s) && 0 <= prev < Min(s.capAllocd, MAX_CAP)
    requires prev in s.model.slots && prev !in slots
    requires forall b :: b in s.model.slots && b != prev ==> b in slots
    ensures Returned(s, DropIfUnreferenced(s.(model := s.model.(slots := slots)), prev))
  {
    var s1 := s.(model := s.model.(slots := slots));
    var u := DropIfUnreferenced(s1, prev);
    PushCapKeeps(s, prev);
    assert u.freeCap == s.PushCap(prev).freeCap;
    assert forall b :: Gone(s, u, b) <==> b == prev;
  }

  /** One overwritten slot. */
  lemma DropReturns(s: State, t: nat, buf: int)
    requires t < REFS
    requires CapturePool(s) && SlotsInRange(s) && 0 <= buf < Min(s.capAllocd, MAX_CAP)
    ensures Returned(s, OverwriteSlot(s, t, buf))
    ensures OverwriteSlot(s, t, buf).model.slots == s.model.slots[t := buf]
  {
    var prev, slots := s.model.slots[t], s.model.slots[t := buf];
    OverwriteSlots(s.model.slots, t, buf);
    if prev < 0 || prev == buf || prev in slots {
      assert forall b :: !Gone(s, s.(model := s.model.(slots := slots)), b);
    } else {
      hide Returned;
      LastSlotReturns(s, prev, slots);
    }
  }

  /** Returns compose: a buffer goes in the first step or in the rest, never in both. */
  lemma ReturnedTrans(s: State, m: State, u: State)
    requires Returned(s, m) && Returned(m, u)
    requires forall b :: b in u.model.slots ==> b in m.model.slots
    requires forall b :: b in m.model.slots ==> b in s.model.slots || b in u.model.slots
    ensures Returned(s, u)
  {
    forall b ensures Gone(s, u, b) <==> Gone(s, m, b) || Gone(m, u, b) {}
    forall b ensures !(Gone(s, m, b) && Gone(m, u, b)) {}
  }

  lemma ReturnedSelf(s: State)
    requires CapturePool(s)
    ensures Returned(s, s)
  {
  }

  lemma ReturnedPool(s: State, m: State)
    requires Returned(s, m)
    ensures CapturePool(m) && m.capAllocd == s.capAllocd
  {
  }

  /** The slot loop from `t` on is the parallel refresh of those slots, and it returns exactly the
    * buffers that refresh removes. */
  lemma {:induction false} ReleaseFromReturns(s: State, buf: int, mask: Mask, t: nat)
    requires t <= REFS
    requires CapturePool(s) && SlotsInRange(s) && 0 <= buf < Min(s.capAllocd, MAX_CAP)
    ensures Returned(s, ReleaseFrom(s, buf, mask, t))
    ensures forall i :: 0 <= i < REFS ==>
              ReleaseFrom(s, buf, mask, t).model.slots[i]
              == if t <= i && Bit(mask, i) then buf else s.model.slots[i]
    decreases REFS - t
  {
    hide Returned;
    if t == REFS {
      ReturnedSelf(s);
    } else if !Bit(mask, t) {
      ReleaseFromReturns(s, buf, mask, t + 1);
    } else {
      DropReturns(s, t, buf);
      var m := OverwriteSlot(s, t, buf);
      ReturnedPool(s, m);
      ReleaseFromReturns(m, buf, mask, t + 1);
      var u := ReleaseFrom(m, buf, mask, t + 1);
      assert m.model.slots[t] == buf && u.model.slots[t] == buf;
      forall b | b in u.model.slots ensures b in m.model.slots {
        var i :| 0 <= i < REFS && u.model.slots[i] == b;
        assert m.model.slots[i] == b || b == buf;
      }
      forall b | b in m.model.slots ensures b in s.model.slots || b in u.model.slots {
        var i :| 0 <= i < REFS && m.model.slots[i] == b;
        assert s.model.slots[i] == b || b == buf;
      }
      ReturnedTrans(s, m, u);
    }
  }

  /** Main result: the release makes the slot table the refreshed table of section 7.20 of the AV1
    * specification and returns to the pool exactly the buffers whose last slot was overwritten - or,
    * for a mask of zero, exactly the buffer just decoded. Any surface that owned a returned buffer and
    * still names it is cleared. */
  lemma ReleaseExact(s: State, id: nat, buf: int, mask: Mask)
    requires CapturePool(s) && SlotsInRange(s) && 0 <= buf < Min(s.capAllocd, MAX_CAP)
    ensures var u := ReleaseUnreferenced(s, id, buf, mask);
            && u.model.slots == Refreshed(s.model.slots, mask, buf)
            && (mask == 0 ==>
                  && CapturePool(u) && (forall x :: x in u.freeCap <==> x in s.freeCap || x == buf)
                  && u.held == (if id in s.held then s.held[id := -1] else s.held)
                  && u == s.(freeCap := u.freeCap, held := u.held,
                             model := s.model.(owner := s.model.owner[buf := VA_INVALID])))
            && (mask != 0 ==> Returned(s.(model := s.model.(owner := s.model.owner[buf := id])), u))
  {
    if mask == 0 {
      forall t: nat ensures !Bit(mask, t) { NoBits(t); }
      assert Refreshed(s.model.slots, mask, buf) == s.model.slots;
      var s1 := if id in s.held then s.SetHeld(id, -1) else s;
      PushCapKeeps(s1.(model := s1.model.(owner := s1.model.owner[buf := VA_INVALID])), buf);
    } else {
      var s1 := s.(model := s.model.(owner := s.model.owner[buf := id]));
      ReleaseFromReturns(s1, buf, mask, 0);
      assert ReleaseFrom(s1, buf, mask, 0).model.slots == Refreshed(s.model.slots, mask, buf);
    }
  }
}
