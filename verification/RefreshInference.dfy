/** The guess of refresh_frame_flags for clients whose header cannot be parsed: a style latched at the first
  * inter picture of a GOP, and the slot rotation of SVT pyramids. */
module RefreshInference {
  import opened OrderHint
  import opened RefreshRules
  import opened Pools
  import opened MaskBits
  import V4l2Kernel

  const INTER := 1  // V4L2_AV1_INTER_FRAME; the other three frame types refresh every slot

  datatype Style = Unknown | Libaom | Svt | LibaomRtc

  /** The inference fields of the context. `gop` is a uint8_t. */
  datatype Gop = Gop(
    style: Style, gop: nat, l0Toggle: nat, l1Toggle: nat, haveFirstArf: bool, l0: Hint, prevL0: Hint, key: Hint)

  /** What the inference reads of VA's picture parameters and of the referenced surfaces. */
  datatype Picture = Picture(
    frameType: nat, show: bool, showable: bool, skip: bool, primaryRef: nat, cur: Hint, bitsMinus1: nat, d: Dpb)

  function Started(): Gop {
    Gop(Unknown, 0, 0, 0, false, 0, 0, 0)
  }

  /** A slot number as a uint8_t mask. */
  function Bit8(slot: nat): nat {
    Pow2(slot) % 256
  }

  /** r ? r : 0x01 */
  function OrFirst(mask: nat): nat {
    if mask == 0 then 1 else mask
  }

  function OccupancyMask(p: Picture): nat {
    OrFirst(MaskOf(RefreshIdx(p.d, p.cur, p.bitsMinus1, !p.show && !p.skip)))
  }

  function LibaomMask(p: Picture): nat {
    var dup := FirstDupFrom(p.d.sids, 1);
    if dup.Some? then MaskOf(dup) else OccupancyMask(p)
  }

  /** The first hidden ARF of an SVT GOP fixes the mini-GOP length. */
  function FirstArf(g: Gop, p: Picture): (nat, Gop) {
    var length := if p.cur > g.key then p.cur - g.key else if p.cur != 0 then p.cur else 8;
    (OrFirst(MaskOf(MostDupUpto(p.d.sids, p.d.hints, 8))),
     g.(haveFirstArf := true, gop := length % 256, l0 := p.cur, prevL0 := g.key, l0Toggle := 1, l1Toggle := 0))
  }

  function MiniGop(g: Gop, cur: Hint): nat {
    var length := if g.prevL0 != 0 && g.l0 > g.prevL0 then g.l0 - g.prevL0
                  else if cur > g.gop then g.gop / 2 else g.gop;
    if length < 4 then 4 else length
  }

  function RotateL0(g: Gop): (nat, Gop) {
    (Bit8(g.l0Toggle), g.(l0Toggle := (g.l0Toggle + 1) % 3))
  }

  /** A hidden picture of a long pyramid: its temporal layer selects the slot group. */
  function LayerWrite(g: Gop, cur: Hint): (nat, Gop) {
    var layer := SvtLayer(cur, MiniGop(g, cur));
    if layer == 0 then RotateL0(g)
    else if layer == 1 then (Bit8(3 + g.l1Toggle), g.(l1Toggle := if g.l1Toggle == 0 then 1 else 0))
    else if layer == 2 then (0x20, g)
    else if layer == 3 then (0x40, g)
    else (0x80, g)
  }

  /** Short pyramids go by the occupancy of the slots. */
  function ShortGopMask(p: Picture): nat {
    var most := MostDupUpto(p.d.sids, p.d.hints, 8);
    if |Referenced(p.d.sids)| == 2 && IsDup(p.d.sids, 3) then 0x08
    else if most.Some? then MaskOf(most)
    else OccupancyMask(p)
  }

  function SvtWrite(g: Gop, p: Picture): (nat, Gop) {
    if p.show then (0, g)
    else if !g.haveFirstArf then FirstArf(g, p)
    else if p.cur > g.l0 then (RotateL0(g).0, RotateL0(g).1.(prevL0 := g.l0, l0 := p.cur))
    else if g.gop >= 16 then LayerWrite(g, p.cur)
    else (ShortGopMask(p), g)
  }

  /** The current hint is already in the map: a repeat of a stored picture. */
  predicate Overlay(p: Picture) {
    exists i: Slot :: p.d.sids[i] != INVALID && p.d.hints[i] == p.cur
  }

  function Latched(g: Gop, p: Picture): Gop {
    if g.style != Unknown then g
    else if p.show then g.(style := LibaomRtc)
    else if p.showable && p.primaryRef != 7 then g.(style := Svt)
    else g.(style := Libaom)
  }

  /** The inferred mask and the new inference state. */
  function Infer(g: Gop, p: Picture): (nat, Gop) {
    if p.frameType != INTER then (0xff, Started().(key := p.cur))
    else if Overlay(p) then (0, g)
    else
      var g' := Latched(g, p);
      match g'.style
      case LibaomRtc => (Bit8(p.cur % 6), g')
      case Svt => SvtWrite(g', p)
      case _ => (LibaomMask(p), g')
  }

  function Run(g: Gop, ps: seq<Picture>): Gop
    decreases |ps|
  {
    if ps == [] then g else Run(Infer(g, ps[0]).1, ps[1..])
  }

  function Masks(g: Gop, ps: seq<Picture>): (ms: seq<nat>)
    ensures |ms| == |ps|
    decreases |ps|
  {
    if ps == [] then [] else [Infer(g, ps[0]).0] + Masks(Infer(g, ps[0]).1, ps[1..])
  }

  // ----- at most one slot

  ghost predicate TogglesOk(g: Gop) {
    g.l0Toggle < 3 && g.l1Toggle < 2
  }

  /** Mask m writes no slot, or exactly the slot s. */
  ghost predicate AtMostOneSlot(m: nat) {
    m == 0 || exists s: Slot :: m == Pow2(s)
  }

  lemma AtMostOneBit(m: nat, s: nat, t: nat)
    requires AtMostOneSlot(m) && V4l2Kernel.Bit(m, s) && V4l2Kernel.Bit(m, t)
    ensures s == t && s < 8
  {
    if m == 0 {
      NoBits(s);
    } else {
      var slot: Slot :| m == Pow2(slot);
      OneBit(slot, s);
      OneBit(slot, t);
    }
  }

  lemma SlotBits(s: Slot)
    ensures Bit8(s) == Pow2(s)
    ensures Pow2(3) == 0x08 && Pow2(5) == 0x20 && Pow2(6) == 0x40 && Pow2(7) == 0x80 && Pow2(0) == 1
  {
    assert Pow2(1) == 2 && Pow2(2) == 4 && Pow2(3) == 8 && Pow2(4) == 16;
    assert Pow2(5) == 32 && Pow2(6) == 64 && Pow2(7) == 128;
  }

  lemma OccupancyOneSlot(p: Picture)
    ensures AtMostOneSlot(OccupancyMask(p)) && AtMostOneSlot(LibaomMask(p)) && AtMostOneSlot(ShortGopMask(p))
  {
    SlotBits(0);
    assert AtMostOneSlot(1) && AtMostOneSlot(0x08);
  }

  lemma InferOneSlot(g: Gop, p: Picture)
    requires TogglesOk(g)
    ensures TogglesOk(Infer(g, p).1)
    ensures if p.frameType == INTER then AtMostOneSlot(Infer(g, p).0) else Infer(g, p).0 == 0xff
  {
    hide Pow2, OccupancyMask, LibaomMask, ShortGopMask, MostDupUpto, SvtLayer, MiniGop;
    OccupancyOneSlot(p);
    forall s: Slot ensures AtMostOneSlot(Bit8(s)) { SlotBits(s); }
    SlotBits(0);
    assert AtMostOneSlot(1) && AtMostOneSlot(0x20) && AtMostOneSlot(0x40) && AtMostOneSlot(0x80);
    assert AtMostOneSlot(Bit8(p.cur % 6));
    assert AtMostOneSlot(Bit8(3 + g.l1Toggle)) && AtMostOneSlot(Bit8(g.l0Toggle));
  }

  /** What a mask may select: at most one slot for an inter picture, all eight for any other. */
  ghost predicate Selects(p: Picture, mask: nat) {
    if p.frameType == INTER
    then forall s, t: nat :: V4l2Kernel.Bit(mask, s) && V4l2Kernel.Bit(mask, t) ==> s == t && s < 8
    else forall s: Slot :: V4l2Kernel.Bit(mask, s)
  }

  lemma InferSelects(g: Gop, p: Picture)
    requires TogglesOk(g)
    ensures TogglesOk(Infer(g, p).1) && Selects(p, Infer(g, p).0)
  {
    hide Infer, Pow2;
    InferOneSlot(g, p);
    var m := Infer(g, p).0;
    if p.frameType == INTER {
      forall s, t: nat | V4l2Kernel.Bit(m, s) && V4l2Kernel.Bit(m, t) ensures s == t && s < 8 {
        AtMostOneBit(m, s, t);
      }
    } else {
      assert Pow2(8) == 256 by { Pow2Widths(); }
      forall s: Slot ensures V4l2Kernel.Bit(m, s) { AllBits(8, s); }
    }
  }

  /** Main result on masks: in every run, as the kernel reads the mask bit by bit, an inter picture selects at most
    * one slot and any other picture all eight; the toggles stay in range. */
  lemma {:induction false} RunOneSlot(g: Gop, ps: seq<Picture>)
    requires TogglesOk(g)
    ensures TogglesOk(Run(g, ps))
    ensures forall i :: 0 <= i < |ps| ==> Selects(ps[i], Masks(g, ps)[i])
    decreases |ps|
  {
    hide Infer, Selects;
    if ps != [] {
      InferSelects(g, ps[0]);
      RunOneSlot(Infer(g, ps[0]).1, ps[1..]);
    }
  }

  // ----- duplicate slots first

  /** The mask was chosen by a rule that looks for a duplicate slot. */
  predicate DupRule(g: Gop, p: Picture) {
    p.frameType == INTER && !Overlay(p) &&
    var g' := Latched(g, p);
    match g'.style
    case LibaomRtc => false
    case Svt =>
      && !p.show && (g'.haveFirstArf ==> p.cur <= g'.l0 && g'.gop < 16)
      && (|| MostDupUpto(p.d.sids, p.d.hints, 8).Some?
          || (g'.haveFirstArf && |Referenced(p.d.sids)| == 2 && IsDup(p.d.sids, 3)))
    case _ => FirstDupFrom(p.d.sids, 1).Some?
  }

  /** Writing the new picture to the inferred slot loses no picture. */
  ghost predicate Keeps(sids: Sids, mask: nat, novel: nat) {
    exists s: Slot :: mask == Pow2(s) && Referenced(sids[s := novel]) == Referenced(sids) + {novel}
  }

  lemma KeepsAt(sids: Sids, s: Slot, novel: nat)
    requires Referenced(sids[s := novel]) == Referenced(sids) + {novel}
    ensures Keeps(sids, Pow2(s), novel)
  {
  }

  /** Main result on duplicates: whenever a duplicate-slot rule decides, the evicted picture is still held by
    * another slot, so the referenced set only grows. */
  lemma DupRuleKeeps(g: Gop, p: Picture, novel: nat)
    requires DupRule(g, p) && novel != INVALID
    ensures Keeps(p.d.sids, Infer(g, p).0, novel)
  {
    hide Referenced, Keeps, Pow2, IsDup;
    var sids := p.d.sids;
    var dup, most := FirstDupFrom(sids, 1), MostDupUpto(sids, p.d.hints, 8);
    if dup.Some? {
      DupKeeps(sids, dup.value, novel);
      KeepsAt(sids, dup.value, novel);
    }
    if most.Some? {
      MostDupKeeps(sids, p.d.hints, novel);
      KeepsAt(sids, most.value, novel);
    }
    if IsDup(sids, 3) {
      DupKeeps(sids, 3, novel);
      KeepsAt(sids, 3, novel);
      SlotBits(3);
    }
  }

  // ----- libaom pyramids fill all eight slots before losing a picture

  function LibaomSlot(p: Picture): Slot {
    var dup := FirstDupFrom(p.d.sids, 1);
    if dup.Some? then dup.value else
    var i := RefreshIdx(p.d, p.cur, p.bitsMinus1, !p.show && !p.skip);
    if i.Some? then i.value else 0
  }

  lemma LibaomSlotMask(p: Picture)
    ensures LibaomMask(p) == Pow2(LibaomSlot(p))
  {
  }

  ghost predicate Full(sids: Sids) {
    forall i: Slot :: sids[i] != INVALID
  }

  lemma {:induction false} ReferencedSize(s: seq<nat>)
    ensures |Referenced(s)| <= |s|
    ensures INVALID !in s && NoDup(s) ==> |Referenced(s)| == |s|
  {
    if s == [] {
      assert Referenced(s) == {};
    } else {
      var t, last := s[..|s| - 1], s[|s| - 1];
      ReferencedSize(t);
      ReferencedSnoc(t, last);
      assert s == t + [last];
    }
  }

  lemma ReferencedSnoc(t: seq<nat>, last: nat)
    ensures Referenced(t + [last]) == Referenced(t) + (if last == INVALID then {} else {last})
    ensures last !in t ==> last !in Referenced(t)
  {
    var s := t + [last];
    assert s[|t|] == last && forall i :: 0 <= i < |t| ==> s[i] == t[i];
    forall x | x in Referenced(t) ensures x in Referenced(s) {
      var i :| 0 <= i < |t| && t[i] == x;
      assert s[i] == x;
    }
  }

  /** Eight slots hold eight pictures exactly when none of the slots 1 to 7 is a duplicate. */
  lemma FullSize(sids: Sids)
    requires Full(sids)
    ensures |Referenced(sids)| == 8 <==> FirstDupFrom(sids, 1).None?
    ensures |Referenced(sids)| <= 8
  {
    ReferencedSize(sids);
    var dup := FirstDupFrom(sids, 1);
    if dup.None? {
      forall i, j | 0 <= i < j < 8 ensures sids[i] != sids[j] {
        assert !IsDup(sids, j) && sids[..j][i] == sids[i];
      }
    } else {
      var i := dup.value;
      var j :| 0 <= j < |sids[..i]| && sids[..i][j] == sids[i];
      var rest := sids[..i] + sids[i + 1..];
      forall x | x in Referenced(sids) ensures x in Referenced(rest) {
        var k :| 0 <= k < 8 && sids[k] == x;
        var at := if k == i then j else if k < i then k else k - 1;
        assert rest[at] == x;
      }
      forall x | x in Referenced(rest) ensures x in Referenced(sids) {
        var k :| 0 <= k < 7 && rest[k] == x;
        assert sids[if k < i then k else k + 1] == x;
      }
      assert Referenced(rest) == Referenced(sids);
      ReferencedSize(rest);
    }
  }

  /** The reference map after a picture: its surface enters every slot its mask names. */
  function Apply(sids: Sids, mask: nat, id: nat): (r: Sids)
    ensures forall s: Slot :: r[s] == if V4l2Kernel.Bit(mask, s) then id else sids[s]
  {
    seq(8, s requires 0 <= s < 8 => if V4l2Kernel.Bit(mask, s) then id else sids[s])
  }

  lemma ApplyOne(sids: Sids, s: Slot, id: nat)
    ensures Apply(sids, Pow2(s), id) == sids[s := id] && Apply(sids, 0, id) == sids
  {
    hide Pow2;
    forall t: Slot ensures V4l2Kernel.Bit(Pow2(s), t) <==> t == s { OneBit(s, t); }
    forall t: Slot ensures !V4l2Kernel.Bit(0, t) { NoBits(t); }
  }

  /** One libaom-style inter picture: a repeat of a stored picture changes nothing; otherwise, with fewer than
    * eight pictures nothing is lost, and with eight the count stays. */
  lemma LibaomStep(g: Gop, p: Picture, novel: nat)
    requires p.frameType == INTER && (Overlay(p) || Latched(g, p).style == Libaom) && Full(p.d.sids)
    requires !Overlay(p) ==> novel != INVALID && novel !in Referenced(p.d.sids)
    ensures var sids, after := p.d.sids, Apply(p.d.sids, Infer(g, p).0, novel);
            && (Overlay(p) ==> after == sids)
            && Full(after) && |Referenced(sids)| <= 8
            && (!Overlay(p) ==>
                  && |Referenced(after)| == (if |Referenced(sids)| < 8 then |Referenced(sids)| + 1 else 8)
                  && (Referenced(after) == Referenced(sids) + {novel} <==> |Referenced(sids)| < 8))
  {
    hide Referenced, Pow2, Full, LibaomSlot, Overlay;
    FullSize(p.d.sids);
    ApplyOne(p.d.sids, LibaomSlot(p), novel);
    if !Overlay(p) {
      LibaomSlotMask(p);
      LibaomWrite(p, novel);
    }
  }

  lemma LibaomWrite(p: Picture, novel: nat)
    requires Full(p.d.sids) && novel != INVALID && novel !in Referenced(p.d.sids)
    ensures var after: Sids := p.d.sids[LibaomSlot(p) := novel];
            && Full(after)
            && |Referenced(after)| == (if |Referenced(p.d.sids)| < 8 then |Referenced(p.d.sids)| + 1 else 8)
            && (Referenced(after) == Referenced(p.d.sids) + {novel} <==> |Referenced(p.d.sids)| < 8)
  {
    hide RefreshIdx;
    var sids := p.d.sids;
    var after: Sids := sids[LibaomSlot(p) := novel];
    FullSize(sids);
    if FirstDupFrom(sids, 1).Some? {
      DupKeeps(sids, LibaomSlot(p), novel);
    } else {
      Distinct(sids);
      assert forall i: Slot :: sids[i] in Referenced(sids);
      ReferencedSize(after);
      ReferencedLost(sids, LibaomSlot(p), novel);
      assert sids[LibaomSlot(p)] in Referenced(sids);
    }
  }

  lemma Distinct(sids: Sids)
    requires FirstDupFrom(sids, 1).None?
    ensures forall i, j :: 0 <= i < j < 8 ==> sids[i] != sids[j]
  {
    forall i, j | 0 <= i < j < 8 ensures sids[i] != sids[j] {
      assert !IsDup(sids, j) && sids[..j][i] == sids[i];
    }
  }

  /** Inter pictures of a libaom pyramid: the style is latched, or the first picture that writes latches it. */
  ghost predicate LibaomRun(g: Gop, ps: seq<Picture>)
    decreases |ps|
  {
    ps == [] ||
    (&& ps[0].frameType == INTER && (Overlay(ps[0]) || Latched(g, ps[0]).style == Libaom)
     && LibaomRun(Infer(g, ps[0]).1, ps[1..]))
  }

  /** Once latched, the style stays for all inter pictures. */
  lemma {:induction false} StyleStays(g: Gop, ps: seq<Picture>)
    requires g.style == Libaom && forall p :: p in ps ==> p.frameType == INTER
    ensures LibaomRun(g, ps) && Run(g, ps) == g
    decreases |ps|
  {
    hide LibaomMask, Overlay;
    if ps != [] {
      assert ps[0] in ps && Infer(g, ps[0]).1 == g;
      StyleStays(g, ps[1..]);
    }
  }

  /** The client's reference map follows the inferred masks, each written picture being a new surface. */
  ghost predicate Tracks(g: Gop, ps: seq<Picture>, ids: seq<nat>, sids: Sids)
    requires |ps| == |ids|
    decreases |ps|
  {
    ps == [] ||
    (&& ps[0].d.sids == sids && (!Overlay(ps[0]) ==> ids[0] != INVALID && ids[0] !in Referenced(sids))
     && Tracks(Infer(g, ps[0]).1, ps[1..], ids[1..], Apply(sids, Infer(g, ps[0]).0, ids[0])))
  }

  function MapAfter(g: Gop, ps: seq<Picture>, ids: seq<nat>, sids: Sids): Sids
    requires |ps| == |ids|
    decreases |ps|
  {
    if ps == [] then sids
    else MapAfter(Infer(g, ps[0]).1, ps[1..], ids[1..], Apply(sids, Infer(g, ps[0]).0, ids[0]))
  }

  /** The surfaces of the pictures that are no repeats. */
  function Written(ps: seq<Picture>, ids: seq<nat>): seq<nat>
    requires |ps| == |ids|
  {
    if ps == [] then [] else (if Overlay(ps[0]) then [] else [ids[0]]) + Written(ps[1..], ids[1..])
  }

  /** Main result on libaom pyramids: over a whole run from any full map, overlays included, every inferred mask
    * adds its picture until eight are held, and from then on exactly eight are. */
  lemma {:induction false} LibaomFills(g: Gop, ps: seq<Picture>, ids: seq<nat>, sids: Sids)
    requires |ps| == |ids| && Full(sids) && LibaomRun(g, ps) && Tracks(g, ps, ids, sids)
    ensures var n, after := |Referenced(sids)| + |Written(ps, ids)|, MapAfter(g, ps, ids, sids);
            && Full(after) && |Referenced(after)| == (if n < 8 then n else 8)
            && (n <= 8 ==> Referenced(after) == Referenced(sids) + Elements(Written(ps, ids)))
    decreases |ps|
  {
    hide Infer, Apply, Overlay, Referenced, Elements, Full, Latched;
    if ps == [] {
      assert Elements(Written(ps, ids)) == {} by { NoElements(); }
      FullSize(sids);
    } else {
      LibaomStep(g, ps[0], ids[0]);
      LibaomFills(Infer(g, ps[0]).1, ps[1..], ids[1..], Apply(sids, Infer(g, ps[0]).0, ids[0]));
      if Overlay(ps[0]) {
        assert Written(ps, ids) == Written(ps[1..], ids[1..]);
      } else {
        SetOfCons(Written(ps, ids));
        assert Written(ps, ids)[1..] == Written(ps[1..], ids[1..]);
      }
    }
  }

  /** A whole GOP: a picture that refreshes every slot fills the map with one picture, so the seven pictures
    * written next are all held along with it. */
  lemma LibaomGop(g: Gop, key: Picture, id: nat, ps: seq<Picture>, ids: seq<nat>)
    requires key.frameType != INTER && id != INVALID && |ps| == |ids|
    requires LibaomRun(Infer(g, key).1, ps)
    requires Tracks(Infer(g, key).1, ps, ids, Apply(key.d.sids, Infer(g, key).0, id))
    ensures var n, after := |Written(ps, ids)|, MapAfter(g, [key] + ps, [id] + ids, key.d.sids);
            && |Referenced(after)| == (if n < 7 then n + 1 else 8)
            && (n <= 7 ==> Referenced(after) == {id} + Elements(Written(ps, ids)))
  {
    hide Referenced, Elements, LibaomRun, Tracks, Written;
    var g1, sids := Infer(g, key).1, Apply(key.d.sids, Infer(g, key).0, id);
    KeyFills(key.d.sids, id);
    LibaomFills(g1, ps, ids, sids);
    assert ([key] + ps)[1..] == ps && ([id] + ids)[1..] == ids;
  }

  lemma KeyFills(sids: Sids, id: nat)
    requires id != INVALID
    ensures Full(Apply(sids, 0xff, id)) && Referenced(Apply(sids, 0xff, id)) == {id}
  {
    assert Pow2(8) == 256 by { Pow2Widths(); }
    forall s: Slot ensures V4l2Kernel.Bit(0xff, s) { AllBits(8, s); }
    assert Apply(sids, 0xff, id)[0] == id;
  }

  lemma NoElements()
    ensures Elements([]) == {}
  {
  }

  lemma SetOfCons(ids: seq<nat>)
    requires |ids| > 0
    ensures Elements(ids) == {ids[0]} + Elements(ids[1..])
  {
    assert ids == [ids[0]] + ids[1..];
  }

  // ----- the rotation of SVT base-layer slots

  /** Inside a long SVT GOP: the first ARF has been seen and the layer map is in use. */
  ghost predicate LongSvt(g: Gop) {
    g.style == Svt && g.haveFirstArf && g.gop >= 16 && TogglesOk(g)
  }

  /** A picture that rotates the base-layer slots 0, 1 and 2. */
  predicate WritesL0(g: Gop, p: Picture) {
    && p.frameType == INTER && !Overlay(p) && !p.show
    && (p.cur > g.l0 || SvtLayer(p.cur, MiniGop(g, p.cur)) == 0)
  }

  function L0Writes(g: Gop, ps: seq<Picture>): nat
    decreases |ps|
  {
    if ps == [] then 0
    else (if WritesL0(g, ps[0]) then 1 else 0) + L0Writes(Infer(g, ps[0]).1, ps[1..])
  }

  lemma StepRotates(g: Gop, p: Picture)
    requires LongSvt(g) && p.frameType == INTER
    ensures LongSvt(Infer(g, p).1)
    ensures Infer(g, p).1.l0Toggle == (g.l0Toggle + if WritesL0(g, p) then 1 else 0) % 3
    ensures WritesL0(g, p) ==> Infer(g, p).0 == Pow2(g.l0Toggle)
    ensures !WritesL0(g, p) ==> Infer(g, p).0 in {0, 0x08, 0x10, 0x20, 0x40, 0x80}
  {
    hide SvtLayer, MiniGop, Pow2, Overlay;
    SlotBits(g.l0Toggle);
    SlotBits(3);
    SlotBits(4);
    assert Pow2(4) == 16 by { SlotFour(); }
  }

  lemma SlotFour()
    ensures Pow2(4) == 16
  {
  }

  lemma {:induction false} RunRotates(g: Gop, ps: seq<Picture>)
    requires LongSvt(g) && forall p :: p in ps ==> p.frameType == INTER
    ensures LongSvt(Run(g, ps))
    ensures Run(g, ps).l0Toggle == (g.l0Toggle + L0Writes(g, ps)) % 3
    decreases |ps|
  {
    hide Infer, WritesL0;
    if ps != [] {
      assert ps[0] in ps;
      StepRotates(g, ps[0]);
      RunRotates(Infer(g, ps[0]).1, ps[1..]);
    }
  }

  lemma PowersDiffer(a: nat, b: nat)
    requires a < 3 && b < 3
    ensures Pow2(a) == Pow2(b) <==> a == b
  {
    assert Pow2(0) == 1 && Pow2(1) == 2 && Pow2(2) == 4;
  }

  /** Main result on the rotation: in a long SVT GOP, two base-layer pictures go to the same slot exactly when
    * a multiple of three base-layer writes lies between them - each one survives the next two. */
  lemma BaseLayerSurvives(g: Gop, p: Picture, between: seq<Picture>, q: Picture)
    requires LongSvt(g) && p.frameType == INTER && forall x :: x in between ==> x.frameType == INTER
    requires WritesL0(g, p) && WritesL0(Run(g, [p] + between), q)
    ensures Infer(Run(g, [p] + between), q).0 == Infer(g, p).0 <==> L0Writes(g, [p] + between) % 3 == 0
  {
    hide Infer, SvtLayer, MiniGop, Overlay;
    RunRotates(g, [p] + between);
    StepRotates(g, p);
    StepRotates(Run(g, [p] + between), q);
    PowersDiffer(g.l0Toggle, Run(g, [p] + between).l0Toggle);
  }

  // ----- the state of a context

  class Inference {
    var style: Style
    var gop: nat
    var l0Toggle: nat
    var l1Toggle: nat
    var haveFirstArf: bool
    var l0Oh: Hint
    var prevL0Oh: Hint
    var keyOh: Hint

    constructor ()
      ensures View() == Started()
    {
      style, gop, l0Toggle, l1Toggle := Unknown, 0, 0, 0;
      haveFirstArf, l0Oh, prevL0Oh, keyOh := false, 0, 0, 0;
    }

    ghost function View(): Gop
      reads this
    {
      Gop(style, gop, l0Toggle, l1Toggle, haveFirstArf, l0Oh, prevL0Oh, keyOh)
    }

    method Occupancy(p: Picture) returns (mask: nat)
      ensures mask == OccupancyMask(p)
    {
      mask := GetRefreshIdx(p.d, p.cur, p.bitsMinus1, !p.show && !p.skip);
      if mask == 0 {
        mask := 1;
      }
    }

    method InferLibaom(p: Picture) returns (mask: nat)
      ensures mask == LibaomMask(p)
    {
      mask := FirstDup(p.d.sids, 1);
      MaskNonzero(FirstDupFrom(p.d.sids, 1));
      if mask == 0 {
        mask := Occupancy(p);
      }
    }

    method ShortGop(p: Picture) returns (mask: nat)
      ensures mask == ShortGopMask(p)
    {
      var unique := UniqueSidCount(p.d.sids);
      if unique == 2 {
        var dup := SlotIsDup(p.d.sids, 3);
        if dup {
          return 0x08;
        }
      }
      mask := MostDupFirst(p.d.sids, p.d.hints);
      MaskNonzero(MostDupUpto(p.d.sids, p.d.hints, 8));
      if mask == 0 {
        mask := Occupancy(p);
      }
    }

    method NoteFirstArf(p: Picture) returns (mask: nat)
      modifies this
      ensures (mask, View()) == FirstArf(old(View()), p)
    {
      haveFirstArf := true;
      gop := (if p.cur > keyOh then p.cur - keyOh else if p.cur != 0 then p.cur else 8) % 256;
      l0Oh, prevL0Oh, l0Toggle, l1Toggle := p.cur, keyOh, 1, 0;
      mask := MostDupFirst(p.d.sids, p.d.hints);
      MaskNonzero(MostDupUpto(p.d.sids, p.d.hints, 8));
      if mask == 0 {
        mask := 1;
      }
    }

    method WriteLayer(cur: Hint) returns (mask: nat)
      modifies this
      ensures (mask, View()) == LayerWrite(old(View()), cur)
    {
      hide Pow2, SvtLayer;
      var g := gop;
      if prevL0Oh != 0 && l0Oh > prevL0Oh {
        g := l0Oh - prevL0Oh;
      } else if cur > gop {
        g := g / 2;
      }
      if g < 4 {
        g := 4;
      }
      var layer := TemporalLayer(cur, g);
      match layer
      case 0 =>
        mask := Bit8(l0Toggle);
        l0Toggle := (l0Toggle + 1) % 3;
      case 1 =>
        mask := Bit8(3 + l1Toggle);
        l1Toggle := if l1Toggle == 0 then 1 else 0;
      case 2 => mask := 0x20;
      case 3 => mask := 0x40;
      case _ => mask := 0x80;
    }

    method InferSvt(p: Picture) returns (mask: nat)
      modifies this
      ensures (mask, View()) == SvtWrite(old(View()), p)
    {
      hide Pow2, FirstArf, LayerWrite, ShortGopMask;
      if p.show {
        return 0;
      }
      if !haveFirstArf {
        mask := NoteFirstArf(p);
        return;
      }
      if p.cur > l0Oh {
        mask := Bit8(l0Toggle);
        prevL0Oh, l0Oh, l0Toggle := l0Oh, p.cur, (l0Toggle + 1) % 3;
        return;
      }
      if gop >= 16 {
        mask := WriteLayer(p.cur);
        return;
      }
      mask := ShortGop(p);
    }

    method InferFlags(p: Picture) returns (mask: nat)
      modifies this
      ensures (mask, View()) == Infer(old(View()), p)
    {
      hide SvtWrite, LibaomMask, Pow2;
      if p.frameType != INTER {
        style, gop, l0Toggle, l1Toggle := Unknown, 0, 0, 0;
        haveFirstArf, l0Oh, prevL0Oh, keyOh := false, 0, 0, p.cur;
        return 0xff;
      }
      for i := 0 to 8
        invariant forall k: Slot :: k < i ==> !(p.d.sids[k] != INVALID && p.d.hints[k] == p.cur)
      {
        if p.d.sids[i] != INVALID && p.d.hints[i] == p.cur {
          return 0;
        }
      }
      if style == Unknown {
        if p.show {
          style := LibaomRtc;
        } else if p.showable && p.primaryRef != 7 {
          style := Svt;
        } else {
          style := Libaom;
        }
      }
      if style == LibaomRtc {
        return Bit8(p.cur % 6);
      }
      if style == Svt {
        mask := InferSvt(p);
        return;
      }
      mask := InferLibaom(p);
    }
  }
}
