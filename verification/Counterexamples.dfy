/** Concrete inputs for the conditions under which the properties of the other modules fail. */
module Counterexamples {
  import opened Wrappers
  import opened Pools
  import opened V4l2Kernel
  import opened Bridge
  import opened Ownership
  import opened Invariant
  import opened Exclusive
  import opened CopyOut
  import OrderHint
  import Av1Slots
  import Epochs
  import RefreshRules
  import SkipMode
  import Snapshot

  /** A streaming 64x64 context between BeginPicture and EndPicture. */
  function Between(cfg: Config, held: map<nat, int>, current: nat, capAllocd: nat, freeCap: seq<int>): State {
    var n := NUM_OUT;
    State(cfg, Geometry(64, 64, 64, 64, NV12), n, Upto(n), capAllocd, freeCap, true, true,
          Surfaces(), Some(current), held, ResetModel(),
          Kernel(Queue(n, true, {}), Queue(capAllocd, true, {}), NO_REFS, false))
  }

  function Surfaces(): seq<nat> {
    [1, 2, 3, 4, 5, 6, 7, 8, 9]
  }

  /** No renegotiation, all controls accepted, and the given decode. */
  function Picture(mask: Mask, submit: SubmitEnv, copyOutOk: bool): EndEnv {
    EndEnv(true, mask, true, 64, 64, NV12,
           EnsureEnv(false, None, false, false, 0, [], None),
           true, true, true, true, submit, copyOutOk)
  }

  function Succeeding(cap: int): SubmitEnv {
    SubmitEnv(true, true, None, true, true, Some(cap), false, Some(3), None, false)
  }

  function Refusing(): SubmitEnv {
    SubmitEnv(false, true, None, true, true, None, false, None, None, false)
  }

  /** A picture of 128x128 that renegotiates with these outcomes and decodes nothing. */
  function Larger(ensure: EnsureEnv): EndEnv {
    EndEnv(true, 1, true, 128, 128, NV12, ensure, true, true, true, true, Refusing(), true)
  }

  // ----- ownership

  /** EXPBUF mode: surface 1 has claimed buffer 0 when QBUF of its bitstream fails. The failure exit
    * pools the buffer the surface still holds. */
  lemma FailedQbufPoolsAClaim()
    ensures var s := Between(Config(H264, true), map[1 := 0], 1, 1, []);
            var t := Step(s, End(Picture(0, Refusing(), true)));
            Sound(s) && t.Holds(1) && t.held[1] == 0 && 0 in t.freeCap
  {
    var s := Between(Config(H264, true), map[1 := 0], 1, 1, []);
    var env := Picture(0, Refusing(), true);
    assert 1 in s.targets;
    assert Prepare(s, env) == (s.(freeOut := s.freeOut[..3]), Some(3));
  }

  /** A surface that is not a render target of the context is invisible to the reset: its buffer is pooled
    * while it still holds it. */
  lemma ResetMissesUnregistered()
    ensures var s := Between(Config(H264, false), map[20 := 0], 1, 1, []);
            var t := DecodeReset(s);
            t.Holds(20) && t.held[20] == 0 && 0 in t.freeCap
  {
    var s := Between(Config(H264, false), map[20 := 0], 1, 1, []);
    assert ClaimedIndices(s) == {};
    assert Unclaimed(1, {}) == Unclaimed(0, {}) + [0];
  }

  // ----- conservation

  /** A larger picture while OUTPUT buffer 3 is queued: STREAMOFF hands the buffer back, the coded format already
    * covers the picture, so the queue is not requested again and nothing pools it. */
  lemma QueuedOutputLost()
    ensures var s := WithQueuedOutput();
            var env := EnsureEnv(true, Some((128, 128)), true, true, 4, [Attempt(true, 8)], Some((128, 128)));
            var (t, ok) := EnsureCapture(s, 128, 128, NV12, env);
            && Sound(s) && OutputCovered(s) && ok
            && t.outAllocd == 4 && 3 !in t.freeOut && t.kernel.out.queued == {}
  {
    var s := WithQueuedOutput();
    forall x | 0 <= x < 3 ensures x in s.freeOut { assert Upto(3)[x] == x; }
    var env := EnsureEnv(true, Some((128, 128)), true, true, 4, [Attempt(true, 8)], Some((128, 128)));
    EnsureSettled(s, 128, 128, NV12, env);
  }

  function WithQueuedOutput(): State {
    var s := Between(Config(H264, false), map[], 1, 1, [0]);
    s.(current := None, freeOut := Upto(3), kernel := s.kernel.(out := Queue(4, true, {3})))
  }

  /** Surface 1 holds the only capture buffer, surface 2 is about to be decoded. */
  function OneHeld(codec: Codec): State {
    Between(Config(codec, false), map[1 := 0, 2 := -1], 2, 1, [])
  }

  lemma OneHeldSound(codec: Codec)
    ensures Sound(OneHeld(codec)) && OneHeld(codec).Holds(1)
  {
    var s := OneHeld(codec);
    assert s.targets[0] == 1 && s.targets[1] == 2;
  }

  /** A larger picture when REQBUFS(0) of the capture queue fails: surface 1 has given buffer 0 up, and the pool
    * was not rebuilt. */
  lemma StuckLosesCapture()
    ensures var s := OneHeld(H264);
            var t := Step(s, End(Larger(EnsureEnv(false, None, true, true, 4, [Attempt(true, 8)], None))));
            && Sound(s) && s.Holds(1) && s.held[1] == 0
            && t.capAllocd == 1 && t.freeCap == [] && forall id :: !t.Holds(id)
  {
    hide EnsureCapture, Step, Basic;
    var s := OneHeld(H264);
    var ensure := EnsureEnv(false, None, true, true, 4, [Attempt(true, 8)], None);
    OneHeldSound(H264);
    EnsureSettled(s, 128, 128, NV12, ensure);
    EnsureKeeps(s, 128, 128, NV12, ensure);
    PictureFails(s, Larger(ensure));
  }

  lemma PictureFails(s: State, env: EndEnv)
    requires s.current.Some? && s.request && !s.cfg.codec.AV1? && env.paramsOk
    requires !EnsureCapture(s, env.w, env.h, env.fourcc, env.ensure).1
    ensures Step(s, End(env)) == FailPicture(EnsureCapture(s, env.w, env.h, env.fourcc, env.ensure).0)
  {
    hide EnsureCapture;
  }

  /** A larger picture whose OUTPUT queue is too small and cannot be requested again still starts streaming: the
    * one ioctl V4L2 refuses. */
  lemma StreamsWithoutOutputs()
    ensures var s := Between(Config(H264, false), map[1 := -1], 1, 1, [0]);
            var e := End(Larger(EnsureEnv(true, Some((64, 64)), true, false, 0, [Attempt(true, 8)], None)));
            Sound(s) && !s.kernel.fault && Admissible(s, e) && Step(s, e).kernel.fault
  {
    hide Step;
    var s := Between(Config(H264, false), map[1 := -1], 1, 1, [0]);
    var e := End(Larger(EnsureEnv(true, Some((64, 64)), true, false, 0, [Attempt(true, 8)], None)));
    assert s.targets[0] == 1;
    assert Sound(s);
    StepKeeps(s, e);
  }

  // ----- the AV1 copy-out

  /** An armed AV1 context: slot 0 holds buffer 0, as in the kernel, and buffer 1 is free. */
  function OneReference(): State {
    var s := Between(Config(AV1, false), map[1 := -1], 1, 2, [1]);
    var slots := NO_REFS[0 := 0];
    s.(model := s.model.(active := true, slots := slots), kernel := s.kernel.(refs := slots))
  }

  /** The next picture replaces slot 0 in the kernel but cannot be copied out: the slot table keeps buffer 0. */
  lemma RefreshMissed()
    ensures var s := OneReference();
            var e := End(Picture(1, Succeeding(1), false));
            && Sound(s) && Av1Slots.Matches(s) && Admissible(s, e)
            && Av1Slots.Missed(s, e) && !Av1Slots.Matches(Step(s, e))
  {
    hide Step;
    var s := OneReference();
    var e := End(Picture(1, Succeeding(1), false));
    assert s.targets[0] == 1;
    assert Bit(1, 0);
    assert Sound(s);
    assert s.kernel.refs[0] == 0 && s.model.slots[0] == 0;
    Av1Slots.StepMatches(s, e);
  }

  /** The model is armed while surface 1 holds a buffer no slot references. Re-targeting the surface drops the
    * only place of the buffer. */
  lemma ArmedBeginStrands()
    ensures var s := Armed(OneHeld(AV1));
            && CopyMode(s) && Lost(s) == {} && Admissible(s, Begin(1, true))
            && Lost(Step(s, Begin(1, true))) == {0}
  {
    hide Step, Sound, Lost;
    var s := Armed(OneHeld(AV1));
    ArmedSound();
    assert Lost(s) == {} by { NothingLost(s); }
    assert s.targets[0] == 1;
    StepDebt(s, Begin(1, true));
    assert Strands(s, 1);
  }

  lemma ArmedSound()
    ensures Sound(Armed(OneHeld(AV1)))
  {
    OneHeldSound(AV1);
  }

  lemma NothingLost(s: State)
    requires s.capAllocd == 1 && s.Holds(1) && s.held[1] == 0
    ensures Lost(s) == {}
  {
    forall x ensures x !in Lost(s) {
      LooseIs(s, x);
      HeldIs(s, x);
    }
  }

  function Armed(s: State): State {
    s.(model := s.model.(active := true))
  }

  /** Surfaces 1 to 8 hold buffers 0 to 7 of ten, delivered before any header was parsed. */
  function EightHeld(): State {
    Between(Config(AV1, false), HeldMap(), 9, 10, [8, 9])
  }

  function HeldMap(): (held: map<nat, int>)
    ensures forall id: nat :: id in held <==> 1 <= id <= 9
    ensures forall id: nat :: id in held ==> held[id] == if id == 9 then -1 else id - 1
  {
    assert forall i :: 0 <= i < 9 ==> Surfaces()[i] == i + 1;
    map id: nat | id in Surfaces() :: if id == 9 then -1 else id - 1
  }

  lemma EightHeldPlayable()
    ensures Epochs.Playable(EightHeld(), 9)
  {
    hide HeldMap, Surfaces;
    var s := EightHeld();
    forall id: nat | 1 <= id <= 9 ensures id in s.targets {
      assert id == (id - 1) + 1 && Surfaces()[id - 1] == id by { SurfaceAt(id - 1); }
    }
    assert forall id: nat :: s.Holds(id) <==> 1 <= id <= 8;
  }

  lemma SurfaceAt(i: nat)
    requires i < 9
    ensures |Surfaces()| == 9 && Surfaces()[i] == i + 1
  {
  }

  lemma EightKept()
    ensures |Kept(EightHeld())| == 8
  {
    hide HeldMap, Surfaces;
    var s := EightHeld();
    forall x ensures x in Kept(s) <==> x in Elements(Upto(8)) {
      HeldIs(s, x);
      if 0 <= x < 8 { assert s.Holds(x + 1) && s.held[x + 1] == x && Upto(8)[x] == x; }
    }
    assert Kept(s) == Elements(Upto(8));
    NoDupSize(Upto(8));
  }

  /** The first picture from `s` on: surface 9 is targeted and its picture enters slot 0. */
  function FirstPicture(s: State): seq<Event>
    requires |BeginPicture(s, 9, true).freeCap| > 0 && |BeginPicture(s, 9, true).freeOut| > 0
  {
    [Begin(9, true), End(Epochs.GoodPicture(BeginPicture(s, 9, true), 1))]
  }

  /** One picture after a reset of that context nine buffers are away from the pool, with the model armed from
    * its first picture on. */
  lemma ResetEpochExceedsEight()
    ensures var r := DecodeReset(EightHeld());
            && |BeginPicture(r, 9, true).freeCap| > 0 && |BeginPicture(r, 9, true).freeOut| > 0
            && Epochs.EpochRun(r, FirstPicture(r)) && |Away(Run(r, FirstPicture(r)))| == 9
  {
    hide EightHeld, DecodeReset, Epochs.EpochRun, Run, FirstPicture, Loose, Away, Kept, InSlots;
    hide Epochs.Playable, Epochs.Playing, BeginPicture;
    var s := EightHeld();
    EightHeldPlayable();
    EightKept();
    Epochs.ResetPlays(s, 9);
    ResetLoose(s);
    OnePicture(DecodeReset(s));
  }

  lemma ResetLoose(s: State)
    requires Epochs.Playable(s, 9)
    ensures Loose(DecodeReset(s)) == Kept(s)
  {
    Epochs.AfterDecodeReset(s);
  }

  lemma OnePicture(r: State)
    requires Epochs.Playing(r, 9) && |Loose(r)| == 8 && |InSlots(r)| == 0 && r.model.slots == NO_REFS
    ensures |BeginPicture(r, 9, true).freeCap| > 0 && |BeginPicture(r, 9, true).freeOut| > 0
    ensures Epochs.EpochRun(r, FirstPicture(r)) && |Away(Run(r, FirstPicture(r)))| == 9
  {
    hide BeginPicture, EndPicture, Epochs.EpochRun, Run, Epochs.GoodPicture, Loose, InSlots, Away, Epochs.Restarts;
    Epochs.Retarget(r, 9);
    var b := BeginPicture(r, 9, true);
    AwaySplits(b);
    NeverStarves(b);
    OrderHint.Pow2Widths();
    assert OrderHint.Pow2(0) == 1;
    Epochs.PlayPicture(b, 9, 0);
    var env := Epochs.GoodPicture(b, 1);
    Epochs.BeginIsQuiet(r, 9);
    ParsedPicture(b);
    Epochs.EpochPair(r, Begin(9, true), End(env));
    AwaySplits(EndPicture(b, env));
  }

  lemma ParsedPicture(b: State)
    requires |b.freeCap| > 0 && |b.freeOut| > 0
    ensures Epochs.GoodPicture(b, 1).parsed
  {
  }

  // ----- AV1 choices by order hint

  /** Three-bit order hints, current hint 3: the picture with hint 7 lies four back and the one with hint 0 three
    * back, but 0 is the lower number. */
  lemma OldestStraddles()
    ensures var sids: RefreshRules.Sids := RefreshRules.NO_SIDS[0 := 5][1 := 6];
            var d := RefreshRules.Dpb(sids, [0, 7, 0, 0, 0, 0, 0, 0],
                                      [false, false, false, false, false, false, false, false]);
            && RefreshRules.RefreshIdx(d, 3, 2, false) == Some(0)
            && OrderHint.RelativeDist(0, 3, 2) == -3 && OrderHint.RelativeDist(7, 3, 2) == -4
            && RefreshRules.Straddles(d, 3, 2, false)
  {
    OrderHint.Pow2Widths();
    var sids: RefreshRules.Sids := RefreshRules.NO_SIDS[0 := 5][1 := 6];
    var d := RefreshRules.Dpb(sids, [0, 7, 0, 0, 0, 0, 0, 0],
                              [false, false, false, false, false, false, false, false]);
    assert RefreshRules.InClass(d, 3, 2, false, 0) && RefreshRules.InClass(d, 3, 2, false, 1);
    OldestOfTwo(d);
  }

  lemma OldestOfTwo(d: RefreshRules.Dpb)
    requires RefreshRules.InClass(d, 3, 2, false, 0) && RefreshRules.InClass(d, 3, 2, false, 1)
    requires d.hints[0] == 0 && d.hints[1] == 7
    ensures RefreshRules.RefreshIdx(d, 3, 2, false) == Some(0)
  {
    var o := RefreshRules.OldestUpto(d, 3, 2, false, 8);
    assert o.Some?;
    assert d.hints[o.value] <= d.hints[0];
  }

  /** Three-bit order hints, current hint 4: reference 1 is the current picture's own time, yet it is taken as the
    * second forward reference, because hint 4 compares as earlier than hint 0. */
  lemma SkipModeWraps()
    ensures var f := WrappingFrame();
            f.Valid() && f.Known(0) && f.Known(1) && f.Dist(0) == -4 && f.Dist(1) == 0 && SkipMode.IsPair(f, 1, 2)
  {
    var f := WrappingFrame();
    WrappingDistances();
    assert SkipMode.NearestForward(f, SkipMode.REFS, 0);
    assert SkipMode.SecondForward(f, 0, SkipMode.REFS, 1);
    assert SkipMode.Ordered(0, 1, 1, 2);
  }

  function WrappingFrame(): (f: SkipMode.Frame)
    ensures f.Valid()
  {
    SkipMode.Frame(false, true, true, 4, 2, [0, 1, 8, 8, 8, 8, 8], [0, 4, 0, 0, 0, 0, 0, 0])
  }

  lemma WrappingDistances()
    ensures var f := WrappingFrame();
            && (forall j :: f.Known(j) <==> j == 0 || j == 1) && f.Dist(0) == -4 && f.Dist(1) == 0
            && OrderHint.Pow2(2) == 4
  {
    OrderHint.Pow2Widths();
    var f := WrappingFrame();
    assert f.refIdx[0] == 0 && f.refIdx[1] == 1;
    assert forall j :: 2 <= j < 7 ==> f.refIdx[j] == 8;
  }

  // ----- snapshots

  /** A decoded picture is only in the memfd when a renegotiation puts another layout on it: nobody has it. */
  lemma RelabelLosesPicture()
    ensures var s := Snapshot.Created(64, 64, true);
            var works := Snapshot.PullEnv(true, true, true, true);
            var t := Snapshot.Run(s, [Snapshot.DoPull(64, 64, works), Snapshot.DoRebind(128, 64, true, true)]);
            && t.writes == 1 && t.last == Snapshot.Memfd && Snapshot.Get(t, true, true) == Snapshot.Shows(None)
            && t.memfd == t.cpu == t.bo == None
  {
    var s := Snapshot.Created(64, 64, true);
    var works := Snapshot.PullEnv(true, true, true, true);
    var a, b := Snapshot.DoPull(64, 64, works), Snapshot.DoRebind(128, 64, true, true);
    var s1 := Snapshot.Step(s, a);
    assert [a, b][1..] == [b] && [b][1..] == [];
    assert Snapshot.Run(s1, [b]) == Snapshot.Step(s1, b);
  }
}
