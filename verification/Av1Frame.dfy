/** From the client's slice buffers to the inputs of an AV1 picture: which buffer is decoded, where its refresh mask
  * comes from, and what the mask does to the kernel's references and the slot model. */
module Av1Frame {
  import opened Wrappers
  import opened BitReader
  import opened V4l2Kernel
  import opened Bridge
  import opened Ownership
  import opened Submit
  import opened Invariant
  import opened Picture
  import opened CopyOut
  import Delivery
  import FrameHeader
  import ObuWalk
  import OrderHint
  import RefreshInference
  import Tiles

  const MAX_SLICES := 256  // V4L2SL_MAX_SLICE_DATAS

  // ----- the buffer that is decoded

  /** The first of the largest buffers among the first n, if one of them is not empty. */
  function Largest(spans: seq<Span>, n: nat): (r: Option<nat>)
    requires n <= |spans|
    ensures r.None? ==> forall i :: 0 <= i < n ==> spans[i] == []
    ensures r.Some? ==> r.value < n && spans[r.value] != []
    ensures r.Some? ==> forall i :: 0 <= i < n ==> |spans[i]| <= |spans[r.value]|
    ensures r.Some? ==> forall i :: 0 <= i < r.value ==> |spans[i]| < |spans[r.value]|
  {
    if n == 0 then None else
    var r := Largest(spans, n - 1);
    if |spans[n - 1]| > (if r.Some? then |spans[r.value]| else 0) then Some(n - 1) else r
  }

  method FindLargest(spans: seq<Span>) returns (r: Option<nat>)
    ensures r == Largest(spans, |spans|)
  {
    r := None;
    var size := 0;
    for i := 0 to |spans|
      invariant r == Largest(spans, i) && size == if r.Some? then |spans[r.value]| else 0
    {
      if |spans[i]| > size {
        r, size := Some(i), |spans[i]|;
      }
    }
  }

  // ----- the refresh mask

  /** Buffer i is tried: the decoded one, or one of the first 256. */
  predicate Tried(spans: seq<Span>, main: nat, i: nat) {
    i < |spans| && (i == main || i < MAX_SLICES)
  }

  /** The mask of the first other buffer from `k` on that has a matching header. */
  function OtherMask(spans: seq<Span>, main: nat, k: nat, pic: ObuWalk.Pic): (r: Option<nat>)
    ensures r.None? ==> forall i: nat :: k <= i && i != main && Tried(spans, main, i) ==>
                          ObuWalk.ParseRefresh(spans[i], pic).None?
    ensures r.Some? ==> exists i: nat :: k <= i && i != main && Tried(spans, main, i)
                          && r == ObuWalk.ParseRefresh(spans[i], pic)
    decreases |spans| - k
  {
    if k >= |spans| || k >= MAX_SLICES then None
    else if k != main && ObuWalk.ParseRefresh(spans[k], pic).Some? then ObuWalk.ParseRefresh(spans[k], pic)
    else OtherMask(spans, main, k + 1, pic)
  }

  /** The parsed mask: of the decoded buffer if it has a matching header, otherwise of the first other one. */
  function FrameMask(spans: seq<Span>, main: nat, pic: ObuWalk.Pic): Option<nat>
    requires main < |spans|
  {
    var own := ObuWalk.ParseRefresh(spans[main], pic);
    if own.Some? then own else OtherMask(spans, main, 0, pic)
  }

  /** A mask is parsed if and only if one of the tried buffers has a matching header. */
  lemma FrameMaskFound(spans: seq<Span>, main: nat, pic: ObuWalk.Pic)
    requires main < |spans|
    ensures FrameMask(spans, main, pic).Some?
            <==> exists i: nat :: Tried(spans, main, i) && ObuWalk.ParseRefresh(spans[i], pic).Some?
  {
    assert Tried(spans, main, main);
  }

  /** The mask sent with the picture and the inference state after it: a guess only when nothing was parsed. */
  function SentMask(spans: seq<Span>, main: nat, pic: ObuWalk.Pic, g: RefreshInference.Gop,
                    p: RefreshInference.Picture): (nat, RefreshInference.Gop)
    requires main < |spans|
  {
    var parsed := FrameMask(spans, main, pic);
    if parsed.Some? then (parsed.value, g) else RefreshInference.Infer(g, p)
  }

  /** The choice of the mask in av1_fill_frame_params. */
  method FillMask(spans: seq<Span>, main: nat, pic: ObuWalk.Pic, p: RefreshInference.Picture,
                  inference: RefreshInference.Inference)
    returns (parsed: bool, mask: nat)
    requires main < |spans|
    modifies inference
    ensures parsed == FrameMask(spans, main, pic).Some?
    ensures (mask, inference.View()) == SentMask(spans, main, pic, old(inference.View()), p)
  {
    hide RefreshInference.Infer, ObuWalk.ParseRefresh;
    var found := ObuWalk.ParseHdrRefresh(spans[main], pic);
    var i := 0;
    while i < MAX_SLICES && i < |spans| && found.None?
      invariant 0 <= i
      invariant FrameMask(spans, main, pic) == if found.Some? then found else OtherMask(spans, main, i, pic)
      invariant inference.View() == old(inference.View())
    {
      if i != main {
        found := ObuWalk.ParseHdrRefresh(spans[i], pic);
      }
      i := i + 1;
    }
    if found.Some? {
      return true, found.value;
    }
    parsed := false;
    mask := inference.InferFlags(p);
  }

  // ----- masks are bytes

  lemma {:induction false} WalkByte(span: Span, from: nat, pic: ObuWalk.Pic)
    requires ObuWalk.Walk(span, from, pic).Some?
    ensures ObuWalk.Walk(span, from, pic).value < 256
    decreases |span| - from
  {
    hide ObuWalk.TryCandidate, ObuWalk.ObuAt;
    var (obuType, start, end) := ObuWalk.ObuAt(span, from).value;
    var d: Span := span[start..end];
    ObuWalk.TwoCandidates(d, pic);
    CandidateByte(d, 0, pic);
    CandidateByte(d, 1, pic);
    if !(ObuWalk.IsFrame(obuType) && ObuWalk.TryFrom(d, 0, pic).Some?) {
      WalkByte(span, end, pic);
    }
  }

  lemma CandidateByte(d: Span, cand: nat, pic: ObuWalk.Pic)
    ensures ObuWalk.TryCandidate(d, cand, pic).Some? ==> ObuWalk.TryCandidate(d, cand, pic).value < 256
  {
    hide FrameHeader.Parse;
  }

  lemma ParsedFrom(spans: seq<Span>, main: nat, pic: ObuWalk.Pic) returns (i: nat)
    requires main < |spans| && FrameMask(spans, main, pic).Some?
    ensures i < |spans| && FrameMask(spans, main, pic) == ObuWalk.ParseRefresh(spans[i], pic)
    ensures ObuWalk.Walk(spans[i], 0, pic) == ObuWalk.ParseRefresh(spans[i], pic)
  {
    i := main;
    if ObuWalk.ParseRefresh(spans[main], pic).None? {
      i :| 0 <= i && i != main && Tried(spans, main, i)
           && OtherMask(spans, main, 0, pic) == ObuWalk.ParseRefresh(spans[i], pic);
    }
  }

  lemma SentByte(spans: seq<Span>, main: nat, pic: ObuWalk.Pic, g: RefreshInference.Gop, p: RefreshInference.Picture)
    requires main < |spans| && RefreshInference.TogglesOk(g)
    ensures SentMask(spans, main, pic, g, p).0 < 256
  {
    hide RefreshInference.Infer;
    var parsed := FrameMask(spans, main, pic);
    if parsed.Some? {
      var i := ParsedFrom(spans, main, pic);
      WalkByte(spans[i], 0, pic);
    } else {
      RefreshInference.InferOneSlot(g, p);
      SlotByte(RefreshInference.Infer(g, p).0);
    }
  }

  lemma SlotByte(m: nat)
    requires RefreshInference.AtMostOneSlot(m) || m == 0xff
    ensures m < 256
  {
    if m != 0 && m != 0xff {
      var s: nat :| s < 8 && m == OrderHint.Pow2(s);
      OrderHint.Pow2Grows(s, 8);
      OrderHint.Pow2Widths();
      OrderHint.TimesBound(OrderHint.Pow2(8 - s), OrderHint.Pow2(s));
      assert OrderHint.Pow2(8 - s) >= 2;
    }
  }

  // ----- the inputs of the picture

  /** The frame as the client submits it. */
  datatype Frame = Frame(spans: seq<Span>, main: nat, pic: ObuWalk.Pic, p: RefreshInference.Picture,
                         tiles: seq<Tiles.Tile>, capacity: Tiles.Word)
  {
    predicate Valid() {
      main < |spans| && p.frameType == pic.frameType
    }
  }

  /** Everything fits the OUTPUT buffer: what `Tiles.SubmitTiles` accepts. */
  ghost predicate CopiesIn(f: Frame)
    requires f.Valid()
  {
    if f.tiles == [] then |f.spans[f.main]| <= f.capacity
    else Tiles.Fits(f.tiles, f.spans[f.main], f.capacity)
  }

  /** The picture's inputs come from the frame. */
  ghost predicate Carries(env: EndEnv, f: Frame, g: RefreshInference.Gop)
    requires f.Valid()
  {
    && env.parsed == FrameMask(f.spans, f.main, f.pic).Some?
    && env.mask == SentMask(f.spans, f.main, f.pic, g, f.p).0
    && (env.copyInOk ==> CopiesIn(f))
  }

  /** The methods that read the frame yield such inputs. */
  method ReadFrame(f: Frame, inference: RefreshInference.Inference, dst: array<byte>)
    returns (parsed: bool, mask: Mask, copied: Tiles.Outcome, entries: seq<Tiles.Entry>)
    requires f.Valid() && RefreshInference.TogglesOk(inference.View()) && dst.Length == f.capacity
    modifies inference, dst
    ensures forall env: EndEnv :: env.parsed == parsed && env.mask == mask && (env.copyInOk ==> copied.Accepted?) ==>
              Carries(env, f, old(inference.View()))
    ensures inference.View() == SentMask(f.spans, f.main, f.pic, old(inference.View()), f.p).1
    ensures copied.Accepted? <==> CopiesIn(f)
  {
    SentByte(f.spans, f.main, f.pic, inference.View(), f.p);
    hide SentMask, FrameMask;
    var m;
    parsed, m := FillMask(f.spans, f.main, f.pic, f.p, inference);
    mask := m;
    var total;
    copied, total, entries := Tiles.SubmitTiles(dst, f.spans[f.main], f.tiles);
  }

  // ----- what the mask does

  /** The kernel's references and the slots after a decoded picture that is copied out. */
  lemma DecodedRefs(s: State, env: EndEnv)
    requires CopyMode(s) && s.current.Some? && s.request && (env.streamOut ==> env.streamCap)
    requires Delivers(s, env)
    ensures var p, u := Prepare(s, env).0, EndPicture(s, env);
            && u.kernel.refs == Refreshed(p.kernel.refs, env.mask, Pick(s, env))
            && (ArmedFor(s, env) ==> u.model.slots == Refreshed(p.model.slots, env.mask, Pick(s, env)))
  {
    hide Prepare, DecodeSubmit, Conclude, ArmedFor, Basic, PoolOf, CapturesOf, Reaches;
    Delivery.PictureDelivers(s, env);
    PictureExit(s, env);
    PrepareKeeps(s, env);
    var (p, out) := Prepare(s, env);
    assert SubmittedMask(s, env) == env.mask by { Av1Mask(s, env); }
    SubmitAccounted(p, out.value, env.mask, env.submit);
    var (t, r) := DecodeSubmit(p, out.value, env.mask, env.submit);
    ChosenInRange(p);
    ConcludeKeeps(t, r, env);
  }

  lemma Av1Mask(s: State, env: EndEnv)
    requires CopyMode(s)
    ensures SubmittedMask(s, env) == env.mask
  {
  }

  /** Main result on parsed pictures: a header printed at the front of a frame OBU of the decoded buffer, after OBUs
    * that are skipped and before any bytes, decides the references. The decoded picture enters exactly the slots the
    * header names, in the kernel's table and - unless the picture renegotiates a streaming queue - in the slot
    * table. */
  lemma HeaderEntersSlots(s: State, env: EndEnv, f: Frame, g: RefreshInference.Gop, pre: seq<ObuWalk.Obu>,
                          o: ObuWalk.Obu, rest: seq<byte>, h: FrameHeader.Header, cand: nat)
    requires CopyMode(s) && s.current.Some? && s.request && (env.streamOut ==> env.streamCap)
    requires f.Valid() && Carries(env, f, g) && Delivers(s, env)
    requires forall q :: q in pre ==> ObuWalk.Skipped(q, f.pic)
    requires cand < 2 && ObuWalk.IsFrame(o.obuType) && !f.pic.stillPicture && f.pic.bitsMinus1 < 32
    requires |ObuWalk.PrintAll(pre) + ObuWalk.PrintObu(o) + rest| < SPAN_LIMIT
    requires f.spans[f.main] == ObuWalk.PrintAll(pre) + ObuWalk.PrintObu(o) + rest
    requires FrameHeader.WellFormed(h, f.pic.LayoutOf(cand))
    requires At(o.payload, 0, FrameHeader.Print(h, f.pic.LayoutOf(cand))) && ObuWalk.Matches(h, cand == 1, f.pic)
    requires cand == 0 || ObuWalk.TryCandidate(o.payload, 0, f.pic) == None
    ensures var p, u := Prepare(s, env).0, EndPicture(s, env);
            && h.refresh < 256
            && u.kernel.refs == Refreshed(p.kernel.refs, h.refresh, Pick(s, env))
            && (!(s.streamed && PictureRenegotiates(s, env)) ==>
                  u.model.slots == Refreshed(p.model.slots, h.refresh, Pick(s, env)))
  {
    hide Prepare, EndPicture, Delivers, PictureRenegotiates, Basic, ObuWalk.ParseRefresh, FrameHeader.Print, At;
    ObuWalk.RefreshRoundTrip(pre, o, rest, h, cand, f.pic);
    assert env.mask == h.refresh && env.parsed;
    DecodedRefs(s, env);
    assert s.cfg.codec.AV1? by { Codec(s); }
  }

  lemma Codec(s: State)
    requires CopyMode(s)
    ensures s.cfg.codec.AV1?
  {
  }

  /** Main result on guesses: without a parsed header the slot model is not armed by the picture, and an inter picture
    * changes at most one of the kernel's references. */
  lemma GuessTouchesOne(s: State, env: EndEnv, f: Frame, g: RefreshInference.Gop)
    requires CopyMode(s) && s.current.Some? && s.request && (env.streamOut ==> env.streamCap)
    requires f.Valid() && Carries(env, f, g) && Delivers(s, env) && RefreshInference.TogglesOk(g)
    requires FrameMask(f.spans, f.main, f.pic).None? && f.p.frameType == RefreshInference.INTER
    ensures ArmedFor(s, env) ==> s.model.active
    ensures var p, u := Prepare(s, env).0, EndPicture(s, env);
            forall a, b | 0 <= a < b < REFS ::
              u.kernel.refs[a] == p.kernel.refs[a] || u.kernel.refs[b] == p.kernel.refs[b]
  {
    hide Prepare, EndPicture, Delivers, CopyMode, RefreshInference.Infer, FrameMask;
    RefreshInference.InferSelects(g, f.p);
    DecodedRefs(s, env);
  }
}
