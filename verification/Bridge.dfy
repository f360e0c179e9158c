/** The buffer-ownership machine of one decode context as functions on values: what every VA entry
  * point does to the pools, the surfaces, the AV1 slot model and the kernel queues. Every ioctl
  * outcome is an input, so a run is a sequence of events with arbitrary successes and failures.
  * `g_v4l2sl_lock` makes each entry point one atomic step.
  */
module Bridge {
  import opened Wrappers
  import opened Pools
  import opened V4l2Kernel

  const NUM_OUT := 4          // V4L2SL_NUM_OUTPUT_BUFS
  const NUM_CAP := 24         // V4L2SL_NUM_CAPTURE_BUFS
  const MAX_CAP := 40         // V4L2SL_MAX_CAPTURE_BUFS, V4L2SL_NUM_CAPTURE_BUFS_AV1
  const VA_INVALID := 0xffff_ffff
  const NV12: nat := 0x3231_564e  // V4L2_PIX_FMT_NV12

  function Min(a: nat, b: nat): nat {
    if a < b then a else b
  }

  datatype Codec = H264 | HEVC | AV1 | VP8 | MPEG2

  datatype Config = Config(codec: Codec, expbuf: bool)

  /** The negotiated geometry: `width`/`height` as last requested, the rest as the driver chose. */
  datatype Geometry = Geometry(width: int, height: int, capW: nat, capH: nat, fourcc: nat)

  /** The copy-out model: which capture buffer each reference slot holds, and which surface owns a
    * buffer. */
  datatype SlotModel = SlotModel(active: bool, slots: Slots, owner: Owners)

  type Owners = s: seq<nat> | |s| == MAX_CAP witness seq(MAX_CAP, i => VA_INVALID)

  function ResetModel(): (m: SlotModel)
    ensures !m.active && m.slots == NO_REFS && |m.owner| == MAX_CAP
    ensures forall i :: 0 <= i < MAX_CAP ==> m.owner[i] == VA_INVALID
  {
    SlotModel(false, NO_REFS, seq(MAX_CAP, i => VA_INVALID))
  }

  /** `held` maps every live surface to its `buf_index`, -1 when it holds none. */
  datatype State = State(
    cfg: Config,
    geo: Geometry,
    outAllocd: nat, freeOut: seq<int>,
    capAllocd: nat, freeCap: seq<int>,
    streamed: bool,
    request: bool,
    targets: seq<nat>,
    current: Option<nat>,
    held: map<nat, int>,
    model: SlotModel,
    kernel: Kernel)
  {
    function PushOut(idx: int): State {
      this.(freeOut := Push(freeOut, idx, NUM_OUT))
    }

    function PushCap(idx: int): State {
      this.(freeCap := Push(freeCap, idx, MAX_CAP))
    }

    function SetHeld(id: nat, idx: int): State {
      this.(held := held[id := idx])
    }

    predicate Holds(id: nat) {
      id in held && held[id] >= 0
    }

    /** The current surface already holds a buffer that EXPBUF mode decodes into again. */
    predicate Claimed() {
      cfg.expbuf && current.Some? && Holds(current.value)
    }
  }

  // ----- resets

  /** Every capture index a render target still holds. */
  function ClaimedIndices(s: State): set<int> {
    set id | id in s.held && id in s.targets && 0 <= s.held[id] < MAX_CAP :: s.held[id]
  }

  function RebuildFreePools(s: State): State {
    s.(freeOut := Upto(Min(s.outAllocd, NUM_OUT)),
       freeCap := Unclaimed(Min(s.capAllocd, MAX_CAP), ClaimedIndices(s)))
  }

  function StreamOffBoth(k: Kernel): Kernel {
    k.StreamOff(Output).StreamOff(Capture)
  }

  function DecodeReset(s: State): State {
    var s1 := if s.streamed then s.(kernel := StreamOffBoth(s.kernel), streamed := false) else s;
    RebuildFreePools(s1.(model := ResetModel(), request := false))
  }

  /** Every render target gives its buffer up. */
  function Dropped(held: map<nat, int>, targets: seq<nat>): map<nat, int> {
    map id | id in held :: if id in targets then -1 else held[id]
  }

  function ReleaseSurfaces(s: State): State {
    s.(held := Dropped(s.held, s.targets))
  }

  // ----- ensure_capture

  /** One S_FMT + REQBUFS attempt on the capture queue. */
  datatype Attempt = Attempt(formatOk: bool, granted: nat)

  /** `coded` is the OUTPUT format G_FMT reports, `chosen` the capture geometry read back. */
  datatype EnsureEnv = EnsureEnv(
    freeCapOk: bool,
    coded: Option<(nat, nat)>, freeOutOk: bool, outFormatOk: bool, outGranted: nat,
    attempts: seq<Attempt>,
    chosen: Option<(nat, nat)>)

  predicate SizeChanged(s: State, w: int, h: int) {
    s.geo.capW == 0 || w > s.geo.capW || h > s.geo.capH
  }

  predicate FormatChanged(s: State, fourcc: nat) {
    s.geo.fourcc != fourcc || s.capAllocd == 0
  }

  predicate Renegotiates(s: State, w: int, h: int, fourcc: nat) {
    w > 0 && h > 0 && (SizeChanged(s, w, h) || FormatChanged(s, fourcc))
  }

  /** One S_FMT + REQBUFS on the capture queue; 0 buffers on failure. */
  function TryOnce(k: Kernel, attempts: seq<Attempt>, i: nat): (Kernel, nat) {
    if i >= |attempts| then (k, 0) else
    var k1 := k.SetFormat(Capture);
    if !attempts[i].formatOk then (k1, 0)
    else (k1.AllocBuffers(Capture, attempts[i].granted), attempts[i].granted)
  }

  /** The request for 40 (AV1) or 24 buffers, then the ones for 8 and for 4. The retry at 24 is compiled
    * out because V4L2SL_NUM_CAPTURE_BUFS is not above 24. */
  function TryCapture(k: Kernel, attempts: seq<Attempt>): (Kernel, nat) {
    var (k1, n1) := TryOnce(k, attempts, 0);
    if n1 > 0 then (k1, n1) else
    var (k2, n2) := TryOnce(k1, attempts, 1);
    if n2 > 0 then (k2, n2) else TryOnce(k2, attempts, 2)
  }

  /** A bigger coded size rebuilds the OUTPUT queue, on a best effort. */
  function RebuildOutput(s: State, w: int, h: int, env: EnsureEnv): State {
    if s.outAllocd == 0 || env.coded.None? || (env.coded.value.0 >= w && env.coded.value.1 >= h) then s else
    var k := s.kernel.FreeBuffers(Output, env.freeOutOk);
    if !env.freeOutOk then s.(kernel := k) else
    var k1 := k.SetFormat(Output).SetFormat(Output);
    var n := if env.outFormatOk then env.outGranted else 0;
    var k2 := if env.outFormatOk then k1.AllocBuffers(Output, n) else k1;
    s.(kernel := k2, outAllocd := n, freeOut := Upto(Min(n, NUM_OUT)))
  }

  /** Stop both queues and take every buffer from the surfaces. */
  function Quiesce(s: State): State {
    ReleaseSurfaces(if s.streamed
                    then s.(kernel := StreamOffBoth(s.kernel), streamed := false, model := ResetModel()) else s)
  }

  /** REQBUFS(0) on the capture queue, if it has buffers. */
  function FreeCapture(s: State, env: EnsureEnv): State {
    if s.capAllocd == 0 then s
    else if !env.freeCapOk then s.(kernel := s.kernel.FreeBuffers(Capture, false))
    else s.(kernel := s.kernel.FreeBuffers(Capture, true), capAllocd := 0, freeCap := [])
  }

  /** The part of a renegotiation before new capture buffers are requested; false when REQBUFS(0)
    * on the capture queue failed. */
  function Teardown(s: State, w: int, h: int, env: EnsureEnv): (State, bool) {
    var t := FreeCapture(Quiesce(s), env);
    if s.capAllocd > 0 && !env.freeCapOk then (t, false)
    else (if SizeChanged(s, w, h) then RebuildOutput(t, w, h, env) else t, true)
  }

  /** The geometry after a successful allocation; a failed G_FMT keeps the old capture size. */
  function Negotiated(geo: Geometry, w: int, h: int, fourcc: nat, env: EnsureEnv): Geometry {
    if env.chosen.None? then geo.(width := w, height := h, fourcc := fourcc)
    else Geometry(w, h, env.chosen.value.0, env.chosen.value.1, fourcc)
  }

  function Renegotiate(s: State, w: int, h: int, fourcc: nat, env: EnsureEnv): (State, bool) {
    var (t, freed) := Teardown(s, w, h, env);
    if !freed then (t, false) else
    var (k, n) := TryCapture(t.kernel, env.attempts);
    if n == 0 then (t.(kernel := k), false) else
    (t.(kernel := k, capAllocd := n, freeCap := Upto(Min(n, NUM_CAP)),
        geo := Negotiated(t.geo, w, h, fourcc, env)), true)
  }

  function EnsureCapture(s: State, w: int, h: int, pixelformat: nat, env: EnsureEnv): (State, bool) {
    var fourcc := if pixelformat != 0 then pixelformat else NV12;
    if w <= 0 || h <= 0 then (s, false)
    else if !Renegotiates(s, w, h, fourcc) then (s, true) else
    Renegotiate(s, w, h, fourcc, env)
  }

  // ----- decode_submit

  datatype SubmitEnv = SubmitEnv(
    qbufOut: bool, qbufCap: bool, rescue: Option<int>,
    submitted: bool, polled: bool, dqCap: Option<int>, capError: bool,
    dqOut: Option<int>, dqOutLate: Option<int>, reinitInvalid: bool)

  /** The OUTPUT tail: one DQBUF, and a second one after a poll if that fails. */
  function RecoverOutput(s: State, env: SubmitEnv): State {
    var first := s.kernel.Answer(Output, env.dqOut);
    var reply := if first.Some? then env.dqOut else env.dqOutLate;
    var done := s.kernel.Answer(Output, reply);
    var s1 := s.(kernel := s.kernel.Dequeue(Output, reply));
    if done.Some? then s1.PushOut(done.value) else s1
  }

  /** From a dequeued capture buffer to the return value. */
  function FinishSubmit(s: State, done: int, mask: Mask, env: SubmitEnv): (State, int) {
    var s1 := s.(kernel := s.kernel.Dequeue(Capture, Some(done)));
    var s2 := if env.capError then s1.PushCap(done) else s1.(kernel := s1.kernel.Refresh(mask, done));
    var s3 := RecoverOutput(s2, env);
    (if env.reinitInvalid then s3.(request := false) else s3, if env.capError then -2 else done)
  }

  /** Both buffers are queued: queue the request, wait, dequeue. */
  function AwaitDecode(s: State, mask: Mask, env: SubmitEnv): (State, int) {
    var done := s.kernel.Answer(Capture, env.dqCap);
    if !env.submitted || !env.polled || done.None? then (DecodeReset(s), -1)
    else FinishSubmit(s, done.value, mask, env)
  }

  /** The capture index the next decode uses, and the pool without it. */
  function ChooseCapture(s: State): Option<(int, State)> {
    if s.Claimed() then Some((s.held[s.current.value], s))
    else if |s.freeCap| == 0 then None
    else Some((s.freeCap[|s.freeCap| - 1], s.(freeCap := s.freeCap[..|s.freeCap| - 1])))
  }

  function DecodeSubmit(s: State, out: int, mask: Mask, env: SubmitEnv): (State, int) {
    if !s.request then (s, -1) else
    var choice := ChooseCapture(s);
    if choice.None? then (s.PushOut(out), -1) else
    var (cap, s0) := choice.value;
    var s1 := s0.(kernel := s0.kernel.Enqueue(Output, out, env.qbufOut));
    if !env.qbufOut then (s1.PushOut(out).PushCap(cap), -1) else
    var s2 := s1.(kernel := s1.kernel.Enqueue(Capture, cap, env.qbufCap));
    if !env.qbufCap then
      var s3 := s2.PushCap(cap);
      var done := s3.kernel.Answer(Output, env.rescue);
      var s4 := s3.(kernel := s3.kernel.Dequeue(Output, env.rescue));
      (if done.Some? then s4.PushOut(done.value) else s4, -1)
    else AwaitDecode(s2, mask, env)
  }

  // ----- copying the picture out

  /** Whether the capture buffer can be copied out: the lazy mmap stops at 24. */
  predicate PullWorks(s: State, buf: int, copyOk: bool) {
    0 <= buf < s.capAllocd && buf < NUM_CAP && copyOk
  }

  /** The buffer that slot `t` gives up is returned to the pool unless another slot still holds it;
    * its owner, if it still names it, forgets it first. */
  function DropIfUnreferenced(s: State, prev: int): State {
    if prev < 0 || prev >= MAX_CAP || prev in s.model.slots then s else
    var id := s.model.owner[prev];
    var s1 := if id in s.held && s.held[id] == prev then s.SetHeld(id, -1) else s;
    s1.(model := s1.model.(owner := s1.model.owner[prev := VA_INVALID])).PushCap(prev)
  }

  /** Slot `t` now names `buf`. */
  function OverwriteSlot(s: State, t: nat, buf: int): State
    requires t < REFS
  {
    var prev := s.model.slots[t];
    var s1 := s.(model := s.model.(slots := s.model.slots[t := buf]));
    if prev == buf then s1 else DropIfUnreferenced(s1, prev)
  }

  /** The slot loop of the release, from slot `t` on. */
  function ReleaseFrom(s: State, buf: int, mask: Mask, t: nat): State
    decreases REFS - t
  {
    if t >= REFS then s
    else ReleaseFrom(if Bit(mask, t) then OverwriteSlot(s, t, buf) else s, buf, mask, t + 1)
  }

  function ReleaseUnreferenced(s: State, id: nat, buf: int, mask: Mask): State {
    if buf < 0 || buf >= MAX_CAP then s
    else if mask == 0 then
      var s1 := if id in s.held then s.SetHeld(id, -1) else s;
      s1.(model := s1.model.(owner := s1.model.owner[buf := VA_INVALID])).PushCap(buf)
    else ReleaseFrom(s.(model := s.model.(owner := s.model.owner[buf := id])), buf, mask, 0)
  }

  // ----- the VA entry points

  datatype EndEnv = EndEnv(
    parsed: bool, mask: Mask,       // AV1: header parsed, refresh_frame_flags
    paramsOk: bool,                // up to the sequence control
    w: int, h: int, fourcc: nat, ensure: EnsureEnv,
    streamOut: bool, streamCap: bool,
    controlsOk: bool, copyInOk: bool,
    submit: SubmitEnv, copyOutOk: bool)

  function FailPicture(s: State): State {
    s.(current := None, request := false)
  }

  /** Whether the corrupt-frame result counts as success: H.264 and HEVC test for failure first. */
  predicate SkipSucceeds(codec: Codec) {
    !codec.H264? && !codec.HEVC?
  }

  /** STREAMON of both queues, in order; the second is not tried when the first fails. */
  function StreamQueues(s: State, streamOut: bool, streamCap: bool): (State, bool) {
    var k := s.kernel.StreamOn(Output, streamOut);
    if !streamOut || !s.kernel.Streamable(Output) then (s.(kernel := k), false) else
    var k1 := k.StreamOn(Capture, streamCap);
    var streaming := streamCap && k.Streamable(Capture);
    (s.(kernel := k1, streamed := streaming), streaming)
  }

  function StartStreaming(s: State, env: EndEnv): (State, bool) {
    if s.streamed then (s, true) else StreamQueues(s, env.streamOut, env.streamCap)
  }

  /** A parsed AV1 header hands buffer release to the slot model. */
  function Arm(s: State, env: EndEnv): State {
    if s.cfg.codec.AV1? && env.parsed then s.(model := s.model.(active := true)) else s
  }

  /** The mask the kernel gets with the picture. */
  function SubmittedMask(s: State, env: EndEnv): Mask {
    if s.cfg.codec.AV1? then env.mask else 0
  }

  /** The picture up to the moment its bitstream buffer is filled: the state with that buffer popped,
    * or the state in which the picture failed. */
  function Prepare(s: State, env: EndEnv): (State, Option<int>) {
    var s0 := Arm(s, env);
    if !env.paramsOk then (s0, None) else
    var (s1, ensured) := EnsureCapture(s0, env.w, env.h, env.fourcc, env.ensure);
    if !ensured then (s1, None) else StreamAndFill(s1, env)
  }

  function StreamAndFill(s: State, env: EndEnv): (State, Option<int>) {
    var (s1, streaming) := StartStreaming(s, env);
    if !streaming || !env.controlsOk then (s1, None) else FillOutput(s1, env.copyInOk)
  }

  /** Pop a bitstream buffer and fill it. */
  function FillOutput(s: State, copyInOk: bool): (State, Option<int>) {
    if |s.freeOut| == 0 then (s, None) else
    var out := s.freeOut[|s.freeOut| - 1];
    var s1 := s.(freeOut := s.freeOut[..|s.freeOut| - 1]);
    if !copyInOk then (s1.PushOut(out), None) else (s1, Some(out))
  }

  /** A decoded buffer reaches the current surface, or goes back to the pool. */
  function Deliver(s: State, buf: int, env: EndEnv): State {
    if s.current.None? || !PullWorks(s, buf, env.copyOutOk) then s.PushCap(buf) else
    var id := s.current.value;
    var s1 := s.SetHeld(id, buf);
    if s.cfg.codec.AV1? && s.model.active then ReleaseUnreferenced(s1, id, buf, env.mask) else s1
  }

  /** From the return value of decode_submit to the end of the picture. */
  function Conclude(s: State, r: int, env: EndEnv): State {
    if r == -2 && SkipSucceeds(s.cfg.codec) then s.(current := None)
    else if r < 0 then FailPicture(s)
    else Deliver(s, r, env).(current := None)
  }

  function EndPicture(s: State, env: EndEnv): State {
    if s.current.None? then s
    else if !s.request then s.(current := None) else
    var (s1, out) := Prepare(s, env);
    if out.None? then FailPicture(s1) else
    var (s2, r) := DecodeSubmit(s1, out.value, SubmittedMask(s, env), env.submit);
    Conclude(s2, r, env)
  }

  function BeginPicture(s: State, id: nat, allocOk: bool): State {
    if id !in s.held then s else
    var s1 := s.(current := Some(id), request := s.request || allocOk);
    var b := s.held[id];
    if b < 0 || s.cfg.expbuf then s1 else
    var s2 := if !(s.cfg.codec.AV1? && s.model.active) && b < s.capAllocd then s1.PushCap(b) else s1;
    s2.SetHeld(id, -1)
  }

  function CreateSurface(s: State, id: nat): State {
    if id in s.held then s else s.SetHeld(id, -1)
  }

  function Unregister(targets: seq<nat>, id: nat): (r: seq<nat>)
    ensures |r| == |targets|
    ensures forall i :: 0 <= i < |r| ==> r[i] == if targets[i] == id then VA_INVALID else targets[i]
  {
    seq(|targets|, i requires 0 <= i < |targets| => if targets[i] == id then VA_INVALID else targets[i])
  }

  /** The capture slot of a destroyed render target: back to the pool, or, under the slot model, only
    * its owner is forgotten. */
  function ReturnSlot(s: State, id: nat): State
    requires id in s.held
  {
    var b := s.held[id];
    if id !in s.targets || b < 0 || b >= s.capAllocd then s
    else if !(s.cfg.codec.AV1? && s.model.active) then s.PushCap(b)
    else if b < MAX_CAP then s.(model := s.model.(owner := s.model.owner[b := VA_INVALID]))
    else s
  }

  /** The surface leaves the render targets, the current picture and the surface table. */
  function ForgetSurface(s: State, id: nat): State {
    s.(targets := Unregister(s.targets, id),
       current := if s.current == Some(id) then None else s.current,
       held := s.held - {id})
  }

  function DestroySurface(s: State, id: nat): State {
    if id !in s.held then s else ForgetSurface(ReturnSlot(s, id), id)
  }

  /** Claim-at-export: only EXPBUF mode touches ownership. */
  function ExportSurface(s: State, id: nat, surfW: int, surfH: int, env: EnsureEnv): State {
    if id !in s.held || !s.cfg.expbuf || s.held[id] >= 0 then s else
    var w := if s.geo.width > 0 then s.geo.width else surfW;
    var h := if s.geo.height > 0 then s.geo.height else surfH;
    var (s1, ensured) := EnsureCapture(s, w, h, s.geo.fourcc, env);
    if !ensured || s1.Holds(id) || |s1.freeCap| == 0 then s1 else
    s1.(freeCap := s1.freeCap[..|s1.freeCap| - 1]).SetHeld(id, s1.freeCap[|s1.freeCap| - 1])
  }

  datatype Event =
    | Create(id: nat)
    | Destroy(id: nat)
    | Begin(id: nat, allocOk: bool)
    | End(env: EndEnv)
    | Export(id: nat, surfW: int, surfH: int, ensure: EnsureEnv)

  function Step(s: State, e: Event): State {
    match e
    case Create(id) => CreateSurface(s, id)
    case Destroy(id) => DestroySurface(s, id)
    case Begin(id, allocOk) => BeginPicture(s, id, allocOk)
    case End(env) => EndPicture(s, env)
    case Export(id, w, h, env) => ExportSurface(s, id, w, h, env)
  }

  // ----- runs

  function Run(s: State, es: seq<Event>): State
    decreases |es|
  {
    if es == [] then s else Run(Step(s, es[0]), es[1..])
  }

  /** A context right after its OUTPUT queue was set up: `live` are the surfaces of the driver. */
  function Opened(cfg: Config, w: int, h: int, targets: seq<nat>, live: set<nat>, granted: nat): State {
    var k := Kernel(Queue(granted, false, {}), Queue(0, false, {}), NO_REFS, false);
    State(cfg, Geometry(w, h, 0, 0, 0), granted, Upto(Min(granted, NUM_OUT)), 0, [], false, false,
          targets, None, map id | id in live :: -1, ResetModel(), k)
  }

  /** The rest of vaCreateContext. H.264 defers its capture queue to the first picture; the others
    * fall back to NV12 when the first format is refused. Only VP8 starts streaming here. */
  function CreateContext(cfg: Config, w: int, h: int, fourcc: nat, targets: seq<nat>, live: set<nat>,
                         granted: nat, first: EnsureEnv, second: EnsureEnv,
                         streamOut: bool, streamCap: bool): Option<State> {
    var s := Opened(cfg, w, h, targets, live, granted);
    if granted == 0 then None
    else if cfg.codec.H264? then Some(s) else
    var (s1, ok1) := EnsureCapture(s, w, h, fourcc, first);
    var (s2, ok2) := if ok1 || fourcc == NV12 then (s1, ok1) else EnsureCapture(s1, w, h, NV12, second);
    if !ok2 then None
    else if cfg.codec.VP8? && s2.outAllocd > 0 then Some(StreamQueues(s2, streamOut, streamCap).0)
    else Some(s2)
  }
}
