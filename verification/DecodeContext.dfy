/** The decode context as the driver keeps it: fixed arrays with counters, updated in place. Every method
  * is proved against the function of the ownership machine that specifies it, so the invariants and
  * whole-run results about those functions are about these methods. */
module DecodeContext {
  import opened Wrappers
  import opened Pools
  import opened V4l2Kernel
  import opened Bridge

  class Context {
    const cfg: Config
    var geo: Geometry
    var outputBufsAllocd: nat
    const freeOutBufs: array<int>
    var nFreeOut: nat
    var captureBufsAllocd: nat
    const freeCapBufs: array<int>
    var nFreeCap: nat
    var streamed: bool
    var request: bool
    const renderTargets: array<nat>
    var currentSurface: Option<nat>
    var surfaces: map<nat, int>  // live surfaces and their buf_index
    var modelActive: bool
    const slotBuf: array<int>
    const bufOwner: array<nat>
    var kernel: Kernel           // the device behind the file descriptor

    ghost predicate Valid()
      reads this, slotBuf
    {
      && freeOutBufs.Length == NUM_OUT && nFreeOut <= NUM_OUT
      && freeCapBufs.Length == MAX_CAP && nFreeCap <= MAX_CAP
      && slotBuf.Length == REFS && bufOwner.Length == MAX_CAP
      && freeOutBufs != freeCapBufs && freeOutBufs != slotBuf && freeCapBufs != slotBuf
      && renderTargets != bufOwner && slotBuf as object != bufOwner && slotBuf as object != renderTargets
      && freeOutBufs as object != bufOwner && freeOutBufs as object != renderTargets
      && freeCapBufs as object != bufOwner && freeCapBufs as object != renderTargets
      && forall s :: 0 <= s < REFS ==> slotBuf[s] < MAX_CAP
    }

    ghost function View(): State
      requires Valid()
      reads this, freeOutBufs, freeCapBufs, renderTargets, slotBuf, bufOwner
    {
      State(cfg, geo, outputBufsAllocd, freeOutBufs[..nFreeOut], captureBufsAllocd, freeCapBufs[..nFreeCap],
            streamed, request, renderTargets[..], currentSurface, surfaces,
            SlotModel(modelActive, slotBuf[..], bufOwner[..]), kernel)
    }

    /** A context right after its OUTPUT queue was set up with `granted` buffers. */
    constructor (cfg: Config, w: int, h: int, targets: seq<nat>, live: map<nat, int>, granted: nat)
      ensures Valid() && fresh(freeOutBufs) && fresh(freeCapBufs) && fresh(renderTargets)
      ensures fresh(slotBuf) && fresh(bufOwner)
      ensures View() == Opened(cfg, w, h, targets, {}, granted).(held := live)
    {
      this.cfg := cfg;
      geo := Geometry(w, h, 0, 0, 0);
      outputBufsAllocd, captureBufsAllocd := granted, 0;
      freeOutBufs := new int[NUM_OUT](i => i);
      nFreeOut := Min(granted, NUM_OUT);
      freeCapBufs := new int[MAX_CAP](i => -1);
      nFreeCap := 0;
      streamed, request, modelActive := false, false, false;
      renderTargets := new nat[|targets|](i requires 0 <= i < |targets| => targets[i]);
      currentSurface := None;
      surfaces := live;
      slotBuf := new int[REFS](i => -1);
      bufOwner := new nat[MAX_CAP](i => VA_INVALID);
      kernel := Kernel(Queue(granted, false, {}), Queue(0, false, {}), NO_REFS, false);
      new;
      assert slotBuf[..] == NO_REFS;
      assert bufOwner[..] == ResetModel().owner;
      assert freeOutBufs[..nFreeOut] == Upto(Min(granted, NUM_OUT));
      assert renderTargets[..] == targets;
    }

    // ----- pools

    method OutPoolPush(idx: int)
      requires Valid()
      modifies this`nFreeOut, freeOutBufs
      ensures Valid() && View() == old(View()).PushOut(idx)
    {
      if idx < 0 || idx >= NUM_OUT || nFreeOut >= NUM_OUT {
        return;
      }
      for i := 0 to nFreeOut
        invariant idx !in freeOutBufs[..i]
      {
        if freeOutBufs[i] == idx {
          assert idx in freeOutBufs[..nFreeOut];
          return;
        }
      }
      freeOutBufs[nFreeOut] := idx;
      nFreeOut := nFreeOut + 1;
    }

    method CapPoolPush(idx: int)
      requires Valid()
      modifies this`nFreeCap, freeCapBufs
      ensures Valid() && View() == old(View()).PushCap(idx)
    {
      if idx < 0 || idx >= MAX_CAP || nFreeCap >= MAX_CAP {
        return;
      }
      for i := 0 to nFreeCap
        invariant idx !in freeCapBufs[..i]
      {
        if freeCapBufs[i] == idx {
          assert idx in freeCapBufs[..nFreeCap];
          return;
        }
      }
      freeCapBufs[nFreeCap] := idx;
      nFreeCap := nFreeCap + 1;
    }

    /** The OUTPUT pool after a queue setup: every allocated index, in order. */
    method FillOutPool()
      requires Valid()
      modifies this`nFreeOut, freeOutBufs
      ensures Valid() && View() == old(View()).(freeOut := Upto(Min(outputBufsAllocd, NUM_OUT)))
    {
      nFreeOut := 0;
      var i := 0;
      while i < outputBufsAllocd && i < NUM_OUT
        invariant i <= Min(outputBufsAllocd, NUM_OUT) && Valid()
        invariant View() == old(View()).(freeOut := Upto(i))
      {
        assert i !in Upto(i);
        OutPoolPush(i);
        assert Upto(i) + [i] == Upto(i + 1);
        i := i + 1;
      }
    }

    /** The CAPTURE pool after an allocation; the loop stops at 24. */
    method FillCapPool()
      requires Valid()
      modifies this`nFreeCap, freeCapBufs
      ensures Valid() && View() == old(View()).(freeCap := Upto(Min(captureBufsAllocd, NUM_CAP)))
    {
      nFreeCap := 0;
      var i := 0;
      while i < captureBufsAllocd && i < NUM_CAP
        invariant i <= Min(captureBufsAllocd, NUM_CAP) && Valid()
        invariant View() == old(View()).(freeCap := Upto(i))
      {
        assert i !in Upto(i);
        CapPoolPush(i);
        assert Upto(i) + [i] == Upto(i + 1);
        i := i + 1;
      }
    }

    // ----- resets

    method DpbModelReset()
      requires Valid()
      modifies this`modelActive, slotBuf, bufOwner
      ensures Valid() && View() == old(View()).(model := ResetModel())
    {
      modelActive := false;
      for i := 0 to REFS
        modifies slotBuf
        invariant forall j :: 0 <= j < i ==> slotBuf[j] == -1
      {
        slotBuf[i] := -1;
      }
      for i := 0 to MAX_CAP
        modifies bufOwner
        invariant forall j :: 0 <= j < i ==> bufOwner[j] == VA_INVALID
      {
        bufOwner[i] := VA_INVALID;
      }
      assert slotBuf[..] == ResetModel().slots;
      assert bufOwner[..] == ResetModel().owner;
    }

    /** The indices render targets still hold, as a table of flags. */
    method MarkClaimed() returns (claimed: array<bool>)
      requires Valid()
      ensures fresh(claimed) && claimed.Length == MAX_CAP
      ensures forall x :: 0 <= x < MAX_CAP ==> (claimed[x] <==> x in ClaimedIndices(View()))
    {
      claimed := new bool[MAX_CAP](i => false);
      for i := 0 to renderTargets.Length
        invariant forall x :: 0 <= x < MAX_CAP ==>
                    (claimed[x] <==> exists id :: id in renderTargets[..i] && id in surfaces && surfaces[id] == x)
      {
        var id := renderTargets[i];
        assert renderTargets[..i + 1] == renderTargets[..i] + [id];
        if id in surfaces && 0 <= surfaces[id] < MAX_CAP {
          claimed[surfaces[id]] := true;
        }
      }
      assert renderTargets[..renderTargets.Length] == renderTargets[..];
    }

    method FillUnclaimed(claimed: array<bool>, ghost taken: set<int>)
      requires Valid() && claimed.Length == MAX_CAP
      requires forall x :: 0 <= x < MAX_CAP ==> (claimed[x] <==> x in taken)
      modifies this`nFreeCap, freeCapBufs
      ensures Valid()
      ensures View() == old(View()).(freeCap := Unclaimed(Min(captureBufsAllocd, MAX_CAP), taken))
    {
      nFreeCap := 0;
      var i := 0;
      while i < captureBufsAllocd && i < MAX_CAP
        invariant i <= Min(captureBufsAllocd, MAX_CAP) && Valid()
        invariant forall x :: 0 <= x < MAX_CAP ==> (claimed[x] <==> x in taken)
        invariant View() == old(View()).(freeCap := Unclaimed(i, taken))
      {
        UnclaimedElements(i, taken);
        if !claimed[i] {
          CapPoolPush(i);
        }
        i := i + 1;
      }
    }

    method RebuildFreePools()
      requires Valid()
      modifies this`nFreeOut, freeOutBufs, this`nFreeCap, freeCapBufs
      ensures Valid() && View() == Bridge.RebuildFreePools(old(View()))
    {
      FillOutPool();
      var claimed := MarkClaimed();
      FillUnclaimed(claimed, ClaimedIndices(View()));
    }

    method StreamOffQueues()
      requires Valid()
      modifies this`kernel, this`streamed
      ensures Valid() && View() == old(View()).(kernel := StreamOffBoth(old(kernel)), streamed := false)
    {
      kernel := kernel.StreamOff(Output);
      kernel := kernel.StreamOff(Capture);
      streamed := false;
    }

    method DecodeReset()
      requires Valid()
      modifies this`kernel, this`streamed, this`request, this`modelActive, slotBuf, bufOwner
      modifies this`nFreeOut, freeOutBufs, this`nFreeCap, freeCapBufs
      ensures Valid() && View() == Bridge.DecodeReset(old(View()))
    {
      if streamed {
        StreamOffQueues();
      }
      DpbModelReset();
      request := false;
      RebuildFreePools();
    }

    // ----- the AV1 copy-out

    method StillReferenced(prev: int) returns (still: bool)
      requires Valid()
      ensures still <==> prev in slotBuf[..]
    {
      still := false;
      for t := 0 to REFS
        invariant still <==> prev in slotBuf[..t]
      {
        assert slotBuf[..t + 1] == slotBuf[..t] + [slotBuf[t]];
        if slotBuf[t] == prev {
          still := true;
        }
      }
      assert slotBuf[..REFS] == slotBuf[..];
    }

    method Overwrite(s: nat, buf: int)
      requires Valid() && s < REFS && buf < MAX_CAP
      modifies this`surfaces, this`nFreeCap, freeCapBufs, slotBuf, bufOwner
      ensures Valid() && View() == OverwriteSlot(old(View()), s, buf)
    {
      var prev := slotBuf[s];
      slotBuf[s] := buf;
      if prev < 0 || prev == buf {
        return;
      }
      var still := StillReferenced(prev);
      if still {
        return;
      }
      var owner := bufOwner[prev];
      if owner in surfaces && surfaces[owner] == prev {
        surfaces := surfaces[owner := -1];
      }
      bufOwner[prev] := VA_INVALID;
      CapPoolPush(prev);
    }

    method ReleaseUnrefd(id: nat, buf: int, refresh: Mask)
      requires Valid()
      modifies this`surfaces, this`nFreeCap, freeCapBufs, slotBuf, bufOwner
      ensures Valid() && View() == ReleaseUnreferenced(old(View()), id, buf, refresh)
    {
      if buf < 0 || buf >= MAX_CAP {
        return;
      }
      bufOwner[buf] := id;
      if refresh == 0 {
        if id in surfaces {
          surfaces := surfaces[id := -1];
        }
        bufOwner[buf] := VA_INVALID;
        CapPoolPush(buf);
        return;
      }
      ghost var start := View();
      for s := 0 to REFS
        invariant Valid()
        invariant ReleaseFrom(View(), buf, refresh, s) == ReleaseFrom(start, buf, refresh, 0)
      {
        if Bit(refresh, s) {
          Overwrite(s, buf);
        }
      }
    }

    // ----- renegotiation

    method ReleaseCaptureSurfaces()
      requires Valid()
      modifies this`surfaces
      ensures Valid() && View() == ReleaseSurfaces(old(View()))
    {
      for i := 0 to renderTargets.Length
        invariant Valid() && surfaces == Dropped(old(surfaces), renderTargets[..i])
        invariant View() == old(View()).(held := surfaces)
      {
        var id := renderTargets[i];
        assert renderTargets[..i + 1] == renderTargets[..i] + [id];
        if id in surfaces {
          surfaces := surfaces[id := -1];
        }
      }
      assert renderTargets[..renderTargets.Length] == renderTargets[..];
    }

    /** One S_FMT + REQBUFS attempt; the number of buffers granted, 0 on failure. */
    method SetupCaptureQueue(attempts: seq<Attempt>, i: nat) returns (n: nat)
      requires Valid()
      modifies this`kernel
      ensures Valid() && (kernel, n) == TryOnce(old(kernel), attempts, i)
    {
      n := 0;
      if i >= |attempts| {
        return;
      }
      kernel := kernel.SetFormat(Capture);
      if attempts[i].formatOk {
        kernel := kernel.AllocBuffers(Capture, attempts[i].granted);
        n := attempts[i].granted;
      }
    }

    method RebuildOutputQueue(w: int, h: int, env: EnsureEnv)
      requires Valid()
      modifies this`kernel, this`outputBufsAllocd, this`nFreeOut, freeOutBufs
      ensures Valid() && View() == RebuildOutput(old(View()), w, h, env)
    {
      if outputBufsAllocd == 0 || env.coded.None?
         || (env.coded.value.0 >= w && env.coded.value.1 >= h) {
        return;
      }
      kernel := kernel.FreeBuffers(Output, env.freeOutOk);
      if !env.freeOutOk {
        return;
      }
      outputBufsAllocd, nFreeOut := 0, 0;
      kernel := kernel.SetFormat(Output);
      kernel := kernel.SetFormat(Output);
      if env.outFormatOk {
        kernel := kernel.AllocBuffers(Output, env.outGranted);
        outputBufsAllocd := env.outGranted;
      }
      FillOutPool();
    }

    method QuiesceQueues()
      requires Valid()
      modifies this`kernel, this`streamed, this`modelActive, slotBuf, bufOwner, this`surfaces
      ensures Valid() && View() == Quiesce(old(View()))
    {
      if streamed {
        StreamOffQueues();
        DpbModelReset();
      }
      ReleaseCaptureSurfaces();
    }

    method FreeCaptureQueue(env: EnsureEnv) returns (freed: bool)
      requires Valid()
      modifies this`kernel, this`captureBufsAllocd, this`nFreeCap
      ensures Valid() && View() == FreeCapture(old(View()), env)
      ensures freed <==> old(captureBufsAllocd) == 0 || env.freeCapOk
    {
      if captureBufsAllocd > 0 {
        kernel := kernel.FreeBuffers(Capture, env.freeCapOk);
        if !env.freeCapOk {
          return false;
        }
        captureBufsAllocd, nFreeCap := 0, 0;
      }
      return true;
    }

    method TeardownQueues(w: int, h: int, env: EnsureEnv) returns (freed: bool)
      requires Valid()
      modifies this`kernel, this`streamed, this`modelActive, slotBuf, bufOwner, this`surfaces
      modifies this`captureBufsAllocd, this`nFreeCap, this`outputBufsAllocd, this`nFreeOut, freeOutBufs
      ensures Valid() && (View(), freed) == Teardown(old(View()), w, h, env)
    {
      QuiesceQueues();
      freed := FreeCaptureQueue(env);
      if freed && (geo.capW == 0 || w > geo.capW || h > geo.capH) {
        RebuildOutputQueue(w, h, env);
      }
    }

    method RequestCapture(attempts: seq<Attempt>) returns (n: nat)
      requires Valid()
      modifies this`kernel
      ensures Valid() && (kernel, n) == TryCapture(old(kernel), attempts)
    {
      n := SetupCaptureQueue(attempts, 0);
      if n == 0 {
        n := SetupCaptureQueue(attempts, 1);
      }
      if n == 0 {
        n := SetupCaptureQueue(attempts, 2);
      }
    }

    /** Teardown, allocation, refill. */
    method Renegotiate(w: int, h: int, fourcc: nat, env: EnsureEnv) returns (ok: bool)
      requires Valid()
      modifies this, slotBuf, bufOwner, freeCapBufs, freeOutBufs
      ensures Valid() && (View(), ok) == Bridge.Renegotiate(old(View()), w, h, fourcc, env)
    {
      var freed := TeardownQueues(w, h, env);
      if !freed {
        return false;
      }
      ghost var torn := View();
      var n := RequestCapture(env.attempts);
      assert View() == torn.(kernel := kernel);
      if n == 0 {
        return false;
      }
      captureBufsAllocd := n;
      FillCapPool();
      geo := Negotiated(geo, w, h, fourcc, env);
      return true;
    }

    method EnsureCapture(w: int, h: int, pixelformat: nat, env: EnsureEnv) returns (ok: bool)
      requires Valid()
      modifies this, slotBuf, bufOwner, freeCapBufs, freeOutBufs
      ensures Valid() && (View(), ok) == Bridge.EnsureCapture(old(View()), w, h, pixelformat, env)
    {
      var fourcc := if pixelformat != 0 then pixelformat else NV12;
      if w <= 0 || h <= 0 {
        return false;
      }
      var sizeChanged := geo.capW == 0 || w > geo.capW || h > geo.capH;
      var formatChanged := geo.fourcc != fourcc || captureBufsAllocd == 0;
      if !sizeChanged && !formatChanged {
        return true;
      }
      ok := Renegotiate(w, h, fourcc, env);
    }

    // ----- decode_submit

    method RecoverOutputBuffer(reply: Option<int>) returns (done: bool)
      requires Valid()
      modifies this`kernel, this`nFreeOut, freeOutBufs
      ensures Valid()
      ensures done <==> old(kernel).Answer(Output, reply).Some?
      ensures var s1 := old(View()).(kernel := old(kernel).Dequeue(Output, reply));
              View() == if done then s1.PushOut(reply.value) else s1
    {
      done := kernel.Answer(Output, reply).Some?;
      kernel := kernel.Dequeue(Output, reply);
      if done {
        OutPoolPush(reply.value);
      }
    }

    method AwaitDecode(mask: Mask, env: SubmitEnv) returns (r: int)
      requires Valid()
      modifies this`kernel, this`streamed, this`request, this`modelActive, slotBuf, bufOwner
      modifies this`nFreeOut, freeOutBufs, this`nFreeCap, freeCapBufs
      ensures Valid() && (View(), r) == Bridge.AwaitDecode(old(View()), mask, env)
    {
      var done := kernel.Answer(Capture, env.dqCap);
      if !env.submitted || !env.polled || done.None? {
        DecodeReset();
        return -1;
      }
      kernel := kernel.Dequeue(Capture, done);
      r := done.value;
      if env.capError {
        CapPoolPush(r);
        r := -2;
      } else {
        kernel := kernel.Refresh(mask, r);
      }
      var out := RecoverOutputBuffer(env.dqOut);
      if !out {
        out := RecoverOutputBuffer(env.dqOutLate);
      }
      if env.reinitInvalid {
        request := false;
      }
    }

    /** The claim of the current surface, or the last free index. */
    method TakeCapture() returns (cap: Option<int>)
      requires Valid()
      modifies this`nFreeCap
      ensures Valid()
      ensures ChooseCapture(old(View())) == if cap.Some? then Some((cap.value, View())) else None
      ensures cap.None? ==> View() == old(View())
    {
      if cfg.expbuf && currentSurface.Some? && currentSurface.value in surfaces && surfaces[currentSurface.value] >= 0 {
        return Some(surfaces[currentSurface.value]);
      }
      if nFreeCap == 0 {
        return None;
      }
      nFreeCap := nFreeCap - 1;
      assert freeCapBufs[..nFreeCap] == freeCapBufs[..nFreeCap + 1][..nFreeCap];
      return Some(freeCapBufs[nFreeCap]);
    }

    method DecodeSubmit(out: int, mask: Mask, env: SubmitEnv) returns (r: int)
      requires Valid()
      modifies this`kernel, this`streamed, this`request, this`modelActive, slotBuf, bufOwner
      modifies this`nFreeOut, freeOutBufs, this`nFreeCap, freeCapBufs
      ensures Valid() && (View(), r) == Bridge.DecodeSubmit(old(View()), out, mask, env)
    {
      if !request {
        return -1;
      }
      var choice := TakeCapture();
      if choice.None? {
        OutPoolPush(out);
        return -1;
      }
      var cap := choice.value;
      kernel := kernel.Enqueue(Output, out, env.qbufOut);
      if !env.qbufOut {
        OutPoolPush(out);
        CapPoolPush(cap);
        return -1;
      }
      kernel := kernel.Enqueue(Capture, cap, env.qbufCap);
      if !env.qbufCap {
        CapPoolPush(cap);
        var rescued := RecoverOutputBuffer(env.rescue);
        return -1;
      }
      r := AwaitDecode(mask, env);
    }

    // ----- a picture

    method StartStreaming(env: EndEnv) returns (ok: bool)
      requires Valid()
      modifies this`kernel, this`streamed
      ensures Valid() && (View(), ok) == Bridge.StartStreaming(old(View()), env)
    {
      if streamed {
        return true;
      }
      ok := env.streamOut && kernel.Streamable(Output);
      kernel := kernel.StreamOn(Output, env.streamOut);
      if !ok {
        return;
      }
      ok := env.streamCap && kernel.Streamable(Capture);
      kernel := kernel.StreamOn(Capture, env.streamCap);
      streamed := ok;
    }

    method FillOutput(copyInOk: bool) returns (out: Option<int>)
      requires Valid()
      modifies this`nFreeOut, freeOutBufs
      ensures Valid() && (View(), out) == Bridge.FillOutput(old(View()), copyInOk)
    {
      if nFreeOut == 0 {
        return None;
      }
      nFreeOut := nFreeOut - 1;
      var idx := freeOutBufs[nFreeOut];
      assert freeOutBufs[..nFreeOut] == freeOutBufs[..nFreeOut + 1][..nFreeOut];
      if !copyInOk {
        OutPoolPush(idx);
        return None;
      }
      return Some(idx);
    }

    method StreamAndFill(env: EndEnv) returns (out: Option<int>)
      requires Valid()
      modifies this`kernel, this`streamed, this`nFreeOut, freeOutBufs
      ensures Valid() && (View(), out) == Bridge.StreamAndFill(old(View()), env)
    {
      var streaming := StartStreaming(env);
      if !streaming || !env.controlsOk {
        return None;
      }
      out := FillOutput(env.copyInOk);
    }

    method PreparePicture(env: EndEnv) returns (out: Option<int>)
      requires Valid()
      modifies this, slotBuf, bufOwner, freeCapBufs, freeOutBufs
      ensures Valid() && (View(), out) == Prepare(old(View()), env)
    {
      hide Bridge.EnsureCapture, Bridge.StreamAndFill;
      if cfg.codec.AV1? && env.parsed {
        modelActive := true;
      }
      assert View() == Arm(old(View()), env);
      if !env.paramsOk {
        return None;
      }
      var ok := EnsureCapture(env.w, env.h, env.fourcc, env.ensure);
      if !ok {
        return None;
      }
      out := StreamAndFill(env);
    }

    /** pull_capture, and the AV1 copy-out after it. */
    method DeliverPicture(buf: int, env: EndEnv)
      requires Valid()
      modifies this`surfaces, this`nFreeCap, freeCapBufs, slotBuf, bufOwner
      ensures Valid() && View() == Deliver(old(View()), buf, env)
    {
      if currentSurface.None? || !(0 <= buf < captureBufsAllocd && buf < NUM_CAP && env.copyOutOk) {
        CapPoolPush(buf);
        return;
      }
      surfaces := surfaces[currentSurface.value := buf];
      if cfg.codec.AV1? && modelActive {
        ReleaseUnrefd(currentSurface.value, buf, env.mask);
      }
    }

    method EndPicture(env: EndEnv)
      requires Valid()
      modifies this, slotBuf, bufOwner, freeCapBufs, freeOutBufs
      ensures Valid() && View() == Bridge.EndPicture(old(View()), env)
    {
      hide Prepare, Bridge.DecodeSubmit, Deliver;
      if currentSurface.None? {
        return;
      }
      if !request {
        currentSurface := None;
        return;
      }
      var out := PreparePicture(env);
      if out.None? {
        currentSurface, request := None, false;
        return;
      }
      var r := DecodeSubmit(out.value, if cfg.codec.AV1? then env.mask else 0, env.submit);
      if r == -2 && SkipSucceeds(cfg.codec) {
        currentSurface := None;
      } else if r < 0 {
        currentSurface, request := None, false;
      } else {
        DeliverPicture(r, env);
        currentSurface := None;
      }
    }

    method BeginPicture(id: nat, allocOk: bool)
      requires Valid()
      modifies this`currentSurface, this`request, this`surfaces, this`nFreeCap, freeCapBufs
      ensures Valid() && View() == Bridge.BeginPicture(old(View()), id, allocOk)
    {
      if id !in surfaces {
        return;
      }
      currentSurface, request := Some(id), request || allocOk;
      if surfaces[id] >= 0 && !cfg.expbuf {
        if !(cfg.codec.AV1? && modelActive) && surfaces[id] < captureBufsAllocd {
          CapPoolPush(surfaces[id]);
        }
        surfaces := surfaces[id := -1];
      }
    }

    // ----- surfaces

    method CreateSurface(id: nat)
      requires Valid()
      modifies this`surfaces
      ensures Valid() && View() == Bridge.CreateSurface(old(View()), id)
    {
      if id !in surfaces {
        surfaces := surfaces[id := -1];
      }
    }

    method UnregisterTarget(id: nat) returns (listed: bool)
      requires Valid()
      modifies renderTargets
      ensures Valid() && View() == old(View()).(targets := Unregister(old(renderTargets[..]), id))
      ensures listed <==> id in old(renderTargets[..])
    {
      listed := false;
      for k := 0 to renderTargets.Length
        invariant forall j :: 0 <= j < k ==>
                    renderTargets[j] == if old(renderTargets[j]) == id then VA_INVALID else old(renderTargets[j])
        invariant forall j :: k <= j < renderTargets.Length ==> renderTargets[j] == old(renderTargets[j])
        invariant listed <==> id in old(renderTargets[..])[..k]
      {
        assert old(renderTargets[..])[..k + 1] == old(renderTargets[..])[..k] + [old(renderTargets[k])];
        if renderTargets[k] == id {
          renderTargets[k] := VA_INVALID;
          listed := true;
        }
      }
      assert old(renderTargets[..])[..renderTargets.Length] == old(renderTargets[..]);
      assert renderTargets[..] == Unregister(old(renderTargets[..]), id);
    }

    method DestroySurface(id: nat)
      requires Valid()
      modifies renderTargets, this`surfaces, this`currentSurface, this`nFreeCap, freeCapBufs, bufOwner
      ensures Valid() && View() == Bridge.DestroySurface(old(View()), id)
    {
      if id !in surfaces {
        return;
      }
      var b := surfaces[id];
      var listed := UnregisterTarget(id);
      if listed && b >= 0 && b < captureBufsAllocd {
        if cfg.codec.AV1? && modelActive {
          if b < MAX_CAP {
            bufOwner[b] := VA_INVALID;
          }
        } else {
          CapPoolPush(b);
        }
      }
      if currentSurface == Some(id) {
        currentSurface := None;
      }
      surfaces := surfaces - {id};
    }

    /** Claim-at-export. */
    method ExportSurface(id: nat, surfW: int, surfH: int, env: EnsureEnv)
      requires Valid()
      modifies this, slotBuf, bufOwner, freeCapBufs, freeOutBufs
      ensures Valid() && View() == Bridge.ExportSurface(old(View()), id, surfW, surfH, env)
    {
      hide Bridge.EnsureCapture;
      if id !in surfaces || !cfg.expbuf || surfaces[id] >= 0 {
        return;
      }
      var w := if geo.width > 0 then geo.width else surfW;
      var h := if geo.height > 0 then geo.height else surfH;
      var ok := EnsureCapture(w, h, geo.fourcc, env);
      if !ok || (id in surfaces && surfaces[id] >= 0) || nFreeCap == 0 {
        return;
      }
      nFreeCap := nFreeCap - 1;
      assert freeCapBufs[..nFreeCap] == freeCapBufs[..nFreeCap + 1][..nFreeCap];
      surfaces := surfaces[id := freeCapBufs[nFreeCap]];
    }

    // ----- runs

    /** One VA entry point. */
    method Dispatch(e: Event)
      requires Valid()
      modifies this, slotBuf, bufOwner, freeCapBufs, freeOutBufs, renderTargets
      ensures Valid() && View() == Step(old(View()), e)
    {
      hide Bridge.EndPicture, Bridge.BeginPicture, Bridge.DestroySurface, Bridge.ExportSurface;
      match e
      case Create(id) => CreateSurface(id);
      case Destroy(id) => DestroySurface(id);
      case Begin(id, allocOk) => BeginPicture(id, allocOk);
      case End(env) => EndPicture(env);
      case Export(id, w, h, env) => ExportSurface(id, w, h, env);
    }

    /** A sequence of entry points: what the whole-run results speak about. */
    method Perform(es: seq<Event>)
      requires Valid()
      modifies this, slotBuf, bufOwner, freeCapBufs, freeOutBufs, renderTargets
      ensures Valid() && View() == Run(old(View()), es)
    {
      hide Step;
      for i := 0 to |es|
        invariant Valid() && Run(View(), es[i..]) == Run(old(View()), es)
      {
        assert es[i..][1..] == es[i + 1..];
        Dispatch(es[i]);
      }
    }
  }
}
