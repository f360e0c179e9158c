/** Which backing of a surface - cpu memory, memfd or display bo - holds which written picture, with
  * EXPBUF export off. Pictures are numbered by the writes that produced them. */
module Snapshot {
  import opened Wrappers

  datatype Writer = Nobody | Cpu | Memfd | Bo

  /** A surface's backings. Each holds a numbered picture, or None when its bytes are no written picture. */
  datatype Pixels = Pixels(
    writes: nat,           // pictures written so far; the newest has this number
    last: Writer,          // last_writer
    hasPic: bool,
    ownStride: nat, ownHeight: nat,  // the surface's own layout, both positive
    stride: nat, alignedH: nat,      // capture layout of the memfd, 0 until known
    hasMemfd: bool, memfd: Option<nat>,
    hasCpu: bool, cpu: Option<nat>,
    hasBo: bool, bo: Option<nat>)

  /** The memfd is allocated on demand, in the surface's own layout. */
  function AllocMemfd(s: Pixels, ok: bool): Pixels {
    if s.hasMemfd || !ok then s else
    s.(hasMemfd := true, memfd := None,
       stride := if s.stride == 0 then s.ownStride else s.stride,
       alignedH := if s.alignedH == 0 then s.ownHeight else s.alignedH)
  }

  function Created(ownStride: nat, ownHeight: nat, memfdOk: bool): Pixels {
    AllocMemfd(Pixels(0, Nobody, false, ownStride, ownHeight, 0, 0, false, None, false, None, false, None), memfdOk)
  }

  /** New tags of the memfd: under another layout its bytes are no picture. */
  function Relabel(s: Pixels, stride: nat, alignedH: nat): Pixels {
    s.(stride := stride, alignedH := alignedH,
       memfd := if stride == s.stride && alignedH == s.alignedH then s.memfd else None)
  }

  datatype PullEnv = PullEnv(uploadOk: bool, allocOk: bool, growOk: bool, mapOk: bool)

  /** v4l2sl_surface_pull_capture: into the bo when there is one, otherwise - and when the upload fails -
    * into the memfd. */
  function Pull(s: Pixels, stride: nat, alignedH: nat, env: PullEnv): Pixels {
    if s.hasBo && env.uploadOk then
      Relabel(s, stride, alignedH).(writes := s.writes + 1, bo := Some(s.writes + 1), last := Bo, hasPic := true)
    else
      var s1 := AllocMemfd(s, env.allocOk);
      if !s1.hasMemfd || !env.growOk || !env.mapOk then s1 else
      s1.(writes := s.writes + 1, memfd := Some(s.writes + 1), last := Memfd, hasPic := true,
          stride := stride, alignedH := alignedH)
  }

  /** vaPutImage: into cpu memory, and on to the bo. Cpu memory is allocated before the image is looked up;
    * an unknown image or another format than NV12 is refused after that. */
  function Put(s: Pixels, cpuOk: bool, imageOk: bool, uploadOk: bool): Pixels {
    if !s.hasCpu && !cpuOk then s else
    if !imageOk then s.(hasCpu := true) else
    s.(writes := s.writes + 1, hasCpu := true, cpu := Some(s.writes + 1), last := Cpu,
       bo := if s.hasBo && uploadOk then Some(s.writes + 1) else s.bo)
  }

  /** v4l2sl_gbm_surface_sync */
  function Sync(s: Pixels, uploadOk: bool, mapOk: bool): Pixels {
    if !s.hasBo || s.last == Bo then s
    else if s.last == Cpu && s.hasCpu then (if uploadOk then s.(bo := s.cpu) else s)
    else if s.last == Memfd && s.hasMemfd && s.stride > 0 && s.alignedH > 0 && mapOk && uploadOk then
      s.(bo := s.memfd, last := Bo)
    else s
  }

  /** v4l2sl_gbm_surface_ensure: only a new bo is synchronised. */
  function EnsureBo(s: Pixels, createOk: bool, uploadOk: bool, mapOk: bool): Pixels {
    if s.hasBo || !createOk then s else Sync(s.(hasBo := true, bo := None), uploadOk, mapOk)
  }

  /** v4l2sl_surface_ensure_memfd; `ok` is the outcome of its grow and its two mappings. */
  function EnsureMemfd(s: Pixels, ok: bool): Pixels {
    if s.last != Bo || !s.hasBo || !s.hasMemfd || s.stride == 0 || s.alignedH == 0 || !ok then s
    else s.(memfd := s.bo, last := Memfd)
  }

  /** v4l2sl_bind_capture_export after a renegotiation: the layout tags change, the bytes do not. */
  function Rebind(s: Pixels, stride: nat, alignedH: nat, allocOk: bool, growOk: bool): Pixels {
    var s1 := AllocMemfd(s, allocOk);
    if !s1.hasMemfd || !growOk then s1 else Relabel(s1, stride, alignedH)
  }

  datatype Shown = Failed | Shows(version: Option<nat>)

  /** The refill of vaGetImage, whose result it ignores. */
  function BeforeGet(s: Pixels, refillOk: bool): Pixels {
    if !(s.last == Cpu && s.hasCpu) && s.hasPic then EnsureMemfd(s, refillOk) else s
  }

  /** vaGetImage: what it copies out. */
  function Get(s: Pixels, refillOk: bool, mapOk: bool): Shown {
    var s1 := BeforeGet(s, refillOk);
    if s.last == Cpu && s.hasCpu then Shows(s.cpu)
    else if s1.hasMemfd then (if mapOk then Shows(s1.memfd) else Failed)
    else if s1.hasCpu then Shows(s1.cpu)
    else Failed
  }

  datatype Event =
    | DoPull(stride: nat, alignedH: nat, pull: PullEnv)
    | DoPut(cpuOk: bool, imageOk: bool, uploadOk: bool)
    | DoExport(createOk: bool, uploadOk: bool, mapOk: bool)
    | DoRefill(ok: bool)
    | DoRebind(stride: nat, alignedH: nat, allocOk: bool, growOk: bool)
    | DoGet(refillOk: bool, mapOk: bool)

  function Step(s: Pixels, e: Event): Pixels {
    match e
    case DoPull(stride, alignedH, env) => Pull(s, stride, alignedH, env)
    case DoPut(cpuOk, imageOk, uploadOk) => Put(s, cpuOk, imageOk, uploadOk)
    case DoExport(createOk, uploadOk, mapOk) => EnsureBo(s, createOk, uploadOk, mapOk)
    case DoRefill(ok) => EnsureMemfd(s, ok)
    case DoRebind(stride, alignedH, allocOk, growOk) => Rebind(s, stride, alignedH, allocOk, growOk)
    case DoGet(refillOk, _) => BeforeGet(s, refillOk)
  }

  function Run(s: Pixels, es: seq<Event>): Pixels
    decreases |es|
  {
    if es == [] then s else Run(Step(s, es[0]), es[1..])
  }

  /** Capture layouts are positive. */
  predicate Admissible(e: Event) {
    match e
    case DoPull(stride, alignedH, _) => stride > 0 && alignedH > 0
    case DoRebind(stride, alignedH, _, _) => stride > 0 && alignedH > 0
    case _ => true
  }

  // ----- the invariants

  /** What holds in every state whatever fails. */
  ghost predicate Sane(s: Pixels) {
    && s.ownStride > 0 && s.ownHeight > 0
    && (s.hasMemfd || s.last == Memfd || s.last == Bo ==> s.stride > 0 && s.alignedH > 0)
    && (s.last == Nobody <==> s.writes == 0)
    && (s.last == Cpu ==> s.hasCpu)
    && (s.last == Memfd ==> s.hasMemfd && s.hasPic)
    && (s.last == Bo ==> s.hasBo && s.hasPic)
    && (s.cpu.Some? ==> s.hasCpu && s.cpu.value <= s.writes && (s.cpu.value == s.writes ==> s.last == Cpu))
    && (s.memfd.Some? ==> s.hasMemfd && s.memfd.value <= s.writes)
    && (s.bo.Some? ==> s.hasBo && s.bo.value <= s.writes)
  }

  /** The backing named by last_writer holds the newest picture. */
  ghost predicate TagTrue(s: Pixels) {
    match s.last
    case Nobody => true
    case Cpu => s.cpu == Some(s.writes)
    case Memfd => s.memfd == Some(s.writes)
    case Bo => s.bo == Some(s.writes)
  }

  /** A bo, once there is a picture, holds the newest one. */
  ghost predicate BoFresh(s: Pixels) {
    s.hasBo && s.writes > 0 ==> s.bo == Some(s.writes)
  }

  lemma StepSane(s: Pixels, e: Event)
    requires Sane(s) && Admissible(e)
    ensures Sane(Step(s, e))
  {
    hide Sane, Pull, EnsureBo, Rebind;
    match e
    case DoPull(stride, alignedH, env) => PullSane(s, stride, alignedH, env);
    case DoExport(createOk, uploadOk, mapOk) => ExportSane(s, createOk, uploadOk, mapOk);
    case DoRebind(stride, alignedH, allocOk, growOk) => RebindSane(s, stride, alignedH, allocOk, growOk);
    case _ => OtherSane(s, e);
  }

  lemma PullSane(s: Pixels, stride: nat, alignedH: nat, env: PullEnv)
    requires Sane(s) && stride > 0 && alignedH > 0
    ensures Sane(Pull(s, stride, alignedH, env))
  {
  }

  lemma ExportSane(s: Pixels, createOk: bool, uploadOk: bool, mapOk: bool)
    requires Sane(s)
    ensures Sane(EnsureBo(s, createOk, uploadOk, mapOk))
  {
  }

  lemma RebindSane(s: Pixels, stride: nat, alignedH: nat, allocOk: bool, growOk: bool)
    requires Sane(s) && stride > 0 && alignedH > 0
    ensures Sane(Rebind(s, stride, alignedH, allocOk, growOk))
  {
  }

  lemma OtherSane(s: Pixels, e: Event)
    requires Sane(s) && (e.DoPut? || e.DoRefill? || e.DoGet?)
    ensures Sane(Step(s, e))
  {
  }

  /** A new layout is put on the only up-to-date copy. */
  predicate LosesPicture(s: Pixels, e: Event) {
    && e.DoRebind? && e.growOk && s.last == Memfd
    && (e.stride != s.stride || e.alignedH != s.alignedH)
  }

  /** The tag stays true in every step except exactly that one. */
  lemma StepTag(s: Pixels, e: Event)
    requires Sane(s) && TagTrue(s) && Admissible(e)
    ensures TagTrue(Step(s, e)) <==> !LosesPicture(s, e)
  {
  }

  /** A write that is not carried to the bo, or a new bo that is not filled. */
  predicate UploadLost(s: Pixels, e: Event) {
    match e
    case DoPull(_, _, env) => s.hasBo && !env.uploadOk && (s.hasMemfd || env.allocOk) && env.growOk && env.mapOk
    case DoPut(cpuOk, imageOk, uploadOk) => s.hasBo && !uploadOk && imageOk && (s.hasCpu || cpuOk)
    case DoExport(createOk, uploadOk, mapOk) =>
      !s.hasBo && createOk && s.writes > 0 && (!uploadOk || (s.last == Memfd && !mapOk))
    case _ => false
  }

  /** The bo stays up to date in every step except exactly those. */
  lemma StepBo(s: Pixels, e: Event)
    requires Sane(s) && TagTrue(s) && BoFresh(s) && Admissible(e)
    ensures BoFresh(Step(s, e)) <==> !UploadLost(s, e)
  {
  }

  ghost predicate Coherent(s: Pixels) {
    Sane(s) && TagTrue(s) && BoFresh(s)
  }

  /** Coherence is kept in every step except exactly those that lose a picture or an upload. */
  lemma StepCoherent(s: Pixels, e: Event)
    requires Coherent(s) && Admissible(e)
    ensures Coherent(Step(s, e)) <==> !LosesPicture(s, e) && !UploadLost(s, e)
  {
    hide Step, Sane, TagTrue, BoFresh, LosesPicture, UploadLost;
    StepSane(s, e);
    StepTag(s, e);
    StepBo(s, e);
  }

  ghost predicate AdmissibleRun(es: seq<Event>) {
    forall e :: e in es ==> Admissible(e)
  }

  /** No event of the run loses a picture or an upload. */
  ghost predicate CleanRun(s: Pixels, es: seq<Event>)
    decreases |es|
  {
    es == [] || (!LosesPicture(s, es[0]) && !UploadLost(s, es[0]) && CleanRun(Step(s, es[0]), es[1..]))
  }

  ghost predicate CoherentThroughout(s: Pixels, es: seq<Event>)
    decreases |es|
  {
    Coherent(s) && (es == [] || CoherentThroughout(Step(s, es[0]), es[1..]))
  }

  lemma CreatedCoherent(ownStride: nat, ownHeight: nat, memfdOk: bool)
    requires ownStride > 0 && ownHeight > 0
    ensures Coherent(Created(ownStride, ownHeight, memfdOk))
  {
  }

  /** Main result on runs: coherence holds throughout a run if and only if the run is clean. */
  lemma {:induction false} RunCoherent(s: Pixels, es: seq<Event>)
    requires Coherent(s) && AdmissibleRun(es)
    ensures CoherentThroughout(s, es) <==> CleanRun(s, es)
    ensures CleanRun(s, es) ==> Coherent(Run(s, es))
    decreases |es|
  {
    hide Step, Coherent, LosesPicture, UploadLost;
    if es != [] {
      assert es[0] in es && forall e :: e in es[1..] ==> e in es;
      StepCoherent(s, es[0]);
      if Coherent(Step(s, es[0])) { RunCoherent(Step(s, es[0]), es[1..]); }
    }
  }

  /** When vaGetImage reads the newest picture, exactly: its mapping works, and a refill that fails finds a
    * memfd that is up to date anyway. */
  lemma GetLatest(s: Pixels, refillOk: bool, mapOk: bool)
    requires Sane(s) && TagTrue(s) && s.writes > 0
    ensures Get(s, refillOk, mapOk) == Shows(Some(s.writes)) <==>
            match s.last
            case Cpu => true
            case Memfd => mapOk
            case _ => mapOk && s.hasMemfd && (refillOk || s.memfd == Some(s.writes))
  {
  }

  /** Main result on readers: after any clean run in which something was written, vaGetImage - its mappings
    * working - and the exported bo both show the last written picture. */
  lemma GetAndExportAgree(s: Pixels, es: seq<Event>, createOk: bool)
    requires Coherent(s) && AdmissibleRun(es) && CleanRun(s, es) && Run(s, es).writes > 0
    ensures var t := Run(s, es);
            && (t.hasMemfd ==> Get(t, true, true) == Shows(Some(t.writes)))
            && (EnsureBo(t, createOk, true, true).hasBo ==> EnsureBo(t, createOk, true, true).bo == Some(t.writes))
  {
    RunCoherent(s, es);
    var t := Run(s, es);
    GetLatest(t, true, true);
    StepBo(t, DoExport(createOk, true, true));
    assert EnsureBo(t, createOk, true, true).writes == t.writes;
  }

  /** From the creation of a surface on: coherence throughout exactly the clean runs, and agreeing readers after
    * them. */
  lemma CreatedAgrees(ownStride: nat, ownHeight: nat, memfdOk: bool, es: seq<Event>, createOk: bool)
    requires ownStride > 0 && ownHeight > 0 && AdmissibleRun(es)
    ensures var s := Created(ownStride, ownHeight, memfdOk);
            var t := Run(s, es);
            && (CoherentThroughout(s, es) <==> CleanRun(s, es))
            && (CleanRun(s, es) && t.writes > 0 ==>
                  && (t.hasMemfd ==> Get(t, true, true) == Shows(Some(t.writes)))
                  && (EnsureBo(t, createOk, true, true).hasBo ==>
                        EnsureBo(t, createOk, true, true).bo == Some(t.writes)))
  {
    hide Coherent, Run, Get, EnsureBo;
    CreatedCoherent(ownStride, ownHeight, memfdOk);
    var s := Created(ownStride, ownHeight, memfdOk);
    RunCoherent(s, es);
    if CleanRun(s, es) && Run(s, es).writes > 0 { GetAndExportAgree(s, es, createOk); }
  }

  /** The hypotheses are needed. An upload that fails leaves the bo behind although the write succeeded; a
    * refill that fails makes vaGetImage succeed with an older picture. */
  lemma StaleReaders()
    ensures var s := Created(64, 64, true);
            var works := PullEnv(true, true, true, true);
            && (var t := Run(s, [DoPut(true, true, true), DoExport(true, true, true), DoPut(true, true, false)]);
                t.writes == 2 && EnsureBo(t, true, true, true).bo == Some(1) && Get(t, true, true) == Shows(Some(2)))
            && (var t := Run(s, [DoPull(64, 64, works), DoExport(true, true, true), DoPull(64, 64, works)]);
                t.writes == 2 && EnsureBo(t, true, true, true).bo == Some(2) && Get(t, false, true) == Shows(Some(1)))
  {
    var s := Created(64, 64, true);
    var works := PullEnv(true, true, true, true);
    var e1, e2, e3 := DoPut(true, true, true), DoExport(true, true, true), DoPut(true, true, false);
    RunThree(s, e1, e2, e3);
    var p := DoPull(64, 64, works);
    RunThree(s, p, e2, p);
  }

  lemma RunThree(s: Pixels, a: Event, b: Event, c: Event)
    ensures Run(s, [a, b, c]) == Step(Step(Step(s, a), b), c)
  {
    var s1 := Step(s, a);
    var s2 := Step(s1, b);
    assert [a, b, c][1..] == [b, c] && [b, c][1..] == [c] && [c][1..] == [];
    assert Run(s2, [c]) == Step(s2, c);
    assert Run(s1, [b, c]) == Run(s2, [c]);
  }
}
