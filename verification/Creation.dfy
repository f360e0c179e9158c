/** What vaCreateContext establishes, and the whole-run results from there on. */
module Creation {
  import opened Wrappers
  import opened Pools
  import opened V4l2Kernel
  import opened Bridge
  import opened Ownership
  import opened Invariant
  import opened Exclusive
  import opened Conservation
  import opened Av1Slots
  import opened CopyOut
  import opened Places
  import opened Epochs
  import opened Delivery

  /** The inputs of one vaCreateContext: `live` are the driver's surfaces, `granted` the OUTPUT buffers, `first`
    * and `second` the capture requests, the second one for NV12. */
  datatype Opening = Opening(
    cfg: Config, w: int, h: int, fourcc: nat, targets: seq<nat>, live: set<nat>, granted: nat,
    first: EnsureEnv, second: EnsureEnv, streamOut: bool, streamCap: bool)

  function Create(o: Opening): Option<State> {
    CreateContext(o.cfg, o.w, o.h, o.fourcc, o.targets, o.live, o.granted, o.first, o.second, o.streamOut, o.streamCap)
  }

  /** Surface IDs are real ones, and STREAMON of the pair is all or nothing. */
  ghost predicate Proper(o: Opening) {
    VA_INVALID !in o.live && (o.streamOut ==> o.streamCap)
  }

  /** The capture buffers of a created context; H.264 requests them with its first picture. */
  function GrantedAtCreation(o: Opening): nat {
    if o.cfg.codec.H264? then 0
    else if GrantedBy(o.first.attempts) > 0 then GrantedBy(o.first.attempts) else GrantedBy(o.second.attempts)
  }

  /** Nothing is held or referenced yet, and what is granted below 24 is pooled. */
  ghost predicate Pristine(o: Opening, s: State) {
    && s.cfg == o.cfg && FreshCapture(s) && s.capAllocd == GrantedAtCreation(o)
    && s.freeCap == Upto(Min(s.capAllocd, NUM_CAP))
    && (forall id :: id in s.held ==> s.held[id] < 0)
  }

  lemma OpenedPristine(o: Opening)
    requires Proper(o)
    ensures var s := Opened(o.cfg, o.w, o.h, o.targets, o.live, o.granted);
            && Sound(s) && OutputCovered(s) && FreshCapture(s) && (forall id :: id in s.held ==> s.held[id] == -1)
            && s.freeCap == Upto(0) && s.kernel.out.queued == {} && !s.kernel.fault && !s.streamed
  {
    OpenedBasic(o.cfg, o.w, o.h, o.targets, o.live, o.granted);
    var s := Opened(o.cfg, o.w, o.h, o.targets, o.live, o.granted);
    assert forall id :: !s.Holds(id);
    FreshOwned(s);
  }

  /** One capture request on a context that has no capture buffers. */
  lemma RequestPristine(s: State, w: int, h: int, fourcc: nat, env: EnsureEnv)
    requires Sound(s) && OutputCovered(s) && FreshCapture(s) && s.capAllocd == 0 && s.geo.capW == 0
    requires s.kernel.out.queued == {} && !s.kernel.fault && (forall id :: id in s.held ==> s.held[id] == -1)
    requires s.freeCap == Upto(0) && !s.streamed
    ensures var (t, ok) := EnsureCapture(s, w, h, fourcc, env);
            && Sound(t) && OutputCovered(t) && FreshCapture(t) && !t.kernel.fault && t.kernel.out.queued == {}
            && t.cfg == s.cfg && (forall id :: id in t.held ==> t.held[id] == -1) && !t.streamed
            && (ok ==> t.capAllocd == GrantedBy(env.attempts) > 0 && w > 0 && h > 0)
            && (w > 0 && h > 0 ==> (ok <==> GrantedBy(env.attempts) > 0))
            && (!ok ==> t.capAllocd == 0 && t.geo.capW == 0)
            && t.freeCap == Upto(Min(t.capAllocd, NUM_CAP))
  {
    hide Teardown, TryCapture, Basic;
    EnsureOwned(s, w, h, fourcc, env);
    EnsureKeeps(s, w, h, fourcc, env);
    EnsureSettled(s, w, h, fourcc, env);
    EnsureConservesOutput(s, w, h, fourcc, env);
    GeoKept(s, w, h, fourcc, env);
    var (t, ok) := EnsureCapture(s, w, h, fourcc, env);
    assert t.model == s.model;
  }

  lemma GeoKept(s: State, w: int, h: int, fourcc: nat, env: EnsureEnv)
    ensures var (t, ok) := EnsureCapture(s, w, h, fourcc, env); !ok ==> t.geo == s.geo
  {
  }

  /** Main result on creation: a created context satisfies every invariant the whole-run results start from. */
  lemma CreatedPristine(o: Opening)
    requires Proper(o) && Create(o).Some?
    ensures var s := Create(o).value;
            && Sound(s) && !s.kernel.fault && OutputCovered(s) && Pristine(o, s)
  {
    hide EnsureCapture, Basic, Sound;
    OpenedPristine(o);
    var s := Opened(o.cfg, o.w, o.h, o.targets, o.live, o.granted);
    RequestPristine(s, o.w, o.h, o.fourcc, o.first);
    var (s1, ok1) := EnsureCapture(s, o.w, o.h, o.fourcc, o.first);
    if !ok1 { RequestPristine(s1, o.w, o.h, NV12, o.second); }
    var (s2, ok2) := if ok1 || o.fourcc == NV12 then (s1, ok1) else EnsureCapture(s1, o.w, o.h, NV12, o.second);
    if ok2 { StreamsPristine(s2, o.streamOut, o.streamCap); }
  }

  lemma StreamsPristine(s: State, streamOut: bool, streamCap: bool)
    requires Sound(s) && OutputCovered(s) && FreshCapture(s) && s.capAllocd > 0 && (streamOut ==> streamCap)
    requires !s.streamed && !s.kernel.fault
    ensures var t := StreamQueues(s, streamOut, streamCap).0;
            && (s.outAllocd > 0 ==> !t.kernel.fault) && Sound(t) && OutputCovered(t) && FreshCapture(t)
            && t == s.(streamed := t.streamed, kernel := t.kernel)
  {
    StreamQueuesKeeps(s, streamOut, streamCap);
    var t := StreamQueues(s, streamOut, streamCap).0;
    assert forall id :: t.Holds(id) <==> s.Holds(id);
    FreshOwned(t);
  }

  /** For the codecs without a slot model every capture index is then in exactly one place if and only if at most
    * 24 buffers were granted. */
  lemma CreatedConserved(o: Opening)
    requires Proper(o) && Create(o).Some?
    ensures Conserved(Create(o).value) <==> !o.cfg.codec.AV1? && GrantedAtCreation(o) <= NUM_CAP
  {
    hide Create, Basic, Disjoint, Tracked;
    CreatedPristine(o);
    var s := Create(o).value;
    if Conserved(s) {
      assert !HeldBySomeone(s, NUM_CAP);
    }
    if s.capAllocd <= NUM_CAP {
      forall x | 0 <= x < s.capAllocd ensures x in s.freeCap { assert s.freeCap[x] == x; }
    }
  }

  lemma CreatedMatches(o: Opening)
    requires Proper(o) && Create(o).Some?
    ensures Matches(Create(o).value) && Mappable(Create(o).value)
  {
    hide Create, Sound;
    CreatedPristine(o);
  }

  /** An AV1 context in copying mode starts without debt and with nothing lost. */
  lemma CreatedFree(o: Opening)
    requires Proper(o) && Create(o).Some? && o.cfg.codec.AV1? && !o.cfg.expbuf
    ensures var s := Create(o).value; CopyMode(s) && Loose(s) == {} && Lost(s) == {}
  {
    hide Create;
    CreatedPristine(o);
    var s := Create(o).value;
    forall x ensures x !in Loose(s) {
      LooseIs(s, x);
      if 0 <= x < Usable(s) { assert s.freeCap[x] == x; }
    }
  }

  // ----- runs from a creation

  /** Main result, legality and ownership: from a creation on, in both modes and with every failure, the ioctl
    * trace is legal until a picture streams without OUTPUT buffers, and ownership is disjoint throughout exactly
    * when no claim is recycled. */
  lemma CreatedOwned(o: Opening, es: seq<Event>)
    requires Proper(o) && Create(o).Some? && AdmissibleRun(Create(o).value, es)
    ensures var s := Create(o).value;
            && Basic(Run(s, es)) && (Run(s, es).kernel.fault <==> RefusedInRun(s, es))
            && (DisjointThroughout(s, es) <==> CleanRun(s, es))
            && (!o.cfg.expbuf ==> DisjointThroughout(s, es))
  {
    hide Create, Run, AdmissibleRun, CleanRun, Basic, Disjoint, Tracked;
    CreatedPristine(o);
    var s := Create(o).value;
    RunKeeps(s, es);
    RunOwned(s, es);
    if !o.cfg.expbuf { CopyModeOwned(s, es); }
  }

  /** Main result, conservation: the capture indices for the codecs without a slot model, the OUTPUT indices for
    * all. */
  lemma CreatedConserves(o: Opening, es: seq<Event>)
    requires Proper(o) && Create(o).Some? && AdmissibleRun(Create(o).value, es)
    ensures var s := Create(o).value;
            && (ConservedThroughout(s, es) <==>
                  !o.cfg.codec.AV1? && GrantedAtCreation(o) <= NUM_CAP && CleanRun(s, es) && LosslessRun(s, es))
            && (OutputsThroughout(s, es) <==> OutputLosslessRun(s, es))
  {
    hide Create, Run, AdmissibleRun, CleanRun, LosslessRun, OutputLosslessRun, Disjoint, Tracked;
    CreatedPristine(o);
    CreatedConserved(o);
    var s := Create(o).value;
    if Conserved(s) { RunConserves(s, es); }
    RunOutputs(s, es);
  }

  /** Main result, AV1: the slot table agrees with the kernel's throughout exactly the runs without a missed copy-out,
    * and every index stays below 24 throughout exactly when no reset finds more than 24 buffers. */
  lemma CreatedFollows(o: Opening, es: seq<Event>)
    requires Proper(o) && Create(o).Some? && AdmissibleRun(Create(o).value, es)
    ensures var s := Create(o).value;
            && (MatchesThroughout(s, es) <==> !MissedInRun(s, es))
            && (MappableThroughout(s, es) <==> NoOverflow(s, es))
  {
    hide Create, Run, AdmissibleRun, MissedInRun, Basic, Disjoint, Tracked, Mappable, Matches;
    CreatedPristine(o);
    CreatedMatches(o);
    var s := Create(o).value;
    RunMatches(s, es);
    RunMappable(s, es);
  }

  /** Main result, AV1 liveness in copying mode: what is away after any run is the slot buffers and the run's debt,
    * no index leaves every place exactly when no event leaks, and inside the first epoch at most eight are away. */
  lemma CreatedAway(o: Opening, es: seq<Event>)
    requires Proper(o) && Create(o).Some? && o.cfg.codec.AV1? && !o.cfg.expbuf
    requires AdmissibleRun(Create(o).value, es)
    ensures var s := Create(o).value;
            && Away(Run(s, es)) == InSlots(Run(s, es)) + RunDebt(s, es, {})
            && |Away(Run(s, es))| <= REFS + |RunDebt(s, es, {})|
            && (PlacedThroughout(s, es) <==> LeakFree(s, es))
            && (EpochRun(s, es) ==> |Away(Run(s, es))| <= REFS)
  {
    hide Create, Run, AdmissibleRun, EpochRun, CopyMode, Loose, Lost, Away;
    CreatedFree(o);
    var s := Create(o).value;
    RunAway(s, es);
    CreatedPristine(o);
    CopyModeOwned(s, es);
    RunOwned(s, es);
    RunPlaces(s, es);
    if EpochRun(s, es) { EpochBounded(s, es); }
  }
}
