/** A picture from its inputs: which capture index it uses, and on which exit it ends. */
module Picture {
  import opened Wrappers
  import opened V4l2Kernel
  import opened Bridge
  import opened Ownership
  import opened Submit
  import opened Invariant
  import opened Exclusive

  /** The picture decodes into the buffer its surface has claimed. */
  predicate UsesClaim(s: State, env: EndEnv) {
    s.Claimed() && !PictureRenegotiates(s, env)
  }

  predicate HasCapture(s: State, env: EndEnv) {
    UsesClaim(s, env) || |PoolOf(s, env)| > 0
  }

  /** The capture index of the picture: the claim, or the last of the pool. */
  function Pick(s: State, env: EndEnv): int
    requires HasCapture(s, env)
  {
    if UsesClaim(s, env) then s.held[s.current.value] else PoolOf(s, env)[|PoolOf(s, env)| - 1]
  }

  /** Both buffers are queued. */
  predicate Queues(s: State, env: EndEnv) {
    Reaches(s, env) && HasCapture(s, env) && env.submit.qbufOut && env.submit.qbufCap
  }

  /** The kernel hands the picture's buffer back. */
  predicate Returns(s: State, env: EndEnv) {
    Queues(s, env) && env.submit.submitted && env.submit.polled && env.submit.dqCap == Some(Pick(s, env))
  }

  /** The picture ends in a reset. */
  predicate Resets(s: State, env: EndEnv) {
    Queues(s, env) && !Returns(s, env)
  }

  /** Every ioctl of the picture succeeds. */
  predicate Decodes(s: State, env: EndEnv) {
    Returns(s, env) && !env.submit.capError
  }

  /** The picture is copied out: its buffer can be mapped, which stops at 24, and its copy works. */
  predicate Delivers(s: State, env: EndEnv) {
    Decodes(s, env) && Pick(s, env) < NUM_CAP && env.copyOutOk
  }

  /** Main result on pictures: the outcome of every exit in terms of the inputs. */
  lemma PictureExit(s: State, env: EndEnv)
    requires Basic(s) && s.request && s.current.Some? && (env.streamOut ==> env.streamCap) && Reaches(s, env)
    ensures var (p, out) := Prepare(s, env);
            && out.Some? && (ChooseCapture(p).Some? <==> HasCapture(s, env))
            && (HasCapture(s, env) ==> Chosen(p) == Pick(s, env) && 0 <= Pick(s, env) < Min(p.capAllocd, MAX_CAP))
            && var (t, r) := DecodeSubmit(p, out.value, SubmittedMask(s, env), env.submit);
               && (r >= 0 <==> Decodes(s, env))
               && (r >= 0 ==> r == Pick(s, env))
               && (r < 0 && !t.streamed <==> Resets(s, env))
               && (r >= 0 ==> (PullWorks(t, r, env.copyOutOk) <==> Delivers(s, env)))
  {
    hide Prepare, DecodeSubmit, Basic, Reaches, PoolOf, CapturesOf, PictureRenegotiates;
    PrepareKeeps(s, env);
    var (p, out) := Prepare(s, env);
    PickIsChosen(s, env);
    SubmitAccounted(p, out.value, SubmittedMask(s, env), env.submit);
    if HasCapture(s, env) {
      ChosenInRange(p);
      SubmitBranch(p, out.value, SubmittedMask(s, env), env.submit);
    } else {
      Starved(p, out.value, SubmittedMask(s, env), env.submit);
    }
  }

  lemma PickIsChosen(s: State, env: EndEnv)
    requires Basic(s) && s.request && s.current.Some? && (env.streamOut ==> env.streamCap) && Reaches(s, env)
    ensures var p := Prepare(s, env).0;
            && (ChooseCapture(p).Some? <==> HasCapture(s, env))
            && (HasCapture(s, env) ==> Chosen(p) == Pick(s, env))
  {
    hide Prepare, Basic, PoolOf, CapturesOf;
    PrepareKeeps(s, env);
    var p := Prepare(s, env).0;
    if PictureRenegotiates(s, env) {
      assert !p.Holds(p.current.value);
    }
  }

  lemma Starved(p: State, out: int, mask: Mask, env: SubmitEnv)
    requires Ready(p, out) && ChooseCapture(p).None?
    ensures DecodeSubmit(p, out, mask, env) == (p.PushOut(out), -1)
  {
  }
}
