/** The V4L2 side of a decode context: two buffer queues, the decoder's reference table, and a
  * monitor that remembers whether any ioctl was issued in a state in which V4L2 refuses it. A refused
  * ioctl changes nothing else; whether a legal one succeeds is the environment's choice, passed in by the
  * caller.
  */
module V4l2Kernel {
  import opened Wrappers

  const REFS := 8  // V4L2_AV1_TOTAL_REFS_PER_FRAME
  const NO_REFS: seq<int> := [-1, -1, -1, -1, -1, -1, -1, -1]

  /** One entry per reference slot. */
  type Slots = s: seq<int> | |s| == REFS witness NO_REFS

  type Mask = m: nat | m < 256  // refresh_frame_flags

  datatype QueueId = Output | Capture

  /** `queued` are the buffers handed to the device that neither DQBUF nor STREAMOFF has given back. */
  datatype Queue = Queue(allocd: nat, streaming: bool, queued: set<int>)

  datatype Kernel = Kernel(out: Queue, cap: Queue, refs: Slots, fault: bool) {
    function At(q: QueueId): Queue {
      if q.Output? then out else cap
    }

    function With(q: QueueId, queue: Queue): Kernel {
      if q.Output? then this.(out := queue) else this.(cap := queue)
    }

    function Judge(legal: bool): Kernel {
      this.(fault := fault || !legal)
    }

    /** VIDIOC_S_FMT: refused while the queue owns buffers. A new coded format also resets the
      * decoded format, so it is refused while decoded buffers exist. */
    function SetFormat(q: QueueId): Kernel {
      Judge(At(q).allocd == 0 && (q.Output? ==> cap.allocd == 0))
    }

    /** VIDIOC_REQBUFS with count 0. */
    function FreeBuffers(q: QueueId, ok: bool): Kernel {
      var k := Judge(!At(q).streaming);
      if ok && !At(q).streaming then k.With(q, At(q).(allocd := 0, queued := {})) else k
    }

    /** VIDIOC_REQBUFS with a positive count; `granted` is what the driver returns, 0 on failure. */
    function AllocBuffers(q: QueueId, granted: nat): Kernel {
      var legal := At(q).allocd == 0 && !At(q).streaming;
      if legal then With(q, At(q).(allocd := granted, queued := {})) else Judge(false)
    }

    predicate Streamable(q: QueueId) {
      At(q).allocd > 0
    }

    /** VIDIOC_STREAMON: refused on a queue without buffers. */
    function StreamOn(q: QueueId, ok: bool): Kernel {
      var k := Judge(Streamable(q));
      if ok && Streamable(q) then k.With(q, At(q).(streaming := true)) else k
    }

    /** VIDIOC_STREAMOFF hands every queued buffer back and drops the decoder's references. */
    function StreamOff(q: QueueId): Kernel {
      With(q, At(q).(streaming := false, queued := {})).(refs := NO_REFS)
    }

    function Enqueue(q: QueueId, idx: int, ok: bool): Kernel {
      var legal := 0 <= idx < At(q).allocd && idx !in At(q).queued && At(q).streaming;
      if ok && legal then With(q, At(q).(queued := At(q).queued + {idx})) else Judge(legal)
    }

    /** VIDIOC_DQBUF can only return a queued buffer; any other answer counts as a failure. */
    function Answer(q: QueueId, reply: Option<int>): Option<int> {
      if reply.Some? && reply.value in At(q).queued then reply else None
    }

    function Dequeue(q: QueueId, reply: Option<int>): Kernel {
      if Answer(q, reply).None? then this
      else With(q, At(q).(queued := At(q).queued - {reply.value}))
    }

    /** The reference frame update process of section 7.20 of the AV1 specification: the decoded
      * buffer enters every slot its refresh mask names. */
    function Refresh(mask: Mask, buf: int): Kernel {
      this.(refs := Refreshed(refs, mask, buf))
    }
  }

  function Bit(mask: nat, s: nat): bool {
    if s == 0 then mask % 2 == 1 else Bit(mask / 2, s - 1)
  }

  function Refreshed(slots: Slots, mask: Mask, buf: int): (r: Slots)
    ensures forall s :: 0 <= s < REFS ==> r[s] == if Bit(mask, s) then buf else slots[s]
  {
    seq(REFS, s requires 0 <= s < REFS => if Bit(mask, s) then buf else slots[s])
  }
}
