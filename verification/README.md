# Verification of the stateless VA-API bridge

The driver translates VA-API decoding into the V4L2 stateless interface. At its core it moves buffer
indices between free pools, VA surfaces and two kernel queues; an AV1 reference-slot model, a frame
header parser, and a set of layout conversions sit on top. This project models these parts and proves
what they keep over whole runs. `dafny verify dfyconfig.toml` (Dafny 4.11) checks all of it.

## The parts

**Ownership of buffers** (`Pools`, `MaskBits`, `V4l2Kernel`, `Bridge`, `Ownership`, `Submit`,
`SlotRelease`, `Invariant`, `Exclusive`, `Picture`, `Conservation`, `Av1Slots`, `CopyOut`, `Places`,
`Epochs`, `Delivery`, `Claims`, `Creation`, `Counterexamples`, `DecodeContext`). One decode context. `V4l2Kernel`
is the kernel side: per queue the allocated count, the streaming flag and the queued set, the
eight-entry reference table updated as section 7.20 of the AV1 specification says, and a monitor that
remembers whether any ioctl was issued where V4L2 refuses it; a refused ioctl changes nothing else.
Whether a legal ioctl succeeds, and what it returns, is a parameter of the call, so the theorems hold
for every combination of outcomes. `Bridge` specifies the entry points as functions on states; a run is
a sequence of them, because the global lock makes each one atomic. Every condition of a whole-run
result is over the state before an event and the event's inputs (`Invariant`, `Picture`); `Creation`
shows that vaCreateContext establishes what the runs start from. `DecodeContext.Context` is the context
as the driver keeps it - fixed arrays with counters, updated in place. Each of its methods is proved to
compute the corresponding function, and `Perform` a whole run, so the results on runs are about it.

**AV1 bitstream and reference logic** (`OrderHint`, `SkipMode`, `BitReader`, `FrameHeader`, `ObuWalk`,
`RefreshRules`, `RefreshInference`, `Tiles`, `Av1Frame`). A printer of uncompressed headers inside OBUs
(sections 5.9.2, 5.3.2 and 4.10.5 of the AV1 specification) is the partner of the parser. `ObuWalk.Pic` is
what the parser compares with. `Av1Frame` goes from the client's slice buffers to the inputs of a picture of
`Bridge`, and on to what the mask does to the kernel's references and the slot model.

**Surfaces** (`SurfaceIds`, `Memory`, `Planes`, `Snapshot`, `SurfacePixels`). The ID allocator, and the
three backings of a surface. `Snapshot` numbers the written pictures and says which backing holds which
number; `SurfacePixels.Surface` has the byte buffers and keeps their contents equal to those pictures.

**Conversions** (`Unpack10`, `AnnexB`). Packed 10-bit rows and Annex B streams, each with the packing or
the stream it inverts.

## Hypotheses

- One context; a surface that is decoded into or exported is one of its render targets.
- STREAMON of the two queues is all or nothing, STREAMOFF succeeds, and a decode that ends in an error
  does not enter the kernel's reference table.
- `V4l2Kernel.Queue.queued` means handed to the device and not given back by DQBUF or STREAMOFF. What the
  kernel does with an OUTPUT buffer whose request is closed unqueued is not visible in the driver.
- Copy-out results and pixel coherence are about `V4L2SL_EXPBUF_EXPORT=0`; the ownership theorems
  cover both modes and say exactly which exits break them with EXPBUF on.
- Capture layouts cover the surface, with an aligned height that is even or exceeds the visible one, and
  their plane size does not wrap; client images hold the whole NV12 picture a call transfers; the bo mapping
  has one stride of at least the chroma row.

## What does not hold, and exactly when

- *Ownership with EXPBUF on.* A failed QBUF, an errored capture buffer, a failed copy-out, or an AV1
  picture with refresh mask 0 decoded over a referenced claim pools an index its surface keeps.
  `Exclusive.StepOwned` shows these are the only exits; `Counterexamples.FailedQbufPoolsAClaim` is one.
- *Unregistered surfaces*, which src/v4l2stateless.c:856-858 expects, are invisible to the context. A reset
  leaves held and pooled indices disjoint if and only if every surface that holds an allocated index is a
  render target (`Ownership.ResetDisjoint`, `Counterexamples.ResetMissesUnregistered`), a renegotiation if and
  only if every one that holds an index of the new pool is (`Ownership.RenegotiationDisjoint`), and destroying
  one gives its buffer back if and only if it is (`Ownership.DestroyReturns`).
- *At most eight buffers away.* Away from the pool are exactly the slot buffers and a debt, whose value
  after every event is given (`CopyOut.StepDebt`, `CopyOut.RunAway`). From a reset on the bound holds in
  every epoch if and only if no surface holds a buffer at that reset (`Epochs.EpochExact`);
  `Counterexamples.ResetEpochExceedsEight` is an epoch of one picture with nine buffers away.
- *No index leaks, AV1.* A usable index leaves pool, slots and surfaces exactly when an armed re-target
  (with EXPBUF off) or destroy hits a surface whose buffer is in no slot, or a renegotiation stops short with buffers away
  (`Places.StepPlaces`, in both export modes, `Counterexamples.ArmedBeginStrands`).
- *No index leaks, other codecs and OUTPUT.* A streamed renegotiation with queued OUTPUT buffers loses
  them unless it requests the OUTPUT queue again (`Counterexamples.QueuedOutputLost`); one that stops at a
  failing REQBUFS(0) loses what surfaces held (`Counterexamples.StuckLosesCapture`); a grant of more than
  24 buffers loses the rest (`Conservation.EnsureConservesCapture`, `Conservation.EnsureConservesOutput`).
  A picture that then ends in its own reset has all OUTPUT indices back, and the CAPTURE indices up to 40;
  with that, the steps and runs are exact (`Conservation.StepConserves`, `Conservation.StepOutputs`).
- *Decoded pictures are delivered.* A reset pools the indices from 24 up, which cannot be mapped: a picture
  whose ioctls succeed is delivered exactly when its index is below 24 (`Delivery.PictureDelivers`), every
  index in use stays below 24 exactly when no reset finds more than 24 buffers (`Delivery.RunMappable`), and
  after such a reset with no surface holding a buffer no picture is delivered again until a renegotiation
  (`Delivery.ResetWedges`, `Delivery.RunWedged`). AV1 asks for 40.
- *Legal ioctls.* Streaming is attempted on an OUTPUT queue without buffers after a renegotiation
  could not request them again (`Invariant.StepKeeps`, `Counterexamples.StreamsWithoutOutputs`).
- *Slots follow the kernel* until a completed picture that overwrites a filled slot cannot be copied out
  (`Av1Slots.StepMatches`, `Counterexamples.RefreshMissed`).
- *First candidate wins.* A header with screen-content bits can match the layout without them first
  (`ObuWalk.CandidateZeroShadows`).
- *Skip mode* compares hints directly; with the nearest forward reference a full sign weight away the
  comparison wraps, and the second scan takes references at distance zero (`SkipMode.SecondScan`,
  `Counterexamples.SkipModeWraps`).
- *Oldest picture* is chosen by plain hint value, which differs from modular age exactly when the
  candidates straddle the current hint (`RefreshRules.OldestIsFarthest`, `Counterexamples.OldestStraddles`).
- *Tiles.* A tile whose 32-bit sum wraps is accepted and copied past the buffer, which needs span and
  buffer of 2^32 bytes or more together (`Tiles.SubmitTiles`, `Tiles.NeverOverruns`,
  `Tiles.TwinTilesOverrun`).
- *Stale readers.* A lost upload leaves the exported bo behind, a failed refill makes vaGetImage return
  an older picture with success, and a renegotiation that changes the layout relabels a memfd that is
  the only up-to-date copy (`Snapshot.StepBo`, `Snapshot.GetLatest`, `Snapshot.StepTag`,
  `Snapshot.StaleReaders`, `Counterexamples.RelabelLosesPicture`).
- *Sizes.* The plane size is a uint32_t. Uploading cpu memory stays inside it if and only if the size has not
  wrapped and the height is even, or the strides differ and the chroma row fits in half a stride
  (`Planes.CpuUploadExact`, `Planes.OddUploadOverruns`, `Planes.WrappedUploadOverruns`); a wrapped size does
  not even hold the luma plane (`Planes.WrappedSize`). The methods of `SurfacePixels.Surface` stop there with
  the result `Short`, exactly then. A Y210 row of odd width stores U where the last V belongs (`Unpack10.PixelPair`), and the image calls
  transfer w chroma bytes of h / 2 rows only (`Planes.Crop`).
- *Annex B.* Sizing and writing differ for a prefix length other than 3 or 4 (`AnnexB.PassesAgree`).

Where documentation and code disagree the code is followed: docs/modules/device.md:19 announces the
capture request counts 40, 24, 8, 4, but the retry with 24 is compiled out by its own condition
(src/v4l2stateless_device.c:669); the comment at src/v4l2stateless_av1.c:336 keeps the three closest
previous pictures, the code keeps the distances above -3; the header parser gives frame type 2 the
treatment of the specification's type 3 (src/v4l2stateless_av1.c:619-632), which KEY and INTER frames
do not meet.

## Model

| member | source | states |
|---|---|---|
| `Submit.SubmitAccounted` | src/v4l2stateless_device.c:438-544 | on every exit of a decode the kernel's CAPTURE queue is empty, a non-negative result is the index that was queued, the OUTPUT indices stay complete, a failed exit gave the chosen index back or went through the reset that rebuilds both pools |
| `Ownership.ResetRebuilds` | src/v4l2stateless_device.c:387-436 | a reset pools every OUTPUT index and exactly the CAPTURE indices no registered surface holds, and leaves both kernel queues empty |
| `Ownership.EnsureKeeps` | src/v4l2stateless_device.c:550-710 | on every exit of a renegotiation the structural invariant holds, no ioctl was refused, all surfaces and - when streaming - the slot model are cleared; success means a pool of the requested format |
| `Ownership.EnsureSettled` | src/v4l2stateless_device.c:550-710 | result, pools and counts after ensure_capture as determined by the request and the ioctl outcomes, before it is run |
| `Ownership.ResetDisjoint` | src/v4l2stateless_device.c:387-410 | after a reset no surface holds a pooled index if and only if every surface holding an allocated index is a render target |
| `Ownership.RenegotiationDisjoint` | src/v4l2stateless_device.c:364-381 | after a renegotiation no surface holds a pooled index if and only if it stopped before the refill or every surface holding an index of the new pool is a render target |
| `Ownership.DestroyReturns` | src/v4l2stateless.c:808-835 | destroying a surface gives its buffer back if and only if it is a render target |
| `Picture.PictureExit` | src/v4l2stateless_device.c:438-544 | on which exit a picture ends, and which index it uses, as determined by the state before it and its ioctl outcomes |
| `Invariant.StepKeeps` | src/v4l2stateless.c:1297-1526 | any entry point with any ioctl outcomes keeps the structural invariant, and V4L2 refuses an ioctl exactly when a picture, by the state before it and its inputs, starts streaming on an OUTPUT queue without buffers |
| `Invariant.RunKeeps` | src/v4l2stateless_device.c:438-710 | the same over whole runs: the ioctl trace is legal for the queue automaton unless such a picture occurs |
| `Creation.CreatedPristine` | src/v4l2stateless.c:989-1049 | a successful vaCreateContext issues only legal ioctls and establishes disjoint, tracked ownership, OUTPUT coverage, and a pool of what was granted up to 24 |
| `Creation.CreatedConserved` | src/v4l2stateless.c:989-1049 | for codecs without a slot model every capture index of a created context is in one place if and only if at most 24 were granted |
| `Creation.CreatedMatches` | src/v4l2stateless.c:989-1049 | a created context's slots agree with the kernel's table, and every index in use can be mapped |
| `Creation.CreatedOwned` | src/v4l2stateless.c:989-1526 | from creation on, in both modes: the ioctl trace is legal until exactly such a picture, and ownership is disjoint throughout if and only if no claim is recycled |
| `Creation.CreatedConserves` | src/v4l2stateless.c:989-1526 | from creation on, CAPTURE indices stay in exactly one place throughout if and only if at most 24 were granted, no claim is recycled and no step loses one; OUTPUT indices if and only if no step loses one |
| `Creation.CreatedFollows` | src/v4l2stateless.c:989-1526 | from creation on, the slot table agrees with the kernel's throughout exactly the runs without a missed copy-out, and every index in use stays below 24 exactly when no reset finds more than 24 buffers |
| `Creation.CreatedAway` | src/v4l2stateless.c:989-1526 | from creation on, an AV1 context has exactly its slot buffers and its run's debt away, loses an index exactly when an event leaks, and keeps at most eight away in its first epoch |
| `Exclusive.StepOwned` | src/v4l2stateless.c:1297-1360 | after a step no pooled index is held by a surface or in a slot, and no two surfaces hold the same one, if and only if the picture did not recycle a claimed index |
| `Exclusive.RunOwned` | src/v4l2stateless_device.c:447-520 | ownership is disjoint throughout a run, in either export mode, if and only if no step of the run recycles a claim |
| `Exclusive.CopyModeOwned` | src/v4l2stateless.c:1331-1342 | with EXPBUF off every run, with arbitrary ioctl failures, keeps ownership disjoint |
| `Conservation.EnsureConservesCapture` | src/v4l2stateless_device.c:550-710 | a renegotiation loses CAPTURE indices if and only if it stops after clearing holders or is granted more than 24 buffers |
| `Conservation.EnsureConservesOutput` | src/v4l2stateless_device.c:577-652 | a renegotiation loses OUTPUT indices if and only if some were queued and the OUTPUT queue is not requested again |
| `Conservation.StepConserves` | src/v4l2stateless.c:808-835 | for codecs without a slot model, every CAPTURE index is still in exactly one place after a step if and only if the step recycles no claim and loses no index: a renegotiation does, unless the picture's own reset of at most 40 buffers gets them back |
| `Conservation.RunConserves` | src/v4l2stateless_device.c:387-544 | throughout a run every CAPTURE index is in the pool or one surface if and only if no step recycles or loses |
| `Conservation.StepOutputs` | src/v4l2stateless_device.c:438-544 | after any step, with any failure exit, each OUTPUT index is still pooled or queued if and only if no renegotiation lost some, or the picture then ended in its own reset |
| `Conservation.RunOutputs` | src/v4l2stateless_device.c:412-544 | throughout a run each OUTPUT index is in exactly one of the pool and the kernel queue if and only if no step loses one |
| `SlotRelease.ReleaseFromReturns` | src/v4l2stateless_av1.c:1005-1034 | the slot loop from any slot on is the parallel refresh of those slots and pools exactly the buffers it removes |
| `SlotRelease.ReleaseExact` | src/v4l2stateless_av1.c:986-1035 | the slot table becomes the refreshed table of section 7.20 of the AV1 specification; a buffer returns exactly when its last slot is overwritten or its mask is zero, and its surface forgets it first |
| `Av1Slots.StepMatches` | src/v4l2stateless_av1.c:1300-1316 | filled slots keep agreeing with the kernel's reference table if and only if no completed picture that overwrites a filled slot failed to be copied out |
| `Av1Slots.RunMatches` | src/v4l2stateless_av1.c:973-1035 | throughout a run, resets and renegotiations included, every non-negative slot equals the kernel's entry if and only if there is no such picture |
| `CopyOut.AwaySplits` | src/v4l2stateless_av1.c:986-1035 | away from the pool are exactly the usable slot buffers, at most eight, and the debt |
| `CopyOut.StepDebt` | src/v4l2stateless.c:1331-1342 | the debt, and the indices in no place at all, after every event: exact, so they shrink when a buffer returns |
| `Places.StepPlaces` | src/v4l2stateless.c:817-835 | in both export modes, every usable index of an AV1 context stays in the pool, a slot or a surface after an event if and only if the event neither strands a buffer of an armed model nor stops a renegotiation short with buffers away |
| `Places.RunPlaces` | src/v4l2stateless_av1.c:986-1035 | the same throughout whole runs while ownership stays disjoint |
| `CopyOut.RunAway` | src/v4l2stateless_av1.c:986-1035 | after any run, with any failure, the buffers away are exactly the slot buffers and the run's debt |
| `Epochs.EpochBounded` | src/v4l2stateless_av1.c:986-1035 | an epoch that starts without debt keeps at most eight buffers away, whatever the client does with its surfaces and whatever ioctl fails |
| `Epochs.HeldExceeds` | src/v4l2stateless_device.c:387-410 | if any surface holds a buffer at a reset, good pictures from there on take more than eight buffers away |
| `Epochs.EpochExact` | src/v4l2stateless_device.c:387-436 | at most eight buffers are away in every epoch run from a reset if and only if no surface holds a buffer at that reset |
| `Epochs.EpochNeverStarves` | src/v4l2stateless_device.c:451-458 | with nine usable buffers such an epoch never reaches the exit without a free capture buffer |
| `Delivery.PictureDelivers` | src/v4l2stateless_device.c:758-769 | a picture whose ioctls and copy succeed reaches its surface or slots exactly when its index is below 24; otherwise nothing has changed |
| `Delivery.StepMappable` | src/v4l2stateless_device.c:387-410 | all indices in use stay below 24 in every step but exactly a reset of more than 24 buffers |
| `Delivery.RunMappable` | src/v4l2stateless_device.c:387-436 | the same throughout whole runs, in both modes |
| `Delivery.RunDelivers` | src/v4l2stateless_device.c:758-769 | in such a run every picture whose ioctls and copy succeed is delivered |
| `Delivery.EpochDelivers` | src/v4l2stateless_device.c:451-458 | an epoch without debt finds a buffer that can be mapped, if nine are usable |
| `Delivery.ResetWedges` | src/v4l2stateless_device.c:387-436 | a reset of more than 24 buffers with no surface holding one leaves an index on top that cannot be mapped |
| `Delivery.RunWedged` | src/v4l2stateless_device.c:758-769 | from then on no picture is delivered, whatever succeeds, until a renegotiation |
| `Creation.CreatedFree` | src/v4l2stateless.c:989-1049 | a created AV1 context starts without debt and with no index lost |
| `Claims.StepKeepsClaim` | src/v4l2stateless_device.c:447-459 | in EXPBUF mode a claim survives every event but its surface's destruction and a renegotiation |
| `Claims.ClaimStable` | src/v4l2stateless_device.c:1370-1400 | over any number of decodes, failures and resets an exported surface names the same buffer |
| `Claims.EnsureSettles` | src/v4l2stateless_device.c:556-575 | a successful request has its format and a pool, and repeating it changes nothing if and only if the granted geometry covers it |
| `Claims.GrantAbove24Lost` | src/v4l2stateless_device.c:691-695 | indices from 24 up of a larger grant are in no pool, surface or slot; the next reset pools those below 40, the highest on top, and no other |
| `Counterexamples.FailedQbufPoolsAClaim` | src/v4l2stateless_device.c:461-472 | a concrete EXPBUF run in which a failed QBUF pools an index its surface still holds |
| `Counterexamples.ResetMissesUnregistered` | src/v4l2stateless_device.c:396-404 | a concrete state in which a reset pools the index of an unregistered surface |
| `Counterexamples.ResetEpochExceedsEight` | src/v4l2stateless_device.c:412-436 | eight surfaces hold buffers at a reset, and one parsed picture later nine of ten buffers are away |
| `Counterexamples.ArmedBeginStrands` | src/v4l2stateless.c:1331-1342 | an armed re-target leaves a buffer in no place |
| `Counterexamples.QueuedOutputLost` | src/v4l2stateless_device.c:577-652 | a renegotiation that loses a queued OUTPUT index |
| `Counterexamples.StuckLosesCapture` | src/v4l2stateless_device.c:577-652 | a renegotiation that stops at REQBUFS(0) and loses a held index |
| `Counterexamples.StreamsWithoutOutputs` | src/v4l2stateless_device.c:577-652 | a picture that starts streaming without OUTPUT buffers |
| `Counterexamples.RefreshMissed` | src/v4l2stateless_av1.c:1300-1316 | a completed picture that is not copied out leaves the slot table behind the kernel's |
| `Counterexamples.OldestStraddles` | src/v4l2stateless_av1.c:331-352 | three-bit hints for which the lowest one is not the farthest picture |
| `Counterexamples.SkipModeWraps` | src/v4l2stateless_av1.c:164-181 | a frame whose second forward reference is at distance zero |
| `Counterexamples.RelabelLosesPicture` | src/v4l2stateless_device.c:1113-1145 | a renegotiation after which no backing holds the last picture |
| `DecodeContext.Context.constructor` | src/v4l2stateless.c:989-1005 | a new context's arrays and counters are the opened state of the specification |
| `DecodeContext.Context.OutPoolPush` | src/v4l2stateless.h:296-308 | the scan-and-append push drops out-of-range, overflowing and duplicate indices |
| `DecodeContext.Context.CapPoolPush` | src/v4l2stateless.h:310-323 | the same for the CAPTURE pool |
| `DecodeContext.Context.MarkClaimed` | src/v4l2stateless_device.c:396-404 | exactly the indices below 40 that registered surfaces hold are marked |
| `DecodeContext.Context.RebuildFreePools` | src/v4l2stateless_device.c:387-410 | the loops over the arrays rebuild both pools as specified |
| `DecodeContext.Context.DecodeReset` | src/v4l2stateless_device.c:412-436 | the whole new state after a reset, which `ResetRebuilds` characterises |
| `DecodeContext.Context.StillReferenced` | src/v4l2stateless_av1.c:1014-1017 | the inner loop finds whether another slot still holds the buffer |
| `DecodeContext.Context.DpbModelReset` | src/v4l2stateless_av1.c:973-984 | all slots empty, all owners forgotten, the model disarmed |
| `DecodeContext.Context.ReleaseUnrefd` | src/v4l2stateless_av1.c:986-1035 | the in-place slot loop does what `ReleaseExact` characterises |
| `DecodeContext.Context.ReleaseCaptureSurfaces` | src/v4l2stateless_device.c:364-381 | exactly the registered surfaces of the context forget their buffers |
| `DecodeContext.Context.EnsureCapture` | src/v4l2stateless_device.c:550-710 | state and result of a renegotiation on every exit |
| `DecodeContext.Context.DecodeSubmit` | src/v4l2stateless_device.c:438-544 | state and result of a decode on every exit |
| `DecodeContext.Context.EndPicture` | src/v4l2stateless.c:1416-1526 | the picture pipeline from arming the model to delivering the buffer, on every exit |
| `DecodeContext.Context.BeginPicture` | src/v4l2stateless.c:1297-1360 | re-targeting a surface gives its previous buffer back, or leaves it to the slot model or the claim |
| `DecodeContext.Context.DestroySurface` | src/v4l2stateless.c:787-843 | the destroyed surface's buffer and registration are given up as its mode requires |
| `DecodeContext.Context.ExportSurface` | src/v4l2stateless_device.c:1370-1400 | claim-at-export takes one pooled buffer, only in EXPBUF mode and only without one |
| `DecodeContext.Context.Dispatch` | src/v4l2stateless.c:787-1526 | one entry point on the arrays is one step of the specification |
| `DecodeContext.Context.Perform` | src/v4l2stateless.c:787-1526 | a sequence of entry points on the arrays is the run the whole-run results speak about |
| `SurfaceIds.DestroyConserves` | src/v4l2stateless.c:787-843 | destroying a list frees exactly its live IDs, duplicates and unknown IDs included |
| `SurfaceIds.TakeConserves` | src/v4l2stateless.c:610-632 | an ID taken was available, is not live, and only it leaves the available IDs |
| `SurfaceIds.CreateConserves` | src/v4l2stateless.c:593-683 | a batch succeeds if and only if its allocations do and enough IDs are left; a failed one restores live and available IDs exactly |
| `SurfaceIds.RunConserves` | src/v4l2stateless.h:326-339 | over all runs every ID ever handed out is live or on the recycle stack exactly once |
| `SurfaceIds.SurfaceTable.SurfaceById` | src/v4l2stateless.h:279-285 | a live ID finds the entry that carries that ID, any other ID finds none |
| `SurfaceIds.SurfaceTable.PushId` | src/v4l2stateless.h:326-339 | the array push drops out-of-range, overflowing and duplicate IDs |
| `SurfaceIds.SurfaceTable.CreateSurfaces` | src/v4l2stateless.c:593-683 | the in-place batch create with its cleanup is the specified one; every filled entry carries its own ID |
| `SurfaceIds.SurfaceTable.DestroySurfaces` | src/v4l2stateless.c:767-843 | the in-place destroy loop is the specified one |
| `OrderHint.DistanceUnique` | src/v4l2stateless_av1.c:93-99 | the distance is the only representative of a - b modulo 2^bits in the signed range |
| `OrderHint.DistanceDifference` | src/v4l2stateless_av1.c:93-99 | comparing hints directly agrees with comparing distances from a third, except a full sign weight apart |
| `SkipMode.FirstScan` | src/v4l2stateless_av1.c:126-150 | the loop finds the first reference nearest behind and the first nearest ahead, by modular distance |
| `SkipMode.SecondScan` | src/v4l2stateless_av1.c:164-181 | the second loop finds the nearest candidate before the nearest forward reference |
| `SkipMode.FillSkipMode` | src/v4l2stateless_av1.c:105-193 | the result is the pair of section 5.9.22 with first-index tie-break, increasing in 1..7, or (0, 0) when there is none |
| `SkipMode.PairUnique` | src/v4l2stateless_av1.c:105-193 | that pair is unique, so the contract fixes the result |
| `BitReader.OverrunSticky` | src/v4l2stateless_av1.c:547-560 | past the end every further read stays past the end |
| `BitReader.ReadExact` | src/v4l2stateless_av1.c:547-560 | a read inside the data spells its bits most significant first; any other read overruns |
| `BitReader.ReadInverse` | src/v4l2stateless_av1.c:547-560 | a read yields v if and only if v fits and its bits stand at the position |
| `BitReader.Reader.F` | src/v4l2stateless_av1.c:547-560 | the bit loop computes that value and position, with its 32-bit accumulator |
| `FrameHeader.ParseComplete` | src/v4l2stateless_av1.c:607-637 | a printed KEY or INTER header is parsed back, whatever follows it |
| `FrameHeader.ParseSound` | src/v4l2stateless_av1.c:607-637 | an accepted payload starts with a printed well-formed header |
| `FrameHeader.ParseInverse` | src/v4l2stateless_av1.c:607-637 | parsing is the exact inverse of printing, for both layouts |
| `ObuWalk.TwoCandidates` | src/v4l2stateless_av1.c:606-609 | the candidates 2 and 3 add nothing to 0 and 1 |
| `ObuWalk.WalkSound` | src/v4l2stateless_av1.c:580-654 | an accepted mask is the refresh field of a header at the front of a frame OBU on the walk that agrees with VA in type, show flag, order hint and primary reference |
| `ObuWalk.LebRoundTrip` | src/v4l2stateless_av1.c:590-602 | the LEB128 loop undoes encoding within its five bytes |
| `ObuWalk.ObuRoundTrip` | src/v4l2stateless_av1.c:580-604 | a printed OBU is found with its type and payload |
| `ObuWalk.WalkSkips` | src/v4l2stateless_av1.c:580-654 | earlier OBUs that do not match are skipped exactly |
| `ObuWalk.RefreshRoundTrip` | src/v4l2stateless_av1.c:562-655 | for a printed header the parser returns its refresh mask: always in the layout without screen-content bits, in the other one if and only if candidate 0 does not match or finds the same mask |
| `ObuWalk.CandidateZeroShadows` | src/v4l2stateless_av1.c:606-650 | two bytes for which candidate 0 matches first with another mask, so the condition is needed |
| `ObuWalk.TryHeader` | src/v4l2stateless_av1.c:606-650 | the field-by-field reader of one candidate |
| `ObuWalk.ReadSize` | src/v4l2stateless_av1.c:590-602 | the size loop of at most five bytes |
| `ObuWalk.ParseHdrRefresh` | src/v4l2stateless_av1.c:562-655 | the walk terminates on every span, stays inside it and returns what the specification finds |
| `RefreshRules.FirstDupFrom` | src/v4l2stateless_av1.c:278-291 | the first empty or repeated slot from a given one on |
| `RefreshRules.MostDupUpto` | src/v4l2stateless_av1.c:245-276 | the first slot of the most duplicated picture, ties to the lowest hint, then the lowest slot |
| `RefreshRules.DupKeeps` | src/v4l2stateless_av1.c:278-291 | overwriting a duplicate slot loses no referenced picture |
| `RefreshRules.MostDupKeeps` | src/v4l2stateless_av1.c:245-276 | neither does overwriting the first slot of the most duplicated picture |
| `RefreshRules.RefreshIdx` | src/v4l2stateless_av1.c:318-359 | only a picture at distance -3 or less is evicted, and none exactly when there is no such picture |
| `RefreshRules.OldestIsFarthest` | src/v4l2stateless_av1.c:331-352 | the lowest hint is the farthest previous picture if and only if the candidates do not straddle the current hint |
| `RefreshRules.LayerRange` | src/v4l2stateless_av1.c:294-316 | the temporal layer lies in 0..floor(log2 gop) and is 0 exactly at multiples of gop and at the largest power of two below it |
| `RefreshRules.BaseLayer` | src/v4l2stateless_av1.c:294-316 | for a power-of-two gop the layer is 0 exactly when gop divides the hint |
| `RefreshRules.SlotIsDup` | src/v4l2stateless_av1.c:214-225 | the loop decides whether a slot is empty or repeats an earlier one |
| `RefreshRules.UniqueSidCount` | src/v4l2stateless_av1.c:227-242 | the nested loops count the distinct pictures |
| `RefreshRules.MostDupFirst` | src/v4l2stateless_av1.c:245-276 | the loop with its running best computes that slot's mask |
| `RefreshRules.TemporalLayer` | src/v4l2stateless_av1.c:294-316 | the two shift loops compute the layer |
| `RefreshRules.GetRefreshIdx` | src/v4l2stateless_av1.c:318-359 | the scan with its two running minima computes the evicted slot's mask |
| `RefreshInference.RunOneSlot` | src/v4l2stateless_av1.c:465-531 | in every run, read bit by bit, an inter picture's mask selects at most one slot and any other picture's all eight; l0_toggle < 3 and l1_toggle < 2 |
| `MaskBits.OneBit` | src/v4l2stateless_av1.c:986-1004 | read bit by bit as the kernel and the slot model do, a one-slot mask selects that slot and no other |
| `RefreshInference.DupRuleKeeps` | src/v4l2stateless_av1.c:361-453 | whenever a duplicate-slot rule decides, the evicted picture is still held by another slot |
| `RefreshInference.LibaomStep` | src/v4l2stateless_av1.c:465-531 | the inferred mask of a libaom-style picture, applied to the reference map, loses a picture if and only if all eight slots hold different ones; an overlay changes nothing |
| `RefreshInference.LibaomFills` | src/v4l2stateless_av1.c:465-531 | over a run of the inference, latch and overlays included, every inferred mask adds its picture until eight are held, and from then on exactly eight are |
| `RefreshInference.LibaomGop` | src/v4l2stateless_av1.c:465-531 | from a KEY picture on, it and the next seven written pictures are all held |
| `RefreshInference.StyleStays` | src/v4l2stateless_av1.c:501-522 | a latched libaom style stays for all inter pictures |
| `RefreshInference.RunRotates` | src/v4l2stateless_av1.c:405-440 | in a long SVT GOP the toggle counts base-layer writes modulo three |
| `RefreshInference.BaseLayerSurvives` | src/v4l2stateless_av1.c:405-440 | two base-layer pictures share a slot if and only if a multiple of three base-layer writes separates them |
| `RefreshInference.Inference.InferSvt` | src/v4l2stateless_av1.c:377-453 | mask and new state of the SVT rules |
| `RefreshInference.Inference.InferFlags` | src/v4l2stateless_av1.c:465-531 | mask and new state of the whole inference |
| `Tiles.RefusedExact` | src/v4l2stateless_av1.c:1264-1265 | the 32-bit range test is the intended one if and only if the sum does not wrap |
| `Tiles.NeverOverruns` | src/v4l2stateless_av1.c:1264-1265 | no tile wraps when span and buffer together stay below 2^32 bytes |
| `Tiles.TwinTilesOverrun` | src/v4l2stateless_av1.c:1264-1265 | at exactly 2^32 bytes two equal tiles overrun |
| `Tiles.EntriesPartition` | src/v4l2stateless_av1.c:1209-1217 | every submitted byte belongs to exactly one entry |
| `Tiles.FillEntries` | src/v4l2stateless_av1.c:1207-1217 | the first loop's running offsets and the copied grid positions |
| `Tiles.ExtractTiles` | src/v4l2stateless_av1.c:1257-1274 | for all tile parameters the copy loop accepts exactly when every tile lies in the span and all fit, writes past the buffer exactly when a tile wraps, and otherwise refuses; the bytes behind accepted tiles are untouched |
| `Tiles.SubmitTiles` | src/v4l2stateless_av1.c:1207-1285 | for all tile parameters: the same three outcomes, and on acceptance the entries are contiguous, sum to the submitted length and name in the buffer the very bytes the client named in the span |
| `Tiles.RefusalRestores` | src/v4l2stateless_av1.c:1268-1269 | a refused picture leaves the pool and the rest of the context as they were |
| `Av1Frame.FindLargest` | src/v4l2stateless.c:744-754 | the buffer that is decoded is the first of the largest |
| `Av1Frame.FillMask` | src/v4l2stateless_av1.c:888-914 | the mask sent with the picture: parsed from the decoded buffer, else from the first other one of 256 that has a matching header, else inferred, and only then the inference state changes |
| `Av1Frame.FrameMaskFound` | src/v4l2stateless_av1.c:888-905 | a mask is parsed if and only if one of the tried buffers has a matching header |
| `Av1Frame.ReadFrame` | src/v4l2stateless_av1.c:1037-1285 | reading the frame yields the inputs of a picture of the decode context, with the tiles accepted exactly when all fit |
| `Av1Frame.DecodedRefs` | src/v4l2stateless_av1.c:1300-1316 | a delivered picture enters exactly the slots of its mask in the kernel's table and, when armed, in the slot table |
| `Av1Frame.HeaderEntersSlots` | src/v4l2stateless_av1.c:888-914 | from the bits of a printed header to the references: a delivered picture enters exactly the slots the header names, in both tables |
| `Av1Frame.GuessTouchesOne` | src/v4l2stateless_av1.c:906-914 | a guessed mask never arms the slot model and changes at most one of the kernel's references |
| `Planes.CopyPlane` | src/v4l2stateless_gbm.c:63-73 | both branches, reading no more than they do, deliver every visible byte and touch nothing outside the plane |
| `Planes.Upload` | src/v4l2stateless_gbm.c:75-97 | any layout into the bo's layout shows the same picture, odd sizes included |
| `Planes.Refill` | src/v4l2stateless_gbm.c:102-139 | the bo back into the capture layout shows the same picture |
| `Planes.CopyNv12` | src/v4l2stateless_format.c:153-174 | the rows both heights allow arrive, w bytes of each; for a covering height that is the picture cropped to even chroma |
| `Planes.LazySnapshot` | src/v4l2stateless_device.c:1073-1111 | upload now and refill later shows what an eager snapshot would have shown, for all widths, heights, strides and aligned heights |
| `Planes.PlaneSizeHolds` | src/v4l2stateless_format.c:65-71 | the uint32_t plane size has room for the copied planes if and only if it has not wrapped, and for the whole picture if and only if, besides, the number of rows is even or exceeds the visible height |
| `Planes.WrappedSize` | src/v4l2stateless_format.c:65-71 | a wrapped plane size is smaller than the luma plane |
| `Planes.CpuUploadExact` | src/v4l2stateless_gbm.c:75-97 | the upload of cpu memory stays inside it if and only if its size has not wrapped and the height is even, or the strides differ and the chroma row fits in half a stride |
| `Planes.OddUploadOverruns` | src/v4l2stateless_gbm.c:63-73 | a 64x3 surface: 288 bytes allocated, 320 read |
| `Planes.WrappedUploadOverruns` | src/v4l2stateless_format.c:284-299 | a 32768x43692 surface, of even height: 65536 bytes allocated, 1431699456 in the luma plane, 2147549184 read by an upload |
| `Snapshot.StepTag` | src/v4l2stateless_device.c:1113-1145 | last_writer names the newest picture after every step except exactly a relabelling of the only up-to-date copy |
| `Snapshot.StepBo` | src/v4l2stateless_gbm.c:141-200 | the bo stays up to date except exactly when an upload is lost |
| `Snapshot.StepCoherent` | src/v4l2stateless_device.c:1083-1110 | both hold after a step if and only if it loses neither a picture nor an upload |
| `Snapshot.RunCoherent` | src/v4l2stateless_device.c:1083-1110 | both hold throughout a run if and only if no step loses a picture or an upload |
| `Snapshot.GetLatest` | src/v4l2stateless.c:1925-1965 | when vaGetImage reads the newest picture, exactly |
| `Snapshot.GetAndExportAgree` | src/v4l2stateless.c:1866-2047 | after a clean run vaGetImage and the exported bo show the same, last written, picture |
| `Snapshot.CreatedAgrees` | src/v4l2stateless.c:636-655 | from the creation of a surface on: coherence throughout exactly the clean runs, and agreeing readers after them |
| `Snapshot.StaleReaders` | src/v4l2stateless.c:2038-2044 | two runs in which a lost upload and a lost refill leave a reader with an older picture although the calls succeed |
| `SurfacePixels.Surface.constructor` | src/v4l2stateless.c:636-655 | a new surface with its eager memfd and lazy other backings |
| `SurfacePixels.Surface.PullCapture` | src/v4l2stateless_device.c:1036-1111 | the frame's bytes become the newest picture, in the bo or in the memfd |
| `SurfacePixels.Surface.PutImage` | src/v4l2stateless.c:1989-2047 | for every size, the client's bytes become the newest picture in cpu memory and the bo; `Short` exactly when the uint32_t size of cpu memory has wrapped or the upload would leave it |
| `SurfacePixels.Surface.ExportBo` | src/v4l2stateless_gbm.c:141-170 | a new bo is filled from the freshest backing; `Short` exactly when that upload would leave cpu memory |
| `SurfacePixels.Surface.SyncBo` | src/v4l2stateless_gbm.c:176-200 | the upload the tag asks for, short exactly when it would leave cpu memory |
| `SurfacePixels.Surface.RefillMemfd` | src/v4l2stateless_gbm.c:102-139 | the lazy refill, when the tag asks for it |
| `SurfacePixels.Surface.BindCaptureExport` | src/v4l2stateless_device.c:1113-1145 | growing and relabelling one surface |
| `SurfacePixels.Surface.GetImage` | src/v4l2stateless.c:1866-1986 | the image receives the bytes of the picture its backing holds - of the last written one when the tag is true and the mappings work; `Short` exactly when the size of the backing it reads has wrapped |
| `Unpack10.PackedSample` | src/v4l2stateless_format.c:98-124 | reading a packed row gives back each sample, those of a padded tail group too |
| `Unpack10.UnpackInvertsPack` | src/v4l2stateless_format.c:98-124 | unpacking inverts packing for every sample list |
| `Unpack10.UnpackLe40` | src/v4l2stateless_format.c:98-124 | the group loop and the tail write exactly the unpacked samples and nothing else |
| `Unpack10.PlaneInverts` | src/v4l2stateless_format.c:139-150 | lifted to planes: every pixel of a packed plane is exact |
| `Unpack10.Nv15ToP010` | src/v4l2stateless_format.c:126-151 | both planes converted, clipped to the aligned height; padding and the rest of the image untouched, within its VA size |
| `Unpack10.PixelPair` | src/v4l2stateless_format.c:267-281 | a Y210 pixel pair is Y U Y V; the last pixel of an odd width repeats U |
| `Unpack10.Y210Inverts` | src/v4l2stateless_format.c:243-282 | converting packed NV20 planes shows every sample of both |
| `Unpack10.InterleaveRow` | src/v4l2stateless_format.c:264-281 | the pair loop and the odd tail write exactly the Y210 row |
| `Unpack10.Nv20ToY210` | src/v4l2stateless_format.c:243-282 | every row interleaved, nothing outside the visible rows written, nothing at all without scratch memory |
| `AnnexB.MissingPrefix` | src/v4l2stateless_format.c:301-305 | the byte test means: does not start with 00 00 01 or 00 00 00 01 |
| `AnnexB.PassesAgree` | src/v4l2stateless_format.c:317-335 | sizing and writing agree if and only if the prefix length is 3 or 4, or no slice needs one |
| `AnnexB.SliceInPlace` | src/v4l2stateless_format.c:325-335 | each slice stands whole, in order, right after the slices before it |
| `AnnexB.NormalisingTwice` | src/v4l2stateless_format.c:307-337 | normalising is idempotent; on the whole stream if and only if there is a slice |
| `AnnexB.WriteSlice` | src/v4l2stateless_format.c:326-334 | one slice with its start code, verbatim when it has one |
| `AnnexB.Concat` | src/v4l2stateless_format.c:312-337 | a fitting stream is written exactly and nothing behind it; otherwise the result is 0 and nothing is written |
| `AnnexB.ZeroMeans` | src/v4l2stateless_format.c:312-337 | a stream is empty only without slices, so 0 means it did not fit or there was nothing |

## Left out

- Surface pointers: surfaces are named by ID and their `buf_index` is a map entry, so two pointers to one surface cannot be told apart and a dangling pointer cannot be expressed.
- Several contexts on one driver instance: render targets of another context are not part of this model.
- Exclusive.RunOwned: in EXPBUF mode it says when ownership breaks, not what happens to pixels after it has.
- Conservation.RunConserves: AV1 contexts are not covered here; where their buffers are is `CopyOut.RunAway` and `Places.RunPlaces`.
- CopyOut.StepDebt: copying mode; with EXPBUF on `Places.StepPlaces` says whether every index has a place, not which.
- Places.RunPlaces: after a claim has been recycled ownership is no longer disjoint, and nothing is said from there on.
- Counterexamples: the start states satisfy every invariant; the runs that lead to them from a creation are not given.
- Av1Slots.RunMatches: the kernel's table is the ghost table of `V4l2Kernel`, which an errored decode leaves unchanged.
- Epochs.EpochExact: says when the bound fails only for contexts that can decode on and on: a negotiated format, 9 to 24 capture buffers, OUTPUT buffers and a render target without a buffer; that it holds without a holder needs none of these (`Epochs.EpochBounded`).
- Delivery.PictureDelivers: copying mode of AV1; with EXPBUF on a picture is delivered by its claim.
- FrameHeader.ParseInverse: the printer follows the code's grammar, which is the specification's for KEY and INTER frames only.
- RefreshInference.BaseLayerSurvives: covers GOPs with a stored length of at least 16; shorter ones go by slot occupancy.
- Tiles.SubmitTiles: nothing is said about what follows once a tile has overrun the buffer.
- SurfacePixels.Surface.PutImage: partial writes are not modelled, nor what follows the result `Short`.
- SurfacePixels.Surface.GetImage: only whole NV12 pictures; the 10-bit readers are the converters of `Unpack10`.
- Growth of a memfd mapping while derived images borrow it: borrow and retire counting is not part of this model.
- The count passed to REQBUFS: only the granted number matters to the model.
- Field-by-field control filling for all codecs, film grain and quantiser tables: copying without a property across functions.
- The output_plane_len memo across OUTPUT rebuilds: the code does not keep a general claim about it.
- Uniform tile-grid computation: the code's even split is not the rule of section 5.9.15 of the AV1 specification.
- JPEG and VPP contexts, vaDeriveImage, subpictures, buffer and image lists, configuration queries, probing and its cache.
- Interleavings inside one entry point: the global lock excludes them.
