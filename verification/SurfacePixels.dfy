/** The three byte buffers of a surface, updated in place, refining the numbered pictures of `Snapshot`. */
module SurfacePixels {
  import opened Wrappers
  import opened BitReader
  import opened Memory
  import opened Planes
  import opened Snapshot

  /** The numbered picture stands in the buffer. */
  ghost predicate Stands(v: Option<nat>, d: seq<byte>, stride: nat, uvRow: nat, w: nat, h: nat, pics: seq<Image>) {
    v.Some? ==> 1 <= v.value <= |pics| && ImageAt(d, stride, uvRow, w, h) == pics[v.value - 1]
  }

  /** It stands there whole. Cpu memory of an odd height has no room for its last chroma row, so of cpu memory
    * only `Stands` is kept. */
  ghost predicate Backs(v: Option<nat>, d: seq<byte>, stride: nat, uvRow: nat, w: nat, h: nat, pics: seq<Image>) {
    Stands(v, d, stride, uvRow, w, h, pics) && (v.Some? ==> Holds(|d|, stride, uvRow, w, h))
  }

  lemma BacksMore(v: Option<nat>, d: seq<byte>, stride: nat, uvRow: nat, w: nat, h: nat, pics: seq<Image>, p: Image)
    ensures Stands(v, d, stride, uvRow, w, h, pics) ==> Stands(v, d, stride, uvRow, w, h, pics + [p])
    ensures Backs(v, d, stride, uvRow, w, h, pics) ==> Backs(v, d, stride, uvRow, w, h, pics + [p])
  {
  }

  lemma NothingBacks(d: seq<byte>, stride: nat, uvRow: nat, w: nat, h: nat, pics: seq<Image>)
    ensures Backs(None, d, stride, uvRow, w, h, pics)
  {
  }

  /** Growing a buffer keeps its picture. */
  lemma BacksGrown(v: Option<nat>, d: seq<byte>, d': seq<byte>, stride: nat, uvRow: nat, w: nat, h: nat,
                   pics: seq<Image>)
    requires Backs(v, d, stride, uvRow, w, h, pics) && |d| <= |d'| && d'[..|d|] == d
    ensures Backs(v, d', stride, uvRow, w, h, pics)
  {
    if v.Some? {
      ImageSame(d, d', stride, uvRow, w, h);
    }
  }

  lemma BacksNewest(d: seq<byte>, stride: nat, uvRow: nat, w: nat, h: nat, pics: seq<Image>)
    ensures Stands(Some(|pics| + 1), d, stride, uvRow, w, h, pics + [ImageAt(d, stride, uvRow, w, h)])
    ensures Holds(|d|, stride, uvRow, w, h) ==>
              Backs(Some(|pics| + 1), d, stride, uvRow, w, h, pics + [ImageAt(d, stride, uvRow, w, h)])
  {
  }

  /** Short: a size has wrapped, or an odd height leaves no room, so the call would leave the memory of a backing;
    * the model stops there. */
  datatype Outcome = Done | Refused | Short

  class Surface {
    const w: nat
    const h: nat
    const cpuStride: nat
    const boStride: nat   // stride of the bo's mapping

    var last: Writer
    var hasPic: bool
    var stride: nat
    var alignedH: nat
    var hasMemfd: bool
    var memfd: array<byte>
    var hasCpu: bool
    var cpu: array<byte>
    var hasBo: bool
    var bo: array<byte>

    ghost var pics: seq<Image>  // the pictures written so far
    ghost var view: Pixels

    /** A capture layout that covers the surface and whose plane size has room for all of it. */
    predicate Covers(stride: nat, alignedH: nat) {
      && UvWidth(w) <= stride && h <= alignedH && (alignedH % 2 == 0 || h < alignedH)
      && Unwrapped(stride, alignedH)
    }

    /** An upload of cpu memory stays inside it (`Planes.CpuUploadExact`). */
    predicate CpuUploads() {
      Unwrapped(cpuStride, h) && (h % 2 == 0 || (boStride != cpuStride && UvWidth(w) <= cpuStride / 2))
    }

    /** vaGetImage reads a backing whose size has wrapped. */
    predicate ReadsShort(mapOk: bool)
      reads this
    {
      if last == Cpu && hasCpu then false
      else if hasMemfd then mapOk && !Unwrapped(stride, alignedH)
      else hasCpu && !Unwrapped(cpuStride, h)
    }

    ghost predicate Fields()
      reads this
    {
      view == Pixels(|pics|, last, hasPic, cpuStride, h, stride, alignedH, hasMemfd, view.memfd, hasCpu, view.cpu,
                     hasBo, view.bo)
    }

    ghost predicate Valid()
      reads this, memfd, cpu, bo
    {
      && memfd != cpu && memfd != bo && cpu != bo
      && w > 0 && h > 0 && UvWidth(w) <= cpuStride && UvWidth(w) <= boStride
      && Fields() && Sane(view)
      && (stride > 0 || alignedH > 0 ==> UvWidth(w) <= stride && h <= alignedH)
      && (hasPic ==> Covers(stride, alignedH))
      && (hasCpu ==> cpu.Length == PlaneSize(cpuStride, h)) && (last == Cpu ==> Unwrapped(cpuStride, h))
      && (hasBo ==> Holds(bo.Length, boStride, h, w, h))
      && Backs(view.memfd, memfd[..], stride, alignedH, w, h, pics)
      && Stands(view.cpu, cpu[..], cpuStride, h, w, h, pics)
      && Backs(view.bo, bo[..], boStride, h, w, h, pics)
    }

    /** vaCreateSurfaces: the memfd is allocated at once, cpu memory and the bo on demand. */
    constructor (w: nat, h: nat, cpuStride: nat, boStride: nat, memfdOk: bool)
      requires w > 0 && h > 0 && UvWidth(w) <= cpuStride && UvWidth(w) <= boStride
      ensures Valid() && fresh(memfd) && fresh(cpu) && fresh(bo)
      ensures this.w == w && this.h == h
      ensures pics == [] && view == Created(cpuStride, h, memfdOk)
    {
      this.w, this.h, this.cpuStride, this.boStride := w, h, cpuStride, boStride;
      last, hasPic := Nobody, false;
      hasMemfd, hasCpu, hasBo := memfdOk, false, false;
      stride, alignedH := if memfdOk then cpuStride else 0, if memfdOk then h else 0;
      memfd := new byte[if memfdOk then PlaneSize(cpuStride, h) else 0](_ => 0);
      cpu := new byte[0];
      bo := new byte[0];
      pics := [];
      view := Created(cpuStride, h, memfdOk);
    }

    /** ftruncate to a larger size: the contents stay, the rest is zero. */
    method Grow(need: nat)
      requires Valid() && hasMemfd
      modifies this`memfd
      ensures Valid() && (memfd == old(memfd) || fresh(memfd))
      ensures memfd.Length >= need && memfd.Length >= old(memfd.Length)
    {
      hide ImageAt, Holds;
      if need <= memfd.Length {
        return;
      }
      var s := memfd[..];
      var m := new byte[need](i requires 0 <= i => if i < |s| then s[i] else 0);
      assert m[..|s|] == s;
      BacksGrown(view.memfd, s, m[..], stride, alignedH, w, h, pics);
      memfd := m;
    }

    /** v4l2sl_surface_alloc_export_fd */
    method AllocExportFd(ok: bool)
      requires Valid()
      modifies this`memfd, this`hasMemfd, this`stride, this`alignedH, this`view
      ensures Valid() && (memfd == old(memfd) || fresh(memfd))
      ensures view == AllocMemfd(old(view), ok)
    {
      hide ImageAt, Holds;
      if hasMemfd || !ok {
        return;
      }
      view := AllocMemfd(view, ok);
      memfd := new byte[PlaneSize(cpuStride, h)](_ => 0);
      hasMemfd := true;
      if stride == 0 {
        stride := cpuStride;
      }
      if alignedH == 0 {
        alignedH := h;
      }
    }

    /** The mapped memfd receives a whole capture buffer. */
    method SnapshotToMemfd(src: seq<byte>, stride': nat, alignedH': nat)
      requires Valid() && hasMemfd && |src| <= memfd.Length
      requires Covers(stride', alignedH') && Holds(|src|, stride', alignedH', w, h)
      modifies this, memfd
      ensures Valid() && memfd == old(memfd) && cpu == old(cpu) && bo == old(bo)
      ensures pics == old(pics) + [ImageAt(src, stride', alignedH', w, h)]
      ensures view == old(view).(writes := old(view).writes + 1, memfd := Some(old(view).writes + 1), last := Memfd,
                                 hasPic := true, stride := stride', alignedH := alignedH')
    {
      hide ImageAt, Holds, Backs, Stands, Sane;
      PullSane(view, stride', alignedH', PullEnv(false, true, true, true));
      CopyBytes(memfd, 0, src);
      assert memfd[..][..|src|] == memfd[0..0 + |src|];
      var p := ImageAt(src, stride', alignedH', w, h);
      BacksNewest(src, stride', alignedH', w, h, pics);
      BacksGrown(Some(|pics| + 1), src, memfd[..], stride', alignedH', w, h, pics + [p]);
      BacksMore(view.cpu, cpu[..], cpuStride, h, w, h, pics, p);
      BacksMore(view.bo, bo[..], boStride, h, w, h, pics, p);
      view := view.(writes := view.writes + 1, memfd := Some(view.writes + 1), last := Memfd,
                    hasPic := true, stride := stride', alignedH := alignedH');
      pics := pics + [p];
      last, hasPic, stride, alignedH := Memfd, true, stride', alignedH';
    }

    /** The bo receives the visible bytes of a capture buffer. */
    method SnapshotToBo(src: seq<byte>, stride': nat, alignedH': nat)
      requires Valid() && hasBo
      requires Covers(stride', alignedH') && Holds(|src|, stride', alignedH', w, h)
      modifies this, bo
      ensures Valid() && memfd == old(memfd) && cpu == old(cpu) && bo == old(bo)
      ensures pics == old(pics) + [ImageAt(src, stride', alignedH', w, h)]
      ensures view == Relabel(old(view), stride', alignedH').(
                        writes := old(view).writes + 1, bo := Some(old(view).writes + 1), last := Bo, hasPic := true)
    {
      hide ImageAt, Holds, Backs, Stands, Sane, Uploads, UvRows, PlaneSize;
      PullSane(view, stride', alignedH', PullEnv(true, true, true, true));
      HoldsUploads(|src|, boStride, stride', alignedH', w, h);
      Upload(bo, boStride, src, stride', alignedH', w, h);
      var p := ImageAt(src, stride', alignedH', w, h);
      BacksNewest(bo[..], boStride, h, w, h, pics);
      BacksMore(view.cpu, cpu[..], cpuStride, h, w, h, pics, p);
      BacksMore(view.memfd, memfd[..], stride, alignedH, w, h, pics, p);
      NothingBacks(memfd[..], stride', alignedH', w, h, pics + [p]);
      view := Relabel(view, stride', alignedH').(
                writes := view.writes + 1, bo := Some(view.writes + 1), last := Bo, hasPic := true);
      pics := pics + [p];
      last, hasPic, stride, alignedH := Bo, true, stride', alignedH';
    }

    /** v4l2sl_surface_pull_capture: the decoded frame `src` becomes the newest picture. */
    method PullCapture(src: seq<byte>, stride': nat, alignedH': nat, env: PullEnv) returns (ok: bool)
      requires Valid()
      requires Covers(stride', alignedH') && Holds(|src|, stride', alignedH', w, h)
      modifies this, memfd, bo
      ensures Valid() && (memfd == old(memfd) || fresh(memfd)) && cpu == old(cpu) && bo == old(bo)
      ensures view == Pull(old(view), stride', alignedH', env)
      ensures pics == old(pics) + if ok then [ImageAt(src, stride', alignedH', w, h)] else []
    {
      hide ImageAt, Holds, Backs, Stands, Sane;
      if hasBo && env.uploadOk {
        SnapshotToBo(src, stride', alignedH');
        return true;
      }
      AllocExportFd(env.allocOk);
      if !hasMemfd || !env.growOk {
        return false;
      }
      Grow(|src|);
      if !env.mapOk {
        return false;
      }
      SnapshotToMemfd(src, stride', alignedH');
      return true;
    }

    /** v4l2sl_surface_ensure_cpu: zeroed memory of the image size, refused when that is zero. */
    method EnsureCpu(ok: bool) returns (done: bool)
      requires Valid()
      modifies this`cpu, this`hasCpu, this`view
      ensures Valid() && (cpu == old(cpu) || fresh(cpu))
      ensures done == (old(hasCpu) || CpuAllocates(ok)) && view == old(view).(hasCpu := done)
    {
      hide ImageAt, Holds, Backs, Stands;
      if hasCpu {
        return true;
      }
      if !ok || PlaneSize(cpuStride, h) == 0 {
        return false;
      }
      NoCpuPicture();
      cpu := new byte[PlaneSize(cpuStride, h)](_ => 0);
      NothingBacks(cpu[..], cpuStride, h, w, h, pics);
      hasCpu := true;
      view := view.(hasCpu := true);
      return true;
    }

    predicate CpuAllocates(ok: bool) {
      ok && PlaneSize(cpuStride, h) > 0
    }

    lemma NoCpuPicture()
      requires Valid() && !hasCpu
      ensures view.cpu.None?
    {
    }

    /** Cpu memory receives a client image. */
    method WriteCpu(src: seq<byte>, pitch: nat)
      requires Valid() && hasCpu && Unwrapped(cpuStride, h)
      requires w <= pitch && pitch * h + pitch * (h / 2) <= |src|
      modifies this, cpu
      ensures Valid() && memfd == old(memfd) && cpu == old(cpu) && bo == old(bo)
      ensures |pics| == |old(pics)| + 1 && pics[..|old(pics)|] == old(pics)
      ensures |pics[|old(pics)|].uv| == UvRows(h)
      ensures Crop(pics[|old(pics)|], w, h) == CropAt(src, pitch, h, w, h)
      ensures view == old(view).(writes := old(view).writes + 1, cpu := Some(old(view).writes + 1), last := Cpu)
    {
      hide CropAt, Rows, Sane;
      OtherSane(view, DoPut(true, true, false));
      PlaneSizeHolds(cpuStride, h, w, h);
      CopyNv12(cpu, cpuStride, src, pitch, h, w, h);
      CropIsCrop(cpu[..], cpuStride, h, w, h);
      var p := ImageAt(cpu[..], cpuStride, h, w, h);
      BacksNewest(cpu[..], cpuStride, h, w, h, pics);
      BacksMore(view.bo, bo[..], boStride, h, w, h, pics, p);
      BacksMore(view.memfd, memfd[..], stride, alignedH, w, h, pics, p);
      view := view.(writes := view.writes + 1, cpu := Some(view.writes + 1), last := Cpu);
      pics := pics + [p];
      last := Cpu;
    }

    /** The bo receives what cpu memory holds. */
    method CpuToBo()
      requires Valid() && hasCpu && hasBo && CpuUploads()
      modifies this`view, bo
      ensures Valid() && view == old(view).(bo := old(view).cpu)
    {
      hide ImageAt, Holds, Rows, Uploads;
      CpuUploadExact(boStride, cpuStride, w, h);
      Upload(bo, boStride, cpu[..], cpuStride, h, w, h);
      view := view.(bo := view.cpu);
    }

    /** vaPutImage with a whole image: the client's bytes become the newest picture. `imageOk`: the image is
      * known and is NV12. */
    method PutImage(src: seq<byte>, pitch: nat, cpuOk: bool, imageOk: bool, uploadOk: bool) returns (r: Outcome)
      requires Valid()
      requires imageOk ==> w <= pitch && pitch * h + pitch * (h / 2) <= |src|
      modifies this, cpu, bo
      ensures Valid() && memfd == old(memfd) && (cpu == old(cpu) || fresh(cpu)) && bo == old(bo)
      ensures r.Refused? <==> !imageOk || !(old(hasCpu) || CpuAllocates(cpuOk))
      ensures r.Short? <==> imageOk && (old(hasCpu) || CpuAllocates(cpuOk))
                            && (!Unwrapped(cpuStride, h) || (old(hasBo) && uploadOk && !CpuUploads()))
      ensures !r.Short? ==> view == Put(old(view), CpuAllocates(cpuOk), imageOk, uploadOk)
      ensures r.Refused? ==> pics == old(pics)
      ensures r.Done? ==> |pics| == |old(pics)| + 1 && pics[..|old(pics)|] == old(pics)
                          && |pics[|old(pics)|].uv| == UvRows(h)
                          && Crop(pics[|old(pics)|], w, h) == CropAt(src, pitch, h, w, h)
    {
      hide ImageAt, Holds, Backs, Stands, Crop, CropAt, Unwrapped, PlaneSize, Sane;
      var ready := EnsureCpu(cpuOk);
      if !ready || !imageOk {
        return Refused;
      }
      if !Unwrapped(cpuStride, h) {
        return Short;
      }
      WriteCpu(src, pitch);
      if hasBo && uploadOk {
        if !CpuUploads() {
          return Short;
        }
        CpuToBo();
      }
      return Done;
    }

    /** v4l2sl_gbm_surface_ensure and the synchronisation of a new bo. */
    method ExportBo(createOk: bool, uploadOk: bool, mapOk: bool) returns (r: Outcome)
      requires Valid()
      modifies this, memfd
      ensures Valid() && (memfd == old(memfd) || fresh(memfd)) && cpu == old(cpu) && (bo == old(bo) || fresh(bo))
      ensures pics == old(pics)
      ensures r.Short? <==> !old(hasBo) && createOk && old(last) == Cpu && uploadOk && !CpuUploads()
      ensures !r.Short? ==> view == EnsureBo(old(view), createOk, uploadOk, mapOk) && (r.Done? <==> hasBo)
    {
      hide ImageAt, Rows, Backs, Stands, Unwrapped;
      if hasBo {
        return Done;
      }
      if !createOk {
        return Refused;
      }
      CreateBo();
      var short := SyncBo(uploadOk, mapOk);
      return if short then Short else Done;
    }

    /** v4l2sl_gbm_surface_sync */
    method SyncBo(uploadOk: bool, mapOk: bool) returns (short: bool)
      requires Valid()
      modifies this`memfd, this`view, this`last, bo
      ensures Valid() && (memfd == old(memfd) || fresh(memfd))
      ensures short <==> hasBo && old(last) == Cpu && uploadOk && !CpuUploads()
      ensures !short ==> view == Sync(old(view), uploadOk, mapOk)
    {
      hide ImageAt, Rows, Backs, Stands, Unwrapped;
      if !hasBo || last == Bo {
        return false;
      }
      if last == Cpu && hasCpu {
        if uploadOk {
          if !CpuUploads() {
            return true;
          }
          CpuToBo();
        }
        return false;
      }
      if last == Memfd && hasMemfd && stride > 0 && alignedH > 0 {
        Grow(PlaneSize(stride, alignedH));
        if mapOk && uploadOk {
          MemfdToBo();
        }
      }
      return false;
    }

    /** The bo receives what the mapped memfd holds. */
    method MemfdToBo()
      requires Valid() && hasBo && last == Memfd && memfd.Length >= PlaneSize(stride, alignedH)
      modifies this`view, this`last, bo
      ensures Valid() && view == old(view).(bo := old(view).memfd, last := Bo)
    {
      hide ImageAt, Rows;
      PlaneSizeHolds(stride, alignedH, w, h);
      Upload(bo, boStride, memfd[..], stride, alignedH, w, h);
      view := view.(bo := view.memfd, last := Bo);
      last := Bo;
    }

    /** v4l2sl_surface_ensure_memfd: the lazy refill. */
    method RefillMemfd(ok: bool)
      requires Valid()
      modifies this`memfd, this`view, this`last, memfd
      ensures Valid() && (memfd == old(memfd) || fresh(memfd))
      ensures view == EnsureMemfd(old(view), ok)
    {
      hide ImageAt, Rows, Backs, Stands;
      if last != Bo || !hasBo || !hasMemfd || stride == 0 || alignedH == 0 || !ok {
        return;
      }
      Grow(PlaneSize(stride, alignedH));
      BoToMemfd();
    }

    method BoToMemfd()
      requires Valid() && hasBo && hasMemfd && last == Bo && memfd.Length >= PlaneSize(stride, alignedH)
      modifies this`view, this`last, memfd
      ensures Valid() && view == old(view).(memfd := old(view).bo, last := Memfd)
    {
      hide ImageAt, Rows;
      PlaneSizeHolds(stride, alignedH, w, h);
      Refill(memfd, stride, alignedH, bo[..], boStride, w, h);
      view := view.(memfd := view.bo, last := Memfd);
      last := Memfd;
    }

    /** One surface of v4l2sl_bind_capture_export: the memfd grows to the new plane size and is relabelled. */
    method BindCaptureExport(size: nat, stride': nat, alignedH': nat, allocOk: bool, growOk: bool)
      requires Valid() && Covers(stride', alignedH') && stride' > 0 && alignedH' > 0
      modifies this`memfd, this`hasMemfd, this`stride, this`alignedH, this`view
      ensures Valid() && (memfd == old(memfd) || fresh(memfd))
      ensures view == Rebind(old(view), stride', alignedH', allocOk, growOk)
    {
      hide ImageAt, Holds, Backs, Stands, Sane;
      RebindSane(view, stride', alignedH', allocOk, growOk);
      AllocExportFd(allocOk);
      if !hasMemfd || !growOk {
        return;
      }
      Grow(size);
      NothingBacks(memfd[..], stride', alignedH', w, h, pics);
      view := Relabel(view, stride', alignedH');
      stride, alignedH := stride', alignedH';
    }

    /** vaGetImage of a whole NV12 picture into an image of pitch `dStride`: when it succeeds from a backing
      * that holds a written picture, the image receives that picture. */
    method GetImage(dst: array<byte>, dStride: nat, refillOk: bool, mapOk: bool)
      returns (r: Outcome, ghost shown: Shown)
      requires Valid() && dst != memfd && dst != cpu && dst != bo
      requires w <= dStride && dStride * h + dStride * (h / 2) <= dst.Length
      modifies this`memfd, this`view, this`last, memfd, dst
      ensures Valid() && (memfd == old(memfd) || fresh(memfd))
      ensures view == BeforeGet(old(view), refillOk) && shown == Get(old(view), refillOk, mapOk)
      ensures (r.Short? <==> old(ReadsShort(mapOk))) && (r.Refused? <==> shown.Failed?)
      ensures r.Done? && shown.version.Some? ==>
                && 1 <= shown.version.value <= |pics| && |pics[shown.version.value - 1].uv| >= h / 2
                && CropAt(dst[..], dStride, h, w, h) == Crop(pics[shown.version.value - 1], w, h)
      ensures TagTrue(old(view)) && |pics| > 0 && old(hasMemfd) && refillOk && mapOk ==>
                r.Done? && |pics[|pics| - 1].uv| >= h / 2
                && CropAt(dst[..], dStride, h, w, h) == Crop(pics[|pics| - 1], w, h)
    {
      hide ImageAt, Rows, Backs, Stands, Holds, Crop, CropAt, TagTrue, Unwrapped, Sane, PlaneSize, UvRows;
      GetShowsNewest(refillOk, mapOk);
      PicturesFit();
      shown := Get(view, refillOk, mapOk);
      if last == Cpu && hasCpu {
        CopyFromCpu(dst, dStride);
        return Done, shown;
      }
      if hasPic {
        RefillMemfd(refillOk);
      }
      if hasMemfd {
        Grow(PlaneSize(stride, alignedH));
        if !mapOk {
          return Refused, shown;
        }
        if !Unwrapped(stride, alignedH) {
          return Short, shown;
        }
        CopyFromMemfd(dst, dStride);
        return Done, shown;
      }
      if hasCpu {
        if !Unwrapped(cpuStride, h) {
          return Short, shown;
        }
        CopyFromCpu(dst, dStride);
        return Done, shown;
      }
      return Refused, shown;
    }

    /** A backing that has been written has its full size. */
    lemma PicturesFit()
      requires Valid()
      ensures |pics| > 0 && hasMemfd ==> last == Cpu || Unwrapped(stride, alignedH)
      ensures last == Cpu ==> hasCpu
    {
    }

    lemma GetShowsNewest(refillOk: bool, mapOk: bool)
      requires Valid()
      ensures TagTrue(view) && |pics| > 0 && hasMemfd && refillOk && mapOk ==>
                Get(view, refillOk, mapOk) == Shows(Some(|pics|))
    {
      if TagTrue(view) && |pics| > 0 {
        GetLatest(view, refillOk, mapOk);
      }
    }

    method CopyFromCpu(dst: array<byte>, dStride: nat)
      requires Valid() && hasCpu && Unwrapped(cpuStride, h) && dst != memfd && dst != cpu && dst != bo
      requires w <= dStride && dStride * h + dStride * (h / 2) <= dst.Length
      modifies dst
      ensures Valid() && ShowsIn(view.cpu, dst[..], dStride)
    {
      hide ImageAt, Holds, Stands, Backs, CropAt, Sane;
      PlaneSizeHolds(cpuStride, h, w, h);
      CopyNv12(dst, dStride, cpu[..], cpuStride, h, w, h);
      CopyShows(view.cpu, cpu[..], cpuStride, h, dst[..], dStride);
    }

    method CopyFromMemfd(dst: array<byte>, dStride: nat)
      requires Valid() && hasMemfd && dst != memfd && dst != cpu && dst != bo
      requires memfd.Length >= PlaneSize(stride, alignedH) && Unwrapped(stride, alignedH)
      requires w <= dStride && dStride * h + dStride * (h / 2) <= dst.Length
      modifies dst
      ensures Valid() && ShowsIn(view.memfd, dst[..], dStride)
    {
      hide ImageAt, Holds, Stands, CropAt, PlaneSize, Sane, UvWidth;
      MemfdRoom();
      CopyNv12(dst, dStride, memfd[..], stride, alignedH, w, h);
      CopyShows(view.memfd, memfd[..], stride, alignedH, dst[..], dStride);
    }

    lemma MemfdRoom()
      requires Valid() && hasMemfd && memfd.Length >= PlaneSize(stride, alignedH) && Unwrapped(stride, alignedH)
      ensures w <= UvWidth(w) <= stride && h <= alignedH && 0 <= stride * alignedH
      ensures 0 <= stride * (alignedH / 2) && 0 <= stride * (h / 2) <= stride * (alignedH / 2)
      ensures stride * alignedH + stride * (alignedH / 2) <= memfd.Length
    {
      hide ImageAt, Holds, Stands, PlaneSize;
      PlaneSizeHolds(stride, alignedH, w, h);
      StrideRows(stride, h / 2, alignedH / 2);
      StrideRows(stride, 0, alignedH);
    }

    /** Copying a backing shows the picture that stands in it. */
    lemma CopyShows(v: Option<nat>, d: seq<byte>, stride: nat, uvRow: nat, image: seq<byte>, dStride: nat)
      requires Stands(v, d, stride, uvRow, w, h, pics)
      requires UvWidth(w) <= stride && 0 <= stride * uvRow && stride * uvRow + stride * (h / 2) <= |d|
      requires CropAt(image, dStride, h, w, h) == CropAt(d, stride, uvRow, w, h)
      ensures ShowsIn(v, image, dStride)
    {
      hide CropAt, Rows;
      CropIsCrop(d, stride, uvRow, w, h);
    }

    /** The image shows the numbered picture. */
    ghost predicate ShowsIn(v: Option<nat>, d: seq<byte>, dStride: nat)
      reads this
    {
      v.Some? ==> 1 <= v.value <= |pics| && |pics[v.value - 1].uv| >= h / 2
                  && CropAt(d, dStride, h, w, h) == Crop(pics[v.value - 1], w, h)
    }

    /** gbm_bo_create: unknown contents. */
    method CreateBo()
      requires Valid() && !hasBo
      modifies this`bo, this`hasBo, this`view
      ensures Valid() && fresh(bo) && view == old(view).(hasBo := true, bo := None)
    {
      hide ImageAt;
      StrideRows(boStride, h, UvRows(h));
      bo := new byte[boStride * h + boStride * UvRows(h)];
      hasBo := true;
      view := view.(hasBo := true, bo := None);
    }
  }
}
