/** The mmap path on the test suite's address space. `FakeVm` protects whole regions where `mprotect`
    protects pages; on the mapped runs of the loader that makes no difference, so everything proved
    about mapped loads holds of the interval map. Its own assertions hold on the way. */
module FakeLoad {
  import opened Words
  import opened Elf
  import opened Layout
  import opened AddressSpace
  import opened VirtualMemory
  import opened Blocks
  import opened MappedOps
  import opened Loader
  import opened LoadTheorems
  import opened IntervalMap

  /** The file part of a segment starts past the end of the file. */
  predicate PastEnd(seg: SegmentPlan, file: seq<byte>) { seg.file.Some? && seg.file.value.off > |file| }

  /** That is, its page offset does: for a file that holds the segment it never happens. */
  lemma PastEndMeans(i: nat, ph: Phdr, bias: u64, page: u64, file: seq<byte>)
    requires Placeable(ph, bias, page)
    ensures page > 0 && (PastEnd(SegmentAt(i, ph, bias, page), file) <==> ph.filesz > 0 && AlignDown(ph.offset, page) > |file|)
    ensures ph.offset + ph.filesz <= |file| ==> !PastEnd(SegmentAt(i, ph, bias, page), file)
  {
    hide Rem;
    SegmentBounds(ph, bias, page);
    AlignBounds(ph.offset, page);
    AddMultiple(ph.vaddr, bias, page);
  }

  /** The pages of some load with a file part begin past the end of the file. */
  predicate FileTooShort(image: Image, page: u64, file: seq<byte>)
  {
    page > 0 && InTable(image.phdrs, image.loads)
    && exists k :: 0 <= k < |image.loads| && image.Load(k).filesz > 0 && AlignDown(image.Load(k).offset, page) > |file|
  }

  lemma TooShortMeans(image: Image, page: u64, plan: LoadPlan, file: seq<byte>)
    requires Sound(image, page, plan)
    ensures FileTooShort(image, page, file) <==> exists k :: 0 <= k < |plan.segments| && PastEnd(plan.segments[k], file)
  {
    hide PastEnd, Placeable, Rem, AlignDown, Lo, Hi, SegmentAt;
    SoundPage(image, page, plan);
    forall k | 0 <= k < |plan.segments|
      ensures PastEnd(plan.segments[k], file) <==> image.Load(k).filesz > 0 && AlignDown(image.Load(k).offset, page) > |file|
    {
      PastEndMeans(image.loads[k], image.Load(k), plan.bias, page, file);
    }
  }

  method FakeFilePart(vm: FakeVm, seg: SegmentPlan, fd: int) returns (stopped: bool)
    requires vm.Valid() && vm.Aligned() && fd in vm.files
    requires seg.file.Some? ==> seg.file.value.len > 0 && Rem(seg.file.value.addr, vm.page) == 0 && Rem(seg.file.value.len, vm.page) == 0
    modifies vm`regions, vm`log
    ensures vm.Valid() && vm.Aligned() && (stopped <==> PastEnd(seg, vm.FileOf(fd)))
    ensures vm.log == old(vm.log) + if stopped then [] else FileOp(seg, fd, vm.FileOf(fd))
    ensures seg.file.Some? && !stopped ==>
              var f := seg.file.value;
              f.addr in vm.regions && vm.regions[f.addr].len == f.len
              && (seg.window || seg.prot.write ==> vm.regions[f.addr].prot.write)
              && Cut(vm.regions, f.addr) && Cut(vm.regions, f.addr + f.len)
  {
    hide FlatAt, Disjoint, After, Cut, Fits, Paged;
    stopped := false;
    if seg.file.Some? {
      var f := seg.file.value;
      var prot := if seg.window then seg.prot.(write := true) else seg.prot;
      var got := vm.Map(Exact(f.addr), f.len, prot, MapSrc.File(fd, f.off));
      stopped := got.None?;
    }
  }

  method FakeTail(vm: FakeVm, seg: SegmentPlan)
    requires vm.Valid() && vm.Aligned()
    requires seg.zero.Some? ==>
               seg.file.Some? && var f, z := seg.file.value, seg.zero.value;
               f.addr in vm.regions && vm.regions[f.addr].len == f.len && vm.regions[f.addr].prot.write
               && f.addr <= z.addr && z.len > 0 && z.addr + z.len == f.addr + f.len
    modifies vm`regions, vm`log
    ensures vm.Valid() && vm.Aligned() && vm.log == old(vm.log) + ZeroOp(seg) && KeepsCuts(old(vm.regions), vm.regions)
  {
    hide FlatAt, Disjoint, After, Cut, Paged;
    if seg.zero.Some? {
      assert Spans(vm.regions, seg.file.value.addr, seg.zero.value.addr);
      vm.Zero(seg.zero.value.addr, seg.zero.value.len);
    }
  }

  method FakeAnon(vm: FakeVm, seg: SegmentPlan)
    requires vm.Valid() && vm.Aligned()
    requires seg.anon.Some? ==> seg.anon.value.len > 0 && Rem(seg.anon.value.addr, vm.page) == 0 && Rem(seg.anon.value.len, vm.page) == 0
    modifies vm`regions, vm`log
    ensures vm.Valid() && vm.Aligned() && vm.log == old(vm.log) + AnonOp(seg)
    ensures seg.anon.Some? ==>
              var n := seg.anon.value;
              Cut(vm.regions, n.addr + n.len)
              && forall b :: Cut(old(vm.regions), b) && !(n.addr < b < n.addr + n.len) ==> Cut(vm.regions, b)
    ensures seg.anon.None? ==> vm.regions == old(vm.regions)
  {
    hide FlatAt, Disjoint, After, Cut, Fits, Paged;
    if seg.anon.Some? {
      var _ := vm.Map(Exact(seg.anon.value.addr), seg.anon.value.len, seg.prot, Anon);
    }
  }

  /** A mapped address of a range is in some region that the range meets. */
  lemma MappedMeets(rs: Regions, a: int, lo: int, hi: int)
    requires Disjoint(rs) && FlatAt(rs, a).Some? && lo <= a < hi
    ensures exists s :: s in rs && Meets(rs, s, lo, hi)
  {
    if forall s :: !Spans(rs, s, a) {
      FlatAtNone(rs, a);
    } else {
      var s :| Spans(rs, s, a);
      assert Meets(rs, s, lo, hi);
    }
  }

  method FakeNarrow(vm: FakeVm, seg: SegmentPlan)
    requires vm.Valid() && vm.Aligned()
    requires seg.window ==> Cut(vm.regions, seg.Range().0) && Cut(vm.regions, seg.Range().0 + seg.Size())
                            && seg.Size() > 0 && After(vm.log, seg.Range().0, None).Some?
    modifies vm`regions, vm`log
    ensures vm.Valid() && vm.Aligned() && vm.log == old(vm.log) + NarrowOp(seg)
  {
    hide FlatAt, Disjoint, After, Cut, Whole, Paged, Meets;
    if seg.window {
      var lo, n := seg.Range().0, seg.Size();
      CutIsWhole(vm.regions, lo, lo + n, seg.prot);
      MappedMeets(vm.regions, lo, lo, lo + n);
      var _ := vm.Protect(lo, n, seg.prot);
    }
  }

  lemma {:induction false} StaysMapped(ops: seq<Op>, a: int, c: Cell)
    requires NoRelease(ops)
    ensures After(ops, a, Some(c)).Some?
  {
    if ops != [] {
      assert !ops[0].Releases();
      var d := CellAfter(ops[0], a, Some(c));
      StaysMapped(ops[1..], a, d.value);
    }
  }

  /** The first address of a segment with a file part is mapped once its pieces are. */
  lemma FirstMapped(log: seq<Op>, seg: SegmentPlan, fd: int, file: seq<byte>)
    requires seg.file.Some? && seg.file.value.len > 0
    ensures After(log + FileOp(seg, fd, file) + ZeroOp(seg) + AnonOp(seg), seg.file.value.addr, None).Some?
  {
    hide After;
    var a, w, rest := seg.file.value.addr, FileOp(seg, fd, file), ZeroOp(seg) + AnonOp(seg);
    var c := After(log, a, None);
    assert log + w + ZeroOp(seg) + AnonOp(seg) == (log + w) + rest;
    AfterConcat(log + w, rest, a, None);
    AfterConcat(log, w, a, None);
    AfterAtMostOne(w, a, c);
    StaysMapped(rest, a, CellAfter(w[0], a, c).value);
  }

  /** The loop body of `fill_mapped` on the interval map: the refinement is kept, the protection at the
      end included, because the pieces just mapped have their edges at its ends. */
  method FakeFillSegment(vm: FakeVm, i: nat, ph: Phdr, bias: u64, seg: SegmentPlan, fd: int) returns (stopped: bool)
    requires vm.Valid() && vm.Aligned() && fd in vm.files
    requires Placeable(ph, bias, vm.page) && seg == SegmentAt(i, ph, bias, vm.page)
    modifies vm`regions, vm`log
    ensures vm.Valid() && vm.Aligned() && (stopped <==> PastEnd(seg, vm.FileOf(fd)))
    ensures vm.log == old(vm.log) + if stopped then [] else SegOps(seg, fd, vm.FileOf(fd))
  {
    hide FlatAt, Disjoint, After, Cut, Paged, Placeable, SegmentAt, FileOp, ZeroOp, AnonOp, NarrowOp, SegOps, Lo, Hi, FileHi;
    SegShape(i, ph, bias, vm.page, seg);
    AlignedPieces(i, ph, bias, vm.page);
    SegOpsAre(seg, fd, vm.FileOf(fd));
    ghost var log, lo := vm.log, Lo(ph, bias, vm.page);
    stopped := FakeFilePart(vm, seg, fd);
    if stopped { return; }
    FakeTail(vm, seg);
    assert seg.window ==> Cut(vm.regions, lo) && Cut(vm.regions, FileHi(ph, bias, vm.page));
    FakeAnon(vm, seg);
    if seg.window { FirstMapped(log, seg, fd, vm.FileOf(fd)); }
    FakeNarrow(vm, seg);
  }

  method FakeFillSegments(vm: FakeVm, image: Image, plan: LoadPlan, fd: int) returns (stopped: bool, ghost done: seq<Op>)
    requires vm.Valid() && vm.Aligned() && fd in vm.files && Sound(image, vm.page, plan)
    modifies vm`regions, vm`log
    ensures vm.Valid() && vm.Aligned() && vm.log == old(vm.log) + done
    ensures stopped <==> exists k :: 0 <= k < |plan.segments| && PastEnd(plan.segments[k], vm.FileOf(fd))
    ensures done <= Flatten(SegBlocks(plan, fd, vm.FileOf(fd)), |plan.segments|)
    ensures !stopped ==> done == Flatten(SegBlocks(plan, fd, vm.FileOf(fd)), |plan.segments|)
  {
    hide Rem, FlatAt, Disjoint, After, SegOps, SegmentAt, Paged, PastEnd, Sound, Placeable, Flatten;
    SoundPage(image, vm.page, plan);
    SoundSegments(image, vm.page, plan);
    ghost var log, blocks := vm.log, SegBlocks(plan, fd, vm.FileOf(fd));
    stopped, done := false, [];
    FlattenNone(blocks);
    for k := 0 to |plan.segments|
      invariant !stopped && vm.Valid() && vm.Aligned() && done == Flatten(blocks, k) && vm.log == log + done
      invariant forall j :: 0 <= j < k ==> !PastEnd(plan.segments[j], vm.FileOf(fd))
    {
      PrefixOfBlock(blocks, |plan.segments|, k, []);
      assert done + [] == done;
      stopped := FakeFillSegment(vm, image.loads[k], image.Load(k), plan.bias, plan.segments[k], fd);
      if stopped { return; }
      FlattenNext(blocks, k);
      done := done + blocks[k];
    }
  }

  lemma SoundSegments(image: Image, page: u64, plan: LoadPlan)
    requires Sound(image, page, plan)
    ensures |plan.segments| == |image.loads| && InTable(image.phdrs, image.loads)
    ensures forall k :: 0 <= k < |image.loads| ==> Placeable(image.Load(k), plan.bias, page)
                                                   && plan.segments[k] == SegmentAt(image.loads[k], image.Load(k), plan.bias, page)
  {
    hide Placeable, SegmentAt, Lo, Hi, Rem;
  }

  method FakeSyncPass(vm: FakeVm, image: Image, plan: LoadPlan)
    requires vm.Valid() && IdxInTable(image, plan.segments)
    modifies vm`log
    ensures vm.Valid() && vm.log == old(vm.log) + Flatten(SyncBlocks(image, plan), |plan.segments|)
  {
    hide FlatAt, Disjoint, After, SyncOp;
    ghost var log, blocks := vm.log, SyncBlocks(image, plan);
    for k := 0 to |plan.segments|
      invariant vm.Valid() && vm.log == log + Flatten(blocks, k)
    {
      FakeSyncTail(vm, image, plan.segments[k]);
      assert Flatten(blocks, k + 1) == Flatten(blocks, k) + blocks[k];
    }
  }

  method FakeSyncTail(vm: FakeVm, image: Image, seg: SegmentPlan)
    requires vm.Valid() && seg.idx < |image.phdrs|
    modifies vm`log
    ensures vm.Valid() && vm.log == old(vm.log) + SyncOp(image, seg)
  {
    hide FlatAt, Disjoint, After;
    if image.phdrs[seg.idx].IsExec() && seg.zero.Some? {
      vm.IcacheSync(seg.zero.value.addr, seg.zero.value.len);
    }
  }

  // --------------------------------------------------------------- load_mapped

  /** What a load on `FakeVm` comes to: 64-bit arithmetic or an assertion stops it, the loader gives up,
      or the image is loaded by a plan. */
  datatype Outcome = Stopped | Failed | Done(plan: LoadPlan)

  /** The regions are the flat map that `log` describes. */
  ghost predicate Describes(rs: Regions, log: seq<Op>)
  {
    Disjoint(rs) && forall a :: FlatAt(rs, a) == After(log, a, None)
  }

  /** A range that meets no region is free in the space the log describes. */
  lemma FitsIsVacant(rs: Regions, log: seq<Op>, lo: int, n: nat)
    requires Describes(rs, log) && Fits(rs, lo, n)
    ensures Vacant(Run(map[], log), lo, lo + n)
  {
    hide FlatAt, Disjoint, Fits, Run;
    forall a | lo <= a < lo + n ensures a !in Run(map[], log) {
      FitsIsFree(rs, lo, n, a);
      RunLook(map[], log, a);
      assert Look(Run(map[], log), a) == None;
    }
  }

  /** A range that meets some region is not. */
  lemma UnfitIsTaken(rs: Regions, log: seq<Op>, lo: int, n: nat)
    requires Describes(rs, log) && n > 0 && !Fits(rs, lo, n)
    ensures !Vacant(Run(map[], log), lo, lo + n)
  {
    hide FlatAt, Disjoint, Overlaps, Run;
    var s :| s in rs && Overlaps(rs, s, lo, n);
    OverlapIsTaken(rs, s, lo, n);
    var a :| lo <= a < lo + n && FlatAt(rs, a) != None;
    RunLook(map[], log, a);
    assert a in Run(map[], log);
  }

  /** The reservation of `load_mapped`: anywhere for a position-independent image, the link address or
      nothing for a fixed one. */
  method FakeTake(vm: FakeVm, image: Image) returns (r: Option<Placement>, stopped: bool, ghost ops: seq<Op>)
    requires vm.Valid() && vm.Aligned() && vm.base >= 0 && WellFormed(image, vm.page) && IsPow2(vm.page)
    requires VaSpan(image, vm.page).Ok? ==> VaSpan(image, vm.page).value.0 < VaSpan(image, vm.page).value.1
    modifies vm`regions, vm`log
    ensures vm.Valid() && vm.Aligned() && vm.log == old(vm.log) + ops
    ensures stopped ==> r.None? && image.ehdr.etype == ET_DYN && ReservationLen(image, vm.page).Ok? && |ops| == 1
                        && ops[0].addr + ReservationLen(image, vm.page).value >= U64_LIMIT
    ensures r.Some? ==> ReservationLen(image, vm.page).Ok? && PlanPre(image, vm.page, r.value)
                        && r.value.At? == (image.ehdr.etype == ET_DYN)
                        && var (lo, n) := ReserveAt(image, vm.page, r.value);
                           ops == [Reserve(lo, n)] && n > 0 && Vacant(Run(map[], old(vm.log)), lo, lo + n)
    ensures r.None? && !stopped ==> FailedLoad(Run(map[], old(vm.log)), ops, image, vm.page, false)
    ensures r.None? && !stopped ==> ReservationLen(image, vm.page).Err? || Displaced(Run(map[], old(vm.log)), image, vm.page, ops)
  {
    hide FlatAt, Disjoint, After, Fits, Paged, Run, Cut, IsPow2, ValidLoad;
    ghost var rs, log := vm.regions, vm.log;
    r, stopped, ops := None, false, [];
    var need := ReservationLen(image, vm.page);
    if need.Ok? {
      ReservationPages(image, vm.page);
      if image.ehdr.etype == ET_DYN {
        r, ops := FakeTakeAnywhere(vm, image, need.value);
        stopped := r.None?;
      } else {
        var (lo, hi) := VaSpan(image, vm.page).value;
        r, ops := FakeTakeLink(vm, image, lo, hi - lo);
      }
    }
  }

  method FakeTakeAnywhere(vm: FakeVm, image: Image, need: u64) returns (r: Option<Placement>, ghost ops: seq<Op>)
    requires vm.Valid() && vm.Aligned() && vm.base >= 0 && WellFormed(image, vm.page) && need > 0 && Rem(need, vm.page) == 0
    requires ReservationLen(image, vm.page) == Ok(need)
    modifies vm`regions, vm`log
    ensures vm.Valid() && vm.Aligned() && vm.log == old(vm.log) + ops
    ensures |ops| == 1 && ops == [Reserve(ops[0].addr, need)] && Vacant(Run(map[], old(vm.log)), ops[0].addr, ops[0].addr + need)
    ensures r.None? <==> ops[0].addr + need >= U64_LIMIT
    ensures r.Some? ==> r.value.At? && r.value.raw == ops[0].addr && PlanPre(image, vm.page, r.value)
  {
    hide FlatAt, Disjoint, After, Fits, Paged, Run, Cut, WellFormed, ReservationLen;
    ghost var rs, log := vm.regions, vm.log;
    var got := vm.Map(Anywhere, need, PROT_NONE, Anon);
    FitsIsVacant(rs, log, got.value, need);
    ops := [Reserve(got.value, need)];
    r := if got.value + need >= U64_LIMIT then None else Some(At(got.value));
  }

  method FakeTakeLink(vm: FakeVm, image: Image, lo: u64, span: u64) returns (r: Option<Placement>, ghost ops: seq<Op>)
    requires vm.Valid() && vm.Aligned() && WellFormed(image, vm.page) && image.ehdr.etype != ET_DYN
    requires span > 0 && Rem(span, vm.page) == 0 && Rem(lo, vm.page) == 0
    modifies vm`regions, vm`log
    ensures vm.Valid() && vm.Aligned() && vm.log == old(vm.log) + ops && ops != []
    ensures r.Some? ==> r.value == Fixed && ops == [Reserve(lo, span)] && Vacant(Run(map[], old(vm.log)), lo, lo + span)
    ensures r.None? ==> FailedLoad(Run(map[], old(vm.log)), ops, image, vm.page, false) && ops[0].addr != lo
                        && !Vacant(Run(map[], old(vm.log)), lo, lo + span)
  {
    hide FlatAt, Disjoint, After, Fits, Paged, Run, Cut, WellFormed, FailedLoad;
    ghost var rs, log := vm.regions, vm.log;
    var got := vm.Map(Hint(lo), span, PROT_NONE, Anon);
    FitsIsVacant(rs, log, got.value, span);
    ops := [Reserve(got.value, span)];
    r := Some(Fixed);
    if got.value != lo {
      UnfitIsTaken(rs, log, lo, span);
      vm.Unmap(got.value, span);
      ops := ops + [Op.Unmap(got.value, span)];
      HintGivenBack(Run(map[], log), ops, image, vm.page, got.value, span);
      r := None;
    }
  }

  lemma HintGivenBack(s: Space, ops: seq<Op>, image: Image, page: u64, lo: int, n: nat)
    requires WellFormed(image, page) && image.ehdr.etype != ET_DYN && Vacant(s, lo, lo + n)
    requires ops == [Reserve(lo, n), Op.Unmap(lo, n)]
    ensures FailedLoad(s, ops, image, page, false)
  {
    hide WellFormed;
    assert ops[1..|ops| - 1] == [];
  }

  /** `load_mapped` on the interval map. When it is done, the run is a complete mapped load of the
      address space the log describes and the regions are exactly that space after it, so every
      theorem about mapped loads holds of what the test suite looks up. No assertion of `FakeVm`
      fails; the run stops only where the reservation chosen by first fit leaves 64 bits, or at the
      slice of a file that ends before the pages of some load begin. */
  method FakeLoadMapped(vm: FakeVm, image: Image, fd: int) returns (r: Outcome, ghost ops: seq<Op>)
    requires vm.Valid() && vm.Aligned() && vm.base >= 0 && fd in vm.files && WellFormed(image, vm.page) && IsPow2(vm.page)
    requires VaSpan(image, vm.page).Ok? ==> VaSpan(image, vm.page).value.0 < VaSpan(image, vm.page).value.1
    modifies vm`regions, vm`log
    ensures vm.Valid() && vm.Aligned() && vm.log == old(vm.log) + ops
    ensures r.Done? ==> MappedLoad(Run(map[], old(vm.log)), ops, image, vm.page, r.plan, fd, vm.FileOf(fd))
                        && !FileTooShort(image, vm.page, vm.FileOf(fd))
    ensures forall a :: FlatAt(vm.regions, a) == Look(Run(Run(map[], old(vm.log)), ops), a)
    ensures r.Failed? ==> FailedLoad(Run(map[], old(vm.log)), ops, image, vm.page, false)
                          && (ReservationLen(image, vm.page).Err? || Displaced(Run(map[], old(vm.log)), image, vm.page, ops)
                              || PlanLeak(Run(map[], old(vm.log)), ops, image, vm.page, false))
    ensures r.Stopped? ==> FileTooShort(image, vm.page, vm.FileOf(fd))
                           || (ReservationLen(image, vm.page).Ok? && |ops| == 1
                               && ops[0].addr + ReservationLen(image, vm.page).value >= U64_LIMIT)
  {
    hide FlatAt, Disjoint, After, Fits, Paged, Run, Cut, IsPow2, WellFormed, PlanPre, LeakGuard, ReservationLen, Sound;
    hide Displaced, Vacant, ReserveAt, Planned, IdxInTable, FillOps, TookFor, Aborted, FileTooShort;
    var where, stopped;
    where, stopped, ops := FakeTake(vm, image);
    r := if stopped then Stopped else Failed;
    if where.Some? {
      var planned := PlanReserved(image, vm.page, where.value);
      if planned.Ok? {
        ghost var tail;
        stopped, tail := FakeFill(vm, image, planned.value, fd);
        assert old(vm.log) + ops + tail == old(vm.log) + (ops + tail);
        ops := ops + tail;
        r := if stopped then Stopped else Done(planned.value);
      } else {
        TookWhere(ops, image, vm.page, where.value);
      }
    }
    ValidIsSpace(vm);
    RunConcat(map[], old(vm.log), ops);
  }

  /** `fill_mapped` after the reservation. */
  method FakeFill(vm: FakeVm, image: Image, plan: LoadPlan, fd: int) returns (stopped: bool, ghost tail: seq<Op>)
    requires vm.Valid() && vm.Aligned() && fd in vm.files && Planned(image, vm.page, plan)
    modifies vm`regions, vm`log
    ensures vm.Valid() && vm.Aligned() && IdxInTable(image, plan.segments) && vm.log == old(vm.log) + tail
    ensures stopped <==> FileTooShort(image, vm.page, vm.FileOf(fd))
    ensures !stopped ==> tail == FillOps(image, plan, fd, vm.FileOf(fd))
  {
    hide FlatAt, Disjoint, After, Paged, Planned, Sound, IdxInTable, WellFormed, SegOps, SyncOp, PastEnd, FileTooShort;
    PlannedWellFormed(image, vm.page, plan);
    PlanIndices(image, vm.page, plan);
    TooShortMeans(image, vm.page, plan, vm.FileOf(fd));
    stopped, tail := FakeFillSegments(vm, image, plan, fd);
    if !stopped {
      FakeSyncPass(vm, image, plan);
      tail := tail + Flatten(SyncBlocks(image, plan), |plan.segments|);
    }
  }

  lemma TookWhere(ops: seq<Op>, image: Image, page: u64, placement: Placement)
    requires WellFormed(image, page) && ReservationLen(image, page).Ok?
    requires var (lo, n) := ReserveAt(image, page, placement);
             ops == [Reserve(lo, n)] && LeakGuard(image, page, lo)
    requires placement.At? == (image.ehdr.etype == ET_DYN)
    ensures TookFor(ops[0], image, page, false) && ReservationLen(image, page) == Ok(ops[0].Len())
  {
    hide WellFormed, PlanPre, PlanRefuses;
  }

  lemma PlanIndices(image: Image, page: u64, plan: LoadPlan)
    requires Sound(image, page, plan)
    ensures IdxInTable(image, plan.segments)
  {
  }

  /** What a test reads back: after that load the interval map holds the image. */
  lemma FakeHoldsImage(vm: FakeVm, s: Space, ops: seq<Op>, image: Image, page: u64, plan: LoadPlan, fd: int, file: seq<byte>, k: nat, v: int)
    requires Disjoint(vm.regions) && MappedLoad(s, ops, image, page, plan, fd, file)
    requires FlatAt(vm.regions, v + plan.bias) == Look(Run(s, ops), v + plan.bias)
    requires k < |image.loads| && image.Load(k).vaddr <= v < Up(MemEnd(image.Load(k)), page)
    ensures FlatAt(vm.regions, v + plan.bias).Some?
    ensures FlatAt(vm.regions, v + plan.bias).value.val == LinkedByte(image.Load(k), file, v)
  {
    hide FlatAt, Disjoint, MappedLoad, Run, LinkedByte;
    MappedByte(s, ops, image, page, plan, fd, file, k, v);
  }
}
