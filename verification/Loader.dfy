/** Executing a plan against an address space: the mmap path, and release and rollback for both paths. */
module Loader {
  import opened Words
  import opened Elf
  import opened Layout
  import opened AddressSpace
  import opened VirtualMemory
  import opened Blocks
  import opened MappedOps

  datatype Loaded = Loaded(plan: LoadPlan, onHeap: bool)

  function Reserve(lo: int, len: nat): Op { Op.Map(lo, len, PROT_NONE, Zeroes, false) }

  /** How a plan was placed: a PIE where the system put it, anything else at its link address. */
  function PlacementOf(image: Image, reserveAddr: u64): Placement
  {
    if image.ehdr.etype == ET_DYN then At(reserveAddr) else Fixed
  }

  /** Success goes with no fault of the system, failure with at least one. */
  ghost predicate Blames(ok: bool, before: nat, after: nat) { if ok then after == before else after > before }

  // ------------------------------------------------------------- the mmap path

  method MapFilePart(seg: SegmentPlan, fd: int, vm: Vm) returns (ok: bool)
    requires vm.Valid() && Legal(vm.space, FileOp(seg, fd, vm.FileOf(fd)), vm.page)
    modifies vm
    ensures ok ==> Issued(old(vm.space), old(vm.trace), vm.space, vm.trace, FileOp(seg, fd, vm.FileOf(fd)))
    ensures !ok ==> vm.space == old(vm.space) && vm.trace == old(vm.trace)
    ensures Blames(ok, old(vm.faults), vm.faults)
  {
    if seg.file.None? { return true; }
    assert Enabled(vm.space, FileOp(seg, fd, vm.FileOf(fd))[0], vm.page);
    var f := seg.file.value;
    // Writable while the tail of the last page has to be cleared, narrowed afterwards.
    var prot := if seg.window then seg.prot.(write := true) else seg.prot;
    var got := vm.Map(Exact(f.addr), f.len, prot, MapSrc.File(fd, f.off));
    ok := got.Ok?;
  }

  method ClearTail(seg: SegmentPlan, vm: Vm) returns (ok: bool)
    requires vm.Valid() && Legal(vm.space, ZeroOp(seg), vm.page)
    modifies vm
    ensures ok ==> Issued(old(vm.space), old(vm.trace), vm.space, vm.trace, ZeroOp(seg))
    ensures !ok ==> vm.space == old(vm.space) && vm.trace == old(vm.trace)
    ensures Blames(ok, old(vm.faults), vm.faults)
  {
    if seg.zero.None? { return true; }
    ok := vm.Zero(seg.zero.value.addr, seg.zero.value.len);
  }

  method MapAnonPart(seg: SegmentPlan, vm: Vm) returns (ok: bool)
    requires vm.Valid() && Legal(vm.space, AnonOp(seg), vm.page)
    modifies vm
    ensures ok ==> Issued(old(vm.space), old(vm.trace), vm.space, vm.trace, AnonOp(seg))
    ensures !ok ==> vm.space == old(vm.space) && vm.trace == old(vm.trace)
    ensures Blames(ok, old(vm.faults), vm.faults)
  {
    if seg.anon.None? { return true; }
    assert Enabled(vm.space, AnonOp(seg)[0], vm.page);
    var got := vm.Map(Exact(seg.anon.value.addr), seg.anon.value.len, seg.prot, Anon);
    ok := got.Ok?;
  }

  method Narrow(seg: SegmentPlan, vm: Vm) returns (ok: bool)
    requires vm.Valid() && Legal(vm.space, NarrowOp(seg), vm.page)
    modifies vm
    ensures ok ==> Issued(old(vm.space), old(vm.trace), vm.space, vm.trace, NarrowOp(seg))
    ensures !ok ==> vm.space == old(vm.space) && vm.trace == old(vm.trace)
    ensures Blames(ok, old(vm.faults), vm.faults)
  {
    if !seg.window { return true; }
    assert Enabled(vm.space, NarrowOp(seg)[0], vm.page);
    ok := vm.Protect(seg.Range().0, seg.Size(), seg.prot);
  }

  /** The state and trace after issuing `ops`. */
  ghost predicate Issued(s: Space, t: seq<Op>, s': Space, t': seq<Op>, ops: seq<Op>)
  {
    t' == t + ops && s' == Run(s, ops)
  }

  lemma IssuedNone(s: Space, t: seq<Op>)
    ensures Issued(s, t, s, t, [])
  {
  }

  lemma IssuedThen(s: Space, t: seq<Op>, x: seq<Op>, y: seq<Op>, s': Space, t': seq<Op>)
    requires Issued(Run(s, x), t + x, s', t', y)
    ensures Issued(s, t, s', t', x + y)
  {
    RunConcat(s, x, y);
  }

  /** The loop body of `fill_mapped`: on failure some prefix of the segment's operations was issued. */
  method FillSegment(seg: SegmentPlan, fd: int, vm: Vm, ghost all: seq<Op>) returns (ok: bool, ghost done: seq<Op>)
    requires vm.Valid() && all == SegOps(seg, fd, vm.FileOf(fd)) && Legal(vm.space, all, vm.page)
    modifies vm
    ensures done <= all && (ok ==> done == all)
    ensures Issued(old(vm.space), old(vm.trace), vm.space, vm.trace, done) && Blames(ok, old(vm.faults), vm.faults)
  {
    ghost var s0, t0 := vm.space, vm.trace;
    ghost var w, x, y, z := FileOp(seg, fd, vm.FileOf(fd)), ZeroOp(seg), AnonOp(seg), NarrowOp(seg);
    SegOpsAre(seg, fd, vm.FileOf(fd));
    LegalConcat(s0, w + x + y, z, vm.page);
    LegalConcat(s0, w + x, y, vm.page);
    LegalConcat(s0, w, x, vm.page);
    done := [];
    ok := MapFilePart(seg, fd, vm);
    if !ok { return; }
    done := w;
    ok := ClearTail(seg, vm);
    if !ok { return; }
    IssuedThen(s0, t0, done, x, vm.space, vm.trace);
    done := w + x;
    ok := MapAnonPart(seg, vm);
    if !ok { return; }
    IssuedThen(s0, t0, done, y, vm.space, vm.trace);
    done := w + x + y;
    ok := Narrow(seg, vm);
    if !ok { return; }
    IssuedThen(s0, t0, done, z, vm.space, vm.trace);
    done := w + x + y + z;
  }

  /** In a legal run of blocks, block `k` is legal when its turn comes. */
  lemma LegalBlock(s: Space, blocks: seq<seq<Op>>, n: nat, k: nat, page: u64)
    requires page > 0 && k < n <= |blocks| && Legal(s, Flatten(blocks, n), page)
    ensures Legal(Run(s, Flatten(blocks, k)), blocks[k], page)
  {
    FlattenPrefix(blocks, k + 1, n);
    var rest := Flatten(blocks, n)[|Flatten(blocks, k + 1)|..];
    assert Flatten(blocks, n) == Flatten(blocks, k + 1) + rest;
    LegalConcat(s, Flatten(blocks, k + 1), rest, page);
    LegalConcat(s, Flatten(blocks, k), blocks[k], page);
  }

  lemma PrefixOfBlock(blocks: seq<seq<Op>>, n: nat, k: nat, some: seq<Op>)
    requires k < n <= |blocks| && some <= blocks[k]
    ensures Flatten(blocks, k) + some <= Flatten(blocks, n)
  {
    FlattenPrefix(blocks, k + 1, n);
    assert Flatten(blocks, k) + some <= Flatten(blocks, k + 1);
  }

  /** The segment loop of `fill_mapped`. */
  method FillSegments(fd: int, vm: Vm, plan: LoadPlan) returns (ok: bool, ghost done: seq<Op>)
    requires vm.Valid()
    requires Legal(vm.space, Flatten(SegBlocks(plan, fd, vm.FileOf(fd)), |plan.segments|), vm.page)
    modifies vm
    ensures done <= Flatten(SegBlocks(plan, fd, vm.FileOf(fd)), |plan.segments|)
    ensures ok ==> done == Flatten(SegBlocks(plan, fd, vm.FileOf(fd)), |plan.segments|)
    ensures Issued(old(vm.space), old(vm.trace), vm.space, vm.trace, done) && Blames(ok, old(vm.faults), vm.faults)
  {
    hide SegOps, Legal;
    ghost var s0, t0, blocks := vm.space, vm.trace, SegBlocks(plan, fd, vm.FileOf(fd));
    ok, done := true, [];
    for k := 0 to |plan.segments|
      invariant done == Flatten(blocks, k) && Issued(s0, t0, vm.space, vm.trace, done)
      invariant ok && vm.faults == old(vm.faults)
    {
      LegalBlock(s0, blocks, |plan.segments|, k, vm.page);
      ghost var some;
      ok, some := FillSegment(plan.segments[k], fd, vm, blocks[k]);
      IssuedThen(s0, t0, done, some, vm.space, vm.trace);
      PrefixOfBlock(blocks, |plan.segments|, k, some);
      done := done + some;
      if !ok { return; }
    }
  }

  method SyncSegment(image: Image, vm: Vm, seg: SegmentPlan)
    requires seg.idx < |image.phdrs|
    modifies vm
    ensures Issued(old(vm.space), old(vm.trace), vm.space, vm.trace, SyncOp(image, seg)) && vm.faults == old(vm.faults)
  {
    ghost var s := vm.space;
    if image.phdrs[seg.idx].IsExec() && seg.zero.Some? {
      vm.IcacheSync(seg.zero.value.addr, seg.zero.value.len);
      RunOne(s, SyncOp(image, seg)[0]);
    }
  }

  /** The instruction-cache pass of `fill_mapped`. */
  method SyncPass(image: Image, vm: Vm, plan: LoadPlan)
    requires IdxInTable(image, plan.segments)
    modifies vm
    ensures Issued(old(vm.space), old(vm.trace), vm.space, vm.trace, Flatten(SyncBlocks(image, plan), |plan.segments|))
    ensures vm.faults == old(vm.faults)
  {
    hide Run, Apply, SyncOp;
    ghost var s0, t0, blocks := vm.space, vm.trace, SyncBlocks(image, plan);
    IssuedNone(s0, t0);
    for k := 0 to |plan.segments|
      invariant Issued(s0, t0, vm.space, vm.trace, Flatten(blocks, k)) && vm.faults == old(vm.faults)
    {
      SyncSegment(image, vm, plan.segments[k]);
      IssuedThen(s0, t0, Flatten(blocks, k), blocks[k], vm.space, vm.trace);
    }
  }

  /** `fill_mapped`: all of `FillOps` on success, a prefix of it on failure. */
  method FillMapped(image: Image, fd: int, vm: Vm, plan: LoadPlan) returns (ok: bool, ghost done: seq<Op>)
    requires vm.Valid() && IdxInTable(image, plan.segments)
    requires Legal(vm.space, FillOps(image, plan, fd, vm.FileOf(fd)), vm.page)
    modifies vm
    ensures done <= FillOps(image, plan, fd, vm.FileOf(fd)) && (ok ==> done == FillOps(image, plan, fd, vm.FileOf(fd)))
    ensures Issued(old(vm.space), old(vm.trace), vm.space, vm.trace, done) && Blames(ok, old(vm.faults), vm.faults)
  {
    ghost var s0, t0, n := vm.space, vm.trace, |plan.segments|;
    ghost var syncs := Flatten(SyncBlocks(image, plan), n);
    LegalConcat(s0, Flatten(SegBlocks(plan, fd, vm.FileOf(fd)), n), syncs, vm.page);
    ok, done := FillSegments(fd, vm, plan);
    if !ok { return; }
    SyncPass(image, vm, plan);
    IssuedThen(s0, t0, done, syncs, vm.space, vm.trace);
    done := done + syncs;
  }

  // ----------------------------------------------------- release and rollback

  function ReleaseOp(l: Loaded, ok: bool): Op
  {
    if l.onHeap then Free(l.plan.reserveAddr, l.plan.reserveLen)
    else if ok then Op.Unmap(l.plan.reserveAddr, l.plan.reserveLen)
    else Refused(l.plan.reserveAddr, l.plan.reserveLen)
  }

  /** `Loaded::unload`. */
  method Unload(l: Loaded, vm: Vm) returns (ok: bool)
    requires Held(vm.space, l.plan.reserveAddr, ReserveEnd(l.plan))
    modifies vm
    ensures vm.trace == old(vm.trace) + [ReleaseOp(l, ok)] && vm.space == Apply(old(vm.space), ReleaseOp(l, ok))
    ensures Blames(ok, old(vm.faults), vm.faults) && (l.onHeap ==> ok)
  {
    ok := true;
    if l.onHeap {
      vm.FreeAligned(l.plan.reserveAddr, l.plan.reserveLen);
    } else {
      ok := vm.Unmap(l.plan.reserveAddr, l.plan.reserveLen);
    }
  }

  /** `last` is the way back from `take`: a block is freed, a mapping unmapped unless that is refused. */
  predicate GivesBack(take: Op, last: Op)
  {
    if take.Alloc? then last == Free(take.addr, take.Len())
    else last == Op.Unmap(take.addr, take.Len()) || last == Refused(take.addr, take.Len())
  }

  /** A run that takes a free range, works inside it without releasing anything, and then releases
      it or is refused. */
  ghost predicate Aborted(s: Space, ops: seq<Op>)
  {
    |ops| >= 2
    && var lo, n, body := ops[0].addr, ops[0].Len(), ops[1..|ops| - 1];
       (ops[0].Map? || ops[0].Alloc?) && Vacant(s, lo, lo + n)
       && AllInside(body, lo, lo + n) && NoRelease(body)
       && GivesBack(ops[0], ops[|ops| - 1])
  }

  ghost predicate WasRefused(ops: seq<Op>) { ops != [] && ops[|ops| - 1].Refused? }

  /** The system placed a position-independent image where the guard of `plan` refuses it. */
  predicate LeakGuard(image: Image, page: u64, raw: int)
  {
    image.ehdr.etype == ET_DYN && 0 <= raw < U64_LIMIT
    && PlanPre(image, page, At(raw)) && PlanRefuses(image, page, raw)
  }

  /** How each path takes its range: a mapping, or for a copied load an aligned block. */
  predicate TookFor(op: Op, image: Image, page: u64, copied: bool)
  {
    WellFormed(image, page)
    && if copied then op.Alloc? && image.ehdr.etype == ET_DYN && AlignedPlace(image, page, op.addr) else op.Map?
  }

  /** `plan` failed after the reservation was taken: nothing releases it. */
  ghost predicate PlanLeak(s: Space, ops: seq<Op>, image: Image, page: u64, copied: bool)
  {
    |ops| == 1 && TookFor(ops[0], image, page, copied) && Vacant(s, ops[0].addr, ops[0].addr + ops[0].Len())
    && LeakGuard(image, page, ops[0].addr) && ReservationLen(image, page) == Ok(ops[0].Len())
  }

  /** The runs of a failing load: nothing, a range taken and given back, or a leak; and it is a leak
      whenever the guard refuses the place. */
  ghost predicate FailedLoad(s: Space, ops: seq<Op>, image: Image, page: u64, copied: bool)
  {
    ops == [] || PlanLeak(s, ops, image, page, copied)
    || (Aborted(s, ops) && TookFor(ops[0], image, page, copied) && !LeakGuard(image, page, ops[0].addr))
  }

  lemma TakeKeepsRest(s: Space, op: Op, ops: seq<Op>, last: Op, a: int)
    ensures Look(Run(s, [op] + ops + [last]), a) ==
            CellAfter(last, a, After(ops, a, CellAfter(op, a, Look(s, a))))
  {
    RunLook(s, [op] + ops + [last], a);
    AfterConcat([op] + ops, [last], a, Look(s, a));
    AfterConcat([op], ops, a, Look(s, a));
  }

  /** Rollback is exact: an aborted run whose release went through, or that took nothing, changes
      nothing at all. */
  lemma AbortRestores(s: Space, ops: seq<Op>)
    requires Aborted(s, ops) && (!WasRefused(ops) || ops[0].Len() == 0)
    ensures Run(s, ops) == s
  {
    var lo, hi, body, last := ops[0].addr, ops[0].addr + ops[0].Len(), ops[1..|ops| - 1], ops[|ops| - 1];
    assert ops == [ops[0]] + body + [last];
    forall a ensures Look(Run(s, ops), a) == Look(s, a) {
      TakeKeepsRest(s, ops[0], body, last, a);
      if !(lo <= a < hi) {
        FrameOutside(body, lo, hi, a, Look(s, a));
      }
    }
    SpacesEqual(Run(s, ops), s);
  }

  lemma TakenIsNew(s: Space, op: Op)
    requires (op.Map? || op.Alloc?) && op.Len() > 0 && Vacant(s, op.addr, op.addr + op.Len())
    ensures op.addr !in s && Held(Apply(s, op), op.addr, op.addr + op.Len())
  {
    forall a | op.addr <= a < op.addr + op.Len() ensures a in Apply(s, op) {
      assert Look(Apply(s, op), a).Some?;
    }
  }

  lemma RefusedKeeps(s: Space, ops: seq<Op>)
    requires Aborted(s, ops) && WasRefused(ops) && ops[0].Len() > 0
    ensures ops[0].addr in Run(s, ops)
  {
    var a, body, last := ops[0].addr, ops[1..|ops| - 1], ops[|ops| - 1];
    TakenIsNew(s, ops[0]);
    RunLook(s, ops, a);
    assert ops == [ops[0]] + body + [last];
    TakeKeepsRest(s, ops[0], body, last, a);
    RunLook(Apply(s, ops[0]), body, a);
    StaysHeld(Apply(s, ops[0]), body, a, a + 1);
    assert Look(Run(s, ops), a).Some?;
  }

  lemma NothingTaken(s: Space, op: Op)
    requires op.Len() == 0
    ensures Apply(s, op) == s
  {
    SpacesEqual(Apply(s, op), s);
  }

  /** What a failing load has to meet to leave nothing: it took nothing, or its release was not refused
      and it was placed where the guard of `plan` passes. */
  ghost predicate LeavesNothing(ops: seq<Op>, image: Image, page: u64)
  {
    ops == [] || ops[0].Len() == 0 || (!WasRefused(ops) && !LeakGuard(image, page, ops[0].addr))
  }

  /** A failing load that does not restore the space leaves a new address mapped. */
  lemma FailureLeaves(s: Space, ops: seq<Op>, image: Image, page: u64, copied: bool) returns (a: int)
    requires FailedLoad(s, ops, image, page, copied) && !LeavesNothing(ops, image, page)
    ensures a !in s && a in Run(s, ops)
  {
    hide PlanPre, PlanRefuses;
    a := ops[0].addr;
    TakenIsNew(s, ops[0]);
    if |ops| == 1 {
      RunOne(s, ops[0]);
      assert ops == [ops[0]];
    } else {
      RefusedKeeps(s, ops);
    }
  }

  lemma FailureRestores(s: Space, ops: seq<Op>, image: Image, page: u64, copied: bool)
    requires FailedLoad(s, ops, image, page, copied) && LeavesNothing(ops, image, page)
    ensures Run(s, ops) == s
  {
    hide PlanPre, PlanRefuses;
    if ops != [] {
      if |ops| == 1 {
        RunOne(s, ops[0]);
        assert ops == [ops[0]];
        NothingTaken(s, ops[0]);
      } else {
        AbortRestores(s, ops);
      }
    }
  }

  /** A failing load restores the address space exactly when it took nothing, or its release was not
      refused and the guard of `plan` passes where the system placed the image. */
  lemma FailureRestoresExactly(s: Space, ops: seq<Op>, image: Image, page: u64, copied: bool)
    requires FailedLoad(s, ops, image, page, copied)
    ensures Run(s, ops) == s <==> LeavesNothing(ops, image, page)
  {
    hide FailedLoad, LeavesNothing;
    if LeavesNothing(ops, image, page) {
      FailureRestores(s, ops, image, page, copied);
    } else {
      var _ := FailureLeaves(s, ops, image, page, copied);
    }
  }

  // ------------------------------------------------------------ load_mapped

  /** Where the reservation for `placement` lies. */
  function ReserveAt(image: Image, page: u64, placement: Placement): (int, nat)
    requires WellFormed(image, page) && ReservationLen(image, page).Ok?
  {
    SpanCovers(image, page, 0);
    var (lo, hi) := VaSpan(image, page).value;
    if placement.At? then (placement.raw, ReservationLen(image, page).value) else (lo, hi - lo)
  }

  /** A PIE's reservation: wherever the system likes. */
  method TakeAnywhere(image: Image, vm: Vm, need: u64) returns (r: Result<Placement, Errno>, ghost ops: seq<Op>)
    requires vm.Valid() && WellFormed(image, vm.page) && ReservationLen(image, vm.page) == Ok(need)
    modifies vm
    ensures Issued(old(vm.space), old(vm.trace), vm.space, vm.trace, ops)
    ensures r.Ok? ==> r.value.At? && PlanPre(image, vm.page, r.value) && need > 0
                      && ops == [Reserve(r.value.raw, need)] && Vacant(old(vm.space), r.value.raw, r.value.raw + need)
    ensures r.Err? ==> ops == []
    ensures Blames(r.Ok?, old(vm.faults), vm.faults)
  {
    hide Rem, WellFormed, ReservationLen, Run, Apply, Vacant;
    NeedIsPages(image, vm.page);
    ghost var s0 := vm.space;
    var raw := vm.Map(Anywhere, need, PROT_NONE, Anon);
    IssuedNone(s0, vm.trace);
    if raw.Err? { return Err(raw.error), []; }
    ops := [Reserve(raw.value, need)];
    RunOne(s0, ops[0]);
    r := Ok(At(raw.value));
  }

  /** A fixed image's reservation: at `lo` or not at all. It is asked for as a hint, so nothing
      already there is displaced, and given back when it came back elsewhere. */
  method TakeLinkAddress(vm: Vm, lo: u64, span: u64) returns (ok: bool, ghost ops: seq<Op>)
    requires vm.Valid() && Rem(span, vm.page) == 0 && Rem(lo, vm.page) == 0 && lo + span < U64_LIMIT
    modifies vm
    ensures Issued(old(vm.space), old(vm.trace), vm.space, vm.trace, ops)
    ensures ok ==> ops == [Reserve(lo, span)] && span > 0 && Vacant(old(vm.space), lo, lo + span)
    ensures !ok ==> ops == [] || (Aborted(old(vm.space), ops) && ops[0].Map?)
    ensures ok ==> vm.faults == old(vm.faults)
    ensures !ok ==> vm.faults > old(vm.faults) || (ops != [] && ops[0].addr != lo && !Vacant(old(vm.space), lo, lo + span))
  {
    hide Rem;
    ghost var s0 := vm.space;
    var got := vm.Map(Hint(lo), span, PROT_NONE, Anon);
    if got.Err? { return false, []; }
    ops := [Reserve(got.value, span)];
    RunStep(s0, [], ops[0]);
    if got.value == lo { return true, ops; }
    TakenIsNew(s0, ops[0]);
    var gone := vm.Unmap(got.value, span);
    ghost var release := if gone then Op.Unmap(got.value, span) else Refused(got.value, span);
    RunStep(s0, ops, release);
    ops := ops + [release];
    ok := false;
  }

  /** Something lay in the link pages of a fixed image, and it was given another address. */
  ghost predicate Displaced(s: Space, image: Image, page: u64, ops: seq<Op>)
  {
    WellFormed(image, page) && image.ehdr.etype != ET_DYN && VaSpan(image, page).Ok?
    && var (lo, hi) := VaSpan(image, page).value;
       ops != [] && ops[0].addr != lo && !Vacant(s, lo, hi)
  }

  method TakeReservation(image: Image, vm: Vm) returns (r: Result<Placement, Errno>, ghost ops: seq<Op>)
    requires vm.Valid() && WellFormed(image, vm.page)
    modifies vm
    ensures Issued(old(vm.space), old(vm.trace), vm.space, vm.trace, ops)
    ensures r.Ok? ==> ReservationLen(image, vm.page).Ok? && PlanPre(image, vm.page, r.value)
                      && r.value.At? == (image.ehdr.etype == ET_DYN)
                      && var (lo, n) := ReserveAt(image, vm.page, r.value);
                         ops == [Reserve(lo, n)] && n > 0 && Vacant(old(vm.space), lo, lo + n)
    ensures r.Err? ==> ops == [] || (Aborted(old(vm.space), ops) && ops[0].Map?)
    ensures r.Ok? ==> vm.faults == old(vm.faults)
    ensures r.Err? ==> vm.faults > old(vm.faults) || (ops == [] && ReservationLen(image, vm.page).Err?) || Displaced(old(vm.space), image, vm.page, ops)
    ensures r.Err? && image.ehdr.etype == ET_DYN ==> ops == []
  {
    hide Rem;
    var need := ReservationLen(image, vm.page);
    if need.Err? { return Err(need.error), []; }
    if image.ehdr.etype == ET_DYN {
      r, ops := TakeAnywhere(image, vm, need.value);
      return;
    }
    ReservationPages(image, vm.page);
    var (lo, hi) := VaSpan(image, vm.page).value;
    var ok;
    ok, ops := TakeLinkAddress(vm, lo, hi - lo);
    r := if ok then Ok(Fixed) else Err(ENOMEM);
  }

  /** `plan` is what the planner makes of `image` where its reservation lies. */
  ghost predicate Planned(image: Image, page: u64, plan: LoadPlan)
  {
    Sound(image, page, plan)
    && PlanPre(image, page, PlacementOf(image, plan.reserveAddr))
    && PlanOf(image, page, PlacementOf(image, plan.reserveAddr)) == Ok(plan)
  }

  /** A planned image is well formed and its plan sound. */
  lemma PlannedWellFormed(image: Image, page: u64, plan: LoadPlan)
    requires Planned(image, page, plan)
    ensures WellFormed(image, page) && Sound(image, page, plan) && InTable(image.phdrs, image.loads)
  {
    hide PlanOf, PlanPre;
  }

  /** A complete mapped load: the plan is the image's own, its reservation was free, and the run is
      the reservation followed by everything `fill_mapped` issues. */
  ghost predicate MappedLoad(s: Space, ops: seq<Op>, image: Image, page: u64, plan: LoadPlan, fd: int, file: seq<byte>)
  {
    Planned(image, page, plan) && IdxInTable(image, plan.segments) && plan.reserveLen > 0
    && Vacant(s, plan.reserveAddr, ReserveEnd(plan))
    && ops == [Reserve(plan.reserveAddr, plan.reserveLen)] + FillOps(image, plan, fd, file)
  }

  /** The planning step between reservation and fill. */
  method PlanReserved(image: Image, page: u64, placement: Placement) returns (r: Result<LoadPlan, Errno>)
    requires PlanPre(image, page, placement) && ReservationLen(image, page).Ok?
    requires placement.At? == (image.ehdr.etype == ET_DYN)
    ensures r.Ok? ==> Planned(image, page, r.value)
                      && ReserveAt(image, page, placement) == (r.value.reserveAddr, r.value.reserveLen)
    ensures r.Ok? <==> !LeakGuard(image, page, ReserveAt(image, page, placement).0)
  {
    hide PlanOf, PlanPre, WellFormed, ReservationLen, LeakGuard, ReserveAt, Planned;
    r := Plan(image, page, placement);
    GuardDecides(image, page, placement);
    if r.Ok? { PlannedWhere(image, page, placement, r.value); }
  }

  lemma GuardDecides(image: Image, page: u64, placement: Placement)
    requires PlanPre(image, page, placement) && ReservationLen(image, page).Ok?
    requires placement.At? == (image.ehdr.etype == ET_DYN)
    ensures PlanOf(image, page, placement).Ok? <==> !LeakGuard(image, page, ReserveAt(image, page, placement).0)
  {
    hide PlanOf, WellFormed, PlanRefuses;
    PlanFailsExactly(image, page, placement);
  }

  lemma PlannedWhere(image: Image, page: u64, placement: Placement, plan: LoadPlan)
    requires PlanPre(image, page, placement) && ReservationLen(image, page).Ok? && PlanOf(image, page, placement) == Ok(plan)
    requires placement.At? == (image.ehdr.etype == ET_DYN)
    ensures Planned(image, page, plan) && ReserveAt(image, page, placement) == (plan.reserveAddr, plan.reserveLen)
  {
    hide PlanOf, WellFormed, Sound;
    PlanIsSound(image, page, placement);
    PlanFields(image, page, placement, plan);
  }

  /** Taking a vacant reservation makes all of `FillOps` legal. */
  lemma ReservedLegal(s: Space, image: Image, page: u64, plan: LoadPlan, fd: int, file: seq<byte>)
    requires Sound(image, page, plan) && Vacant(s, plan.reserveAddr, ReserveEnd(plan)) && plan.reserveLen > 0
    ensures IdxInTable(image, plan.segments)
    ensures Held(Apply(s, Reserve(plan.reserveAddr, plan.reserveLen)), plan.reserveAddr, ReserveEnd(plan))
    ensures Legal(Apply(s, Reserve(plan.reserveAddr, plan.reserveLen)), FillOps(image, plan, fd, file), page)
  {
    hide Rem;
    TakenIsNew(s, Reserve(plan.reserveAddr, plan.reserveLen));
    FillLegal(Apply(s, Reserve(plan.reserveAddr, plan.reserveLen)), image, page, plan, fd, file);
  }

  /** A prefix of the fill followed by a release is an aborted run, and the release is legal. */
  lemma AbortedFill(s: Space, image: Image, page: u64, plan: LoadPlan, fd: int, file: seq<byte>, done: seq<Op>, l: Loaded, ok: bool)
    requires Sound(image, page, plan) && IdxInTable(image, plan.segments)
    requires Vacant(s, plan.reserveAddr, ReserveEnd(plan)) && plan.reserveLen > 0
    requires done <= FillOps(image, plan, fd, file) && l.plan == plan && !l.onHeap
    ensures var take := Reserve(plan.reserveAddr, plan.reserveLen);
            Held(Run(Apply(s, take), done), plan.reserveAddr, ReserveEnd(plan))
            && Aborted(s, [take] + done + [ReleaseOp(l, ok)])
  {
    hide Rem;
    var take := Reserve(plan.reserveAddr, plan.reserveLen);
    TakenIsNew(s, take);
    FillInside(image, page, plan, fd, file);
    assert forall i :: 0 <= i < |done| ==> done[i] == FillOps(image, plan, fd, file)[i];
    StaysHeld(Apply(s, take), done, plan.reserveAddr, ReserveEnd(plan));
    var ops := [take] + done + [ReleaseOp(l, ok)];
    assert ops[1..|ops| - 1] == done;
  }

  /** `fill_mapped` on a reservation that was vacant in `s0`, undone when it fails. */
  method FillOrRelease(image: Image, fd: int, vm: Vm, plan: LoadPlan, ghost s0: Space) returns (ok: bool, ghost tail: seq<Op>)
    requires vm.Valid() && Sound(image, vm.page, plan) && plan.reserveLen > 0
    requires Vacant(s0, plan.reserveAddr, ReserveEnd(plan))
    requires vm.space == Apply(s0, Reserve(plan.reserveAddr, plan.reserveLen))
    modifies vm
    ensures Issued(old(vm.space), old(vm.trace), vm.space, vm.trace, tail)
    ensures ok ==> IdxInTable(image, plan.segments) && tail == FillOps(image, plan, fd, vm.FileOf(fd))
    ensures !ok ==> Aborted(s0, [Reserve(plan.reserveAddr, plan.reserveLen)] + tail)
    ensures Blames(ok, old(vm.faults), vm.faults)
  {
    hide Sound, FillOps, Aborted, Legal, Apply, Vacant, IdxInTable, Run;
    ghost var s1, t1 := vm.space, vm.trace;
    ReservedLegal(s0, image, vm.page, plan, fd, vm.FileOf(fd));
    ok, tail := FillMapped(image, fd, vm, plan);
    if !ok {
      ghost var last := GiveBack(image, fd, vm, plan, s0, tail);
      IssuedThen(s1, t1, tail, [last], vm.space, vm.trace);
      tail := tail + [last];
    }
  }

  /** The release after a failed fill: whatever was issued, the run so far becomes an aborted one. */
  method GiveBack(image: Image, fd: int, vm: Vm, plan: LoadPlan, ghost s0: Space, ghost done: seq<Op>) returns (ghost last: Op)
    requires vm.Valid() && Sound(image, vm.page, plan) && IdxInTable(image, plan.segments) && plan.reserveLen > 0
    requires Vacant(s0, plan.reserveAddr, ReserveEnd(plan)) && done <= FillOps(image, plan, fd, vm.FileOf(fd))
    requires vm.space == Run(Apply(s0, Reserve(plan.reserveAddr, plan.reserveLen)), done)
    modifies vm
    ensures Issued(old(vm.space), old(vm.trace), vm.space, vm.trace, [last]) && vm.faults >= old(vm.faults)
    ensures Aborted(s0, [Reserve(plan.reserveAddr, plan.reserveLen)] + (done + [last]))
  {
    hide Sound, FillOps, Aborted, Apply, Vacant, IdxInTable, Run, Held;
    ghost var s, take := vm.space, Reserve(plan.reserveAddr, plan.reserveLen);
    var l := Loaded(plan, false);
    AbortedFill(s0, image, vm.page, plan, fd, vm.FileOf(fd), done, l, true);
    var ok := Unload(l, vm);
    AbortedFill(s0, image, vm.page, plan, fd, vm.FileOf(fd), done, l, ok);
    last := ReleaseOp(l, ok);
    RunOne(s, last);
    assert [take] + (done + [last]) == [take] + done + [last];
  }

  /** `load_mapped`. */
  method LoadMapped(image: Image, fd: int, vm: Vm) returns (r: Result<Loaded, Errno>, ghost ops: seq<Op>)
    requires vm.Valid() && WellFormed(image, vm.page)
    modifies vm
    ensures Issued(old(vm.space), old(vm.trace), vm.space, vm.trace, ops)
    ensures r.Ok? ==> !r.value.onHeap && MappedLoad(old(vm.space), ops, image, vm.page, r.value.plan, fd, vm.FileOf(fd))
    ensures r.Err? ==> FailedLoad(old(vm.space), ops, image, vm.page, false)
    ensures r.Ok? ==> vm.faults == old(vm.faults)
    ensures r.Err? ==> vm.faults > old(vm.faults) || (ops == [] && ReservationLen(image, vm.page).Err?)
                       || Displaced(old(vm.space), image, vm.page, ops) || PlanLeak(old(vm.space), ops, image, vm.page, false)
  {
    hide Rem, Sound, PlanPre, PlanOf, WellFormed;
    ghost var s0, t0 := vm.space, vm.trace;
    var where;
    where, ops := TakeReservation(image, vm);
    if where.Err? { return Err(where.error), ops; }
    var planned := PlanReserved(image, vm.page, where.value);
    if planned.Err? { return Err(planned.error), ops; }
    var plan := planned.value;
    RunOne(s0, Reserve(plan.reserveAddr, plan.reserveLen));
    var ok; ghost var tail;
    ok, tail := FillOrRelease(image, fd, vm, plan, s0);
    IssuedThen(s0, t0, ops, tail, vm.space, vm.trace);
    ops := ops + tail;
    r := if ok then Ok(Loaded(plan, false)) else Err(ENOMEM);
  }
}
