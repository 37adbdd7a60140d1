/** The copy path on the test suite's address space. `alloc_aligned` gives one region for the whole
    block, and `protect` re-protects whole regions, so the closing protection pass leaves the last
    segment's protection everywhere. When that is still the flat address space, exactly. */
module FakeCopy {
  import opened Words
  import opened Elf
  import opened ElfWriter
  import opened Layout
  import opened AddressSpace
  import opened Blocks
  import opened MappedOps
  import opened CopiedOps
  import opened Loader
  import opened CopyLoader
  import opened LoadTheorems
  import opened IntervalMap
  import opened FakeLoad
  import opened PhdrAddress

  // ------------------------------------------------------ the shape of the block

  /** The load owns at least one page. */
  predicate OwnsPages(ph: Phdr, page: u64)
    requires page > 0
  {
    AlignDown(ph.vaddr, page) < Up(MemEnd(ph), page)
  }

  predicate AllOwn(image: Image, page: u64)
    requires page > 0 && InTable(image.phdrs, image.loads)
  {
    forall k :: 0 <= k < |image.loads| ==> OwnsPages(image.Load(k), page)
  }

  /** The pages of load `k` end where those of the next one start. */
  predicate Touches(image: Image, page: u64, k: nat)
    requires page > 0 && InTable(image.phdrs, image.loads) && k + 1 < |image.loads|
  {
    Up(MemEnd(image.Load(k)), page) == AlignDown(image.Load(k + 1).vaddr, page)
  }

  /** The pages of the loads fill an aligned block: no slack for alignment and no gap between them. */
  predicate FillsBlock(image: Image, page: u64)
    requires page > 0 && InTable(image.phdrs, image.loads)
  {
    SegAlign(image, page) == page && forall k :: 0 <= k < |image.loads| - 1 ==> Touches(image, page, k)
  }

  /** All loads ask for one protection, and it is the block's own or their pages fill the block. */
  predicate OneProtection(image: Image, page: u64)
    requires WellFormed(image, page) && page > 0
  {
    var p := ProtOf(image.Load(|image.loads| - 1));
    (forall k :: 0 <= k < |image.loads| ==> ProtOf(image.Load(k)) == p) && (p == RW || FillsBlock(image, page))
  }

  /** An aligned block starts with the first load; past the last one lies the slack. */
  lemma BlockShape(image: Image, page: u64, plan: LoadPlan)
    requires CopiedPlan(image, page, plan)
    ensures plan.base == plan.reserveAddr == Lo(image.Load(0), plan.bias, page)
    ensures plan.end == Hi(image.Load(|image.loads| - 1), plan.bias, page)
    ensures ReserveEnd(plan) == plan.end + (SegAlign(image, page) - page) && SegAlign(image, page) >= page
  {
    hide Rem, Sound, PlanOf;
    var raw, n := plan.reserveAddr, |image.loads| - 1;
    PlannedWellFormed(image, page, plan);
    PlanFields(image, page, At(raw), plan);
    AlignedBaseExists(image, page, raw);
    SegAlignFacts(image, page);
    UpOfMultiple(raw, SegAlign(image, page));
    SoundPage(image, page, plan);
    SegmentBounds(image.Load(0), plan.bias, page);
    SegmentBounds(image.Load(n), plan.bias, page);
  }

  /** A plan of an aligned block. */
  ghost predicate CopiedPlan(image: Image, page: u64, plan: LoadPlan)
  {
    page > 0 && WellFormed(image, page) && Planned(image, page, plan) && image.ehdr.etype == ET_DYN
    && AlignedPlace(image, page, plan.reserveAddr)
  }

  lemma ExtentMoves(image: Image, page: u64, plan: LoadPlan, k: nat)
    requires Sound(image, page, plan) && page > 0 && InTable(image.phdrs, image.loads) && k < |image.loads|
    ensures Lo(image.Load(k), plan.bias, page) == AlignDown(image.Load(k).vaddr, page) + plan.bias
    ensures Hi(image.Load(k), plan.bias, page) == Up(MemEnd(image.Load(k)), page) + plan.bias
    ensures plan.base <= Lo(image.Load(k), plan.bias, page) <= Hi(image.Load(k), plan.bias, page) <= plan.end
  {
    SoundPage(image, page, plan);
    SegmentBounds(image.Load(k), plan.bias, page);
  }

  lemma Ordered(image: Image, page: u64, plan: LoadPlan, i: nat, j: nat)
    requires Sound(image, page, plan) && page > 0 && InTable(image.phdrs, image.loads) && i < j < |image.loads|
    ensures Hi(image.Load(i), plan.bias, page) <= Lo(image.Load(j), plan.bias, page)
  {
  }

  /** Touching loads leave nothing between the first and any later one. */
  lemma {:induction false} FilledBelow(image: Image, page: u64, plan: LoadPlan, n: nat, a: int)
    requires Sound(image, page, plan) && page > 0 && InTable(image.phdrs, image.loads) && n < |image.loads|
    requires forall k :: 0 <= k < |image.loads| - 1 ==> Touches(image, page, k)
    requires Lo(image.Load(0), plan.bias, page) <= a < Hi(image.Load(n), plan.bias, page)
    ensures exists k :: 0 <= k < |image.loads| && OwnPages(image.Load(k), plan.bias, page, a)
  {
    hide Sound, Lo, Hi, Touches;
    if Lo(image.Load(n), plan.bias, page) <= a {
      assert OwnPages(image.Load(n), plan.bias, page, a);
    } else {
      assert Touches(image, page, n - 1);
      TouchMoves(image, page, plan, n - 1);
      FilledBelow(image, page, plan, n - 1, a);
    }
  }

  lemma TouchMoves(image: Image, page: u64, plan: LoadPlan, k: nat)
    requires Sound(image, page, plan) && page > 0 && InTable(image.phdrs, image.loads) && k + 1 < |image.loads|
    ensures Touches(image, page, k) <==> Hi(image.Load(k), plan.bias, page) == Lo(image.Load(k + 1), plan.bias, page)
  {
    hide Sound, Lo, Hi;
    ExtentMoves(image, page, plan, k);
    ExtentMoves(image, page, plan, k + 1);
  }

  /** Some address of the block belongs to no load. */
  ghost predicate HasGap(image: Image, page: u64, plan: LoadPlan)
    requires page > 0 && InTable(image.phdrs, image.loads)
  {
    exists a :: plan.reserveAddr <= a < ReserveEnd(plan) && Unowned(image, page, plan, a)
  }

  predicate Unowned(image: Image, page: u64, plan: LoadPlan, a: int)
    requires page > 0 && InTable(image.phdrs, image.loads)
  {
    forall k :: 0 <= k < |image.loads| ==> !OwnPages(image.Load(k), plan.bias, page, a)
  }

  lemma GapAfter(image: Image, page: u64, plan: LoadPlan, k: nat)
    requires Sound(image, page, plan) && page > 0 && InTable(image.phdrs, image.loads) && k + 1 < |image.loads|
    requires !Touches(image, page, k)
    ensures Unowned(image, page, plan, Hi(image.Load(k), plan.bias, page))
    ensures plan.base <= Hi(image.Load(k), plan.bias, page) < plan.end
  {
    hide Sound, Lo, Hi, Touches;
    var a := Hi(image.Load(k), plan.bias, page);
    TouchMoves(image, page, plan, k);
    Ordered(image, page, plan, k, k + 1);
    ExtentMoves(image, page, plan, k);
    ExtentMoves(image, page, plan, k + 1);
    forall j | 0 <= j < |image.loads| ensures !OwnPages(image.Load(j), plan.bias, page, a) {
      ExtentMoves(image, page, plan, j);
      if j < k { Ordered(image, page, plan, j, k); }
      if j > k + 1 { Ordered(image, page, plan, k + 1, j); }
    }
  }

  /** An aligned block has a gap exactly when the loads do not fill it. */
  lemma GapExactly(image: Image, page: u64, plan: LoadPlan)
    requires CopiedPlan(image, page, plan) && InTable(image.phdrs, image.loads)
    ensures HasGap(image, page, plan) <==> !FillsBlock(image, page)
  {
    hide Sound, Lo, Hi, Touches, Planned, WellFormed, AlignedPlace, SegAlign;
    PlannedWellFormed(image, page, plan);
    BlockShape(image, page, plan);
    WellFormedLoads(image, page);
    var n := |image.loads| - 1;
    if SegAlign(image, page) > page {
      forall k | 0 <= k < |image.loads| ensures !OwnPages(image.Load(k), plan.bias, page, plan.end) {
        ExtentMoves(image, page, plan, k);
      }
      ExtentMoves(image, page, plan, 0);
      assert Unowned(image, page, plan, plan.end);
    } else if k :| 0 <= k < n && !Touches(image, page, k) {
      GapAfter(image, page, plan, k);
    } else {
      forall a | plan.reserveAddr <= a < ReserveEnd(plan) ensures !Unowned(image, page, plan, a) {
        FilledBelow(image, page, plan, n, a);
      }
    }
  }

  lemma WellFormedLoads(image: Image, page: u64)
    requires WellFormed(image, page)
    ensures image.loads != [] && InTable(image.phdrs, image.loads)
  {
  }

  // ---------------------------------------------------------- the protection pass

  /** The regions after the first `n` calls of the protection pass. */
  function AfterPass(rs: Regions, segs: seq<SegmentPlan>, n: nat): Regions
    requires n <= |segs|
  {
    if n == 0 then rs
    else
      var seg := segs[n - 1];
      Reprotected(AfterPass(rs, segs, n - 1), seg.Range().0, seg.Range().0 + seg.Size(), seg.prot)
  }

  /** One region holds the whole block. */
  predicate BlockAt(rs: Regions, plan: LoadPlan)
  {
    plan.reserveAddr in rs && rs[plan.reserveAddr].len == plan.reserveLen && rs[plan.reserveAddr].file == None
  }

  lemma ReprotectBlock(rs: Regions, s: int, lo: int, hi: int, prot: Prot)
    requires Disjoint(rs) && s in rs && s <= lo < hi <= s + rs[s].len
    ensures Reprotected(rs, lo, hi, prot) == rs[s := rs[s].(prot := prot)]
    ensures Disjoint(rs[s := rs[s].(prot := prot)]) && Meets(rs, s, lo, hi)
  {
  }

  lemma SegmentInBlock(image: Image, page: u64, plan: LoadPlan, k: nat)
    requires Sound(image, page, plan) && page > 0 && InTable(image.phdrs, image.loads) && k < |image.loads|
    requires OwnsPages(image.Load(k), page)
    ensures k < |plan.segments| && plan.segments[k].prot == ProtOf(image.Load(k))
    ensures var seg := plan.segments[k];
            plan.reserveAddr <= seg.Range().0 < seg.Range().0 + seg.Size() <= ReserveEnd(plan)
  {
    RangeOf(image.loads[k], image.Load(k), plan.bias, page);
    SegProt(image.loads[k], image.Load(k), plan.bias, page);
    ExtentMoves(image, page, plan, k);
  }

  /** Each call re-protects the whole block: after the pass it has the last segment's protection. */
  lemma {:induction false} PassIsLast(rs: Regions, image: Image, page: u64, plan: LoadPlan, n: nat)
    requires Sound(image, page, plan) && page > 0 && InTable(image.phdrs, image.loads) && AllOwn(image, page)
    requires Disjoint(rs) && BlockAt(rs, plan) && 0 < n <= |image.loads|
    ensures |plan.segments| == |image.loads|
    ensures var r := plan.reserveAddr;
            AfterPass(rs, plan.segments, n) == rs[r := rs[r].(prot := ProtOf(image.Load(n - 1)))]
            && Disjoint(AfterPass(rs, plan.segments, n))
  {
    hide Sound, Disjoint, Reprotected, OwnsPages;
    SegmentCount(image, page, plan);
    var before, r := AfterPass(rs, plan.segments, n - 1), plan.reserveAddr;
    if n > 1 { PassIsLast(rs, image, page, plan, n - 1); }
    SegmentInBlock(image, page, plan, n - 1);
    var seg := plan.segments[n - 1];
    ReprotectBlock(before, r, seg.Range().0, seg.Range().0 + seg.Size(), seg.prot);
    assert before[r := before[r].(prot := seg.prot)] == rs[r := rs[r].(prot := seg.prot)];
  }

  lemma SegmentCount(image: Image, page: u64, plan: LoadPlan)
    requires Sound(image, page, plan)
    ensures |plan.segments| == |image.loads| && IdxInTable(image, plan.segments)
  {
  }

  function Granted(plan: LoadPlan): seq<bool> { seq(|plan.segments|, _ => true) }

  /** The protection the flat address space ends with at `a` of the block. */
  ghost predicate Wants(image: Image, page: u64, plan: LoadPlan, a: int, p: Prot)
    requires page > 0 && InTable(image.phdrs, image.loads)
  {
    (forall k :: 0 <= k < |image.loads| && OwnPages(image.Load(k), plan.bias, page, a) ==> ProtOf(image.Load(k)) == p)
    && (Unowned(image, page, plan, a) ==> p == RW)
  }

  ghost predicate BlockWants(image: Image, page: u64, plan: LoadPlan, p: Prot)
    requires page > 0 && InTable(image.phdrs, image.loads)
  {
    forall a :: plan.reserveAddr <= a < ReserveEnd(plan) ==> Wants(image, page, plan, a, p)
  }

  /** Inside the block the two views agree at `a` exactly when the flat one wants the last protection. */
  lemma PassAt(rs: Regions, image: Image, page: u64, plan: LoadPlan, a: int)
    requires Sound(image, page, plan) && page > 0 && WellFormed(image, page) && AllOwn(image, page)
    requires Disjoint(rs) && BlockAt(rs, plan) && rs[plan.reserveAddr].prot == RW && plan.reserveAddr <= a < ReserveEnd(plan)
    requires |plan.segments| == |image.loads| && Disjoint(AfterPass(rs, plan.segments, |image.loads|))
    ensures FlatAt(AfterPass(rs, plan.segments, |image.loads|), a) == After(ProtOps(plan, Granted(plan)), a, FlatAt(rs, a))
            <==> Wants(image, page, plan, a, ProtOf(image.Load(|image.loads| - 1)))
  {
    hide Sound, Disjoint, FlatAt, AfterPass, ProtOps, After, OwnsPages, Lo, Hi, ValidLoad, Up, IsPow2;
    var r, n := plan.reserveAddr, |image.loads|;
    PassIsLast(rs, image, page, plan, n);
    DataLength(rs, r);
    var c := rs[r].CellIn(a - r);
    FlatAtSpans(rs, r, a);
    FlatAtSpans(AfterPass(rs, plan.segments, n), r, a);
    ProtPassAt(image, page, plan, Granted(plan), a, c);
    ExtentsOwn(image, page, plan, a);
    if k :| 0 <= k < n && OwnPages(image.Load(k), plan.bias, page, a) {
      forall j | 0 <= j < n && OwnPages(image.Load(j), plan.bias, page, a) ensures j == k {
        OnlyOneOwner(image, page, plan, j, k, a);
      }
    }
  }

  lemma DataLength(rs: Regions, r: int)
    requires Disjoint(rs) && r in rs
    ensures |rs[r].data| == rs[r].len
  {
  }

  lemma ExtentsOwn(image: Image, page: u64, plan: LoadPlan, a: int)
    requires page > 0 && InTable(image.phdrs, image.loads)
    ensures forall k :: 0 <= k < |image.loads| ==>
              (Extents(image, page, plan)[k].Has(a) <==> OwnPages(image.Load(k), plan.bias, page, a))
  {
  }

  /** Outside the block nothing changes in either view. */
  lemma PassElsewhere(rs: Regions, image: Image, page: u64, plan: LoadPlan, a: int)
    requires Sound(image, page, plan) && page > 0 && WellFormed(image, page) && AllOwn(image, page)
    requires Disjoint(rs) && BlockAt(rs, plan) && !(plan.reserveAddr <= a < ReserveEnd(plan))
    requires |plan.segments| == |image.loads| && Disjoint(AfterPass(rs, plan.segments, |image.loads|))
    ensures FlatAt(AfterPass(rs, plan.segments, |image.loads|), a) == After(ProtOps(plan, Granted(plan)), a, FlatAt(rs, a))
  {
    hide Sound, Disjoint, FlatAt, AfterPass, ProtOps, After, OwnsPages, ValidLoad, Up, IsPow2;
    PassIsLast(rs, image, page, plan, |image.loads|);
    var m := AfterPass(rs, plan.segments, |image.loads|);
    assert forall t :: Spans(m, t, a) <==> Spans(rs, t, a);
    SameCells(rs, m, a);
    ProtInside(image, page, plan, Granted(plan));
    FrameOutside(ProtOps(plan, Granted(plan)), plan.reserveAddr, ReserveEnd(plan), a, FlatAt(rs, a));
  }

  /** Two views of an address agree in everything but protection. */
  predicate SameBytes(c: Option<Cell>, d: Option<Cell>)
  {
    c.Some? == d.Some? && (c.Some? ==> c.value.val == d.value.val && c.value.file == d.value.file)
  }

  /** Whatever protections it leaves, the pass keeps every byte and every backing. */
  lemma PassKeepsBytes(rs: Regions, image: Image, page: u64, plan: LoadPlan, a: int)
    requires Sound(image, page, plan) && page > 0 && WellFormed(image, page) && AllOwn(image, page)
    requires Disjoint(rs) && BlockAt(rs, plan)
    requires |plan.segments| == |image.loads| && Disjoint(AfterPass(rs, plan.segments, |image.loads|))
    ensures SameBytes(FlatAt(AfterPass(rs, plan.segments, |image.loads|), a), After(ProtOps(plan, Granted(plan)), a, FlatAt(rs, a)))
  {
    hide Sound, Disjoint, FlatAt, AfterPass, ProtOps, After, OwnsPages, Lo, Hi, ValidLoad, Up, IsPow2, Extents;
    if plan.reserveAddr <= a < ReserveEnd(plan) {
      var r, n := plan.reserveAddr, |image.loads|;
      PassIsLast(rs, image, page, plan, n);
      DataLength(rs, r);
      FlatAtSpans(rs, r, a);
      FlatAtSpans(AfterPass(rs, plan.segments, n), r, a);
      ProtPassAt(image, page, plan, Granted(plan), a, rs[r].CellIn(a - r));
    } else {
      PassElsewhere(rs, image, page, plan, a);
    }
  }

  /** The whole block wants one protection exactly when the image has it. */
  lemma WantsExactly(image: Image, page: u64, plan: LoadPlan)
    requires CopiedPlan(image, page, plan) && InTable(image.phdrs, image.loads) && AllOwn(image, page)
    ensures BlockWants(image, page, plan, ProtOf(image.Load(|image.loads| - 1))) <==> OneProtection(image, page)
  {
    hide Sound, Planned, AlignedPlace, FillsBlock, Lo, Hi, ValidLoad, Up, IsPow2, AlignDown;
    PlannedWellFormed(image, page, plan);
    GapExactly(image, page, plan);
    var p := ProtOf(image.Load(|image.loads| - 1));
    if BlockWants(image, page, plan, p) {
      forall k | 0 <= k < |image.loads| ensures ProtOf(image.Load(k)) == p {
        FirstOwned(image, page, plan, k);
        assert Wants(image, page, plan, Lo(image.Load(k), plan.bias, page), p);
      }
      if HasGap(image, page, plan) {
        var a :| plan.reserveAddr <= a < ReserveEnd(plan) && Unowned(image, page, plan, a);
        assert Wants(image, page, plan, a, p);
      }
    }
  }

  lemma FirstOwned(image: Image, page: u64, plan: LoadPlan, k: nat)
    requires Sound(image, page, plan) && page > 0 && InTable(image.phdrs, image.loads) && k < |image.loads|
    requires OwnsPages(image.Load(k), page)
    ensures OwnPages(image.Load(k), plan.bias, page, Lo(image.Load(k), plan.bias, page))
    ensures plan.reserveAddr <= Lo(image.Load(k), plan.bias, page) < ReserveEnd(plan)
  {
    ExtentMoves(image, page, plan, k);
  }

  /** The protection pass on one region is the flat one exactly when the image has one protection. */
  lemma PassIsFlatExactly(rs: Regions, image: Image, page: u64, plan: LoadPlan)
    requires CopiedPlan(image, page, plan) && InTable(image.phdrs, image.loads) && AllOwn(image, page)
    requires Disjoint(rs) && BlockAt(rs, plan) && rs[plan.reserveAddr].prot == RW
    ensures |plan.segments| == |image.loads| && Disjoint(AfterPass(rs, plan.segments, |image.loads|))
    ensures (forall a :: FlatAt(AfterPass(rs, plan.segments, |image.loads|), a) == After(ProtOps(plan, Granted(plan)), a, FlatAt(rs, a)))
            <==> OneProtection(image, page)
  {
    hide Sound, Planned, AlignedPlace, FlatAt, AfterPass, ProtOps, After, OneProtection, Wants, Disjoint, AllOwn, WellFormed, BlockAt;
    PlannedWellFormed(image, page, plan);
    WellFormedLoads(image, page);
    PassIsLast(rs, image, page, plan, |image.loads|);
    WantsExactly(image, page, plan);
    var p := ProtOf(image.Load(|image.loads| - 1));
    forall a ensures FlatAt(AfterPass(rs, plan.segments, |image.loads|), a) == After(ProtOps(plan, Granted(plan)), a, FlatAt(rs, a))
                     <==> (plan.reserveAddr <= a < ReserveEnd(plan) ==> Wants(image, page, plan, a, p))
    {
      if plan.reserveAddr <= a < ReserveEnd(plan) {
        PassAt(rs, image, page, plan, a);
      } else {
        PassElsewhere(rs, image, page, plan, a);
      }
    }
  }

  // ----------------------------------------------------------------- fill_copied

  /** One readable and writable region holds the block, and no region starts below zero. */
  predicate RwBlock(rs: Regions, plan: LoadPlan)
  {
    BlockAt(rs, plan) && rs[plan.reserveAddr].prot == RW && forall s :: s in rs ==> s >= 0
  }

  lemma ShapeKeepsBlock(rs: Regions, m: Regions, plan: LoadPlan)
    requires RwBlock(rs, plan) && SameShape(rs, m)
    ensures RwBlock(m, plan)
  {
  }

  /** A store inside the block, as `write` and `zero` want it. */
  lemma BlockWritable(vm: FakeVm, plan: LoadPlan, addr: int, n: nat)
    requires RwBlock(vm.regions, plan) && n > 0 && plan.reserveAddr <= addr && addr + n <= ReserveEnd(plan)
    ensures vm.Writable(addr, n)
  {
    assert Spans(vm.regions, plan.reserveAddr, addr);
  }

  /** The chunk loop: fails exactly when the file is too short. */
  method FakeChunks(vm: FakeVm, ph: Phdr, bias: u64, src: Source, plan: LoadPlan) returns (ok: bool, ghost done: seq<Op>)
    requires vm.Valid() && RwBlock(vm.regions, plan)
    requires ph.vaddr + bias + ph.filesz < U64_LIMIT && ph.offset + ph.filesz < U64_LIMIT
    requires plan.reserveAddr <= ph.vaddr + bias && ph.vaddr + bias + ph.filesz <= ReserveEnd(plan)
    modifies vm`regions, vm`log
    ensures vm.Valid() && RwBlock(vm.regions, plan) && vm.log == old(vm.log) + done
    ensures done <= ChunkOps(ph, bias, src.bytes, 0) && (ok ==> done == ChunkOps(ph, bias, src.bytes, 0))
    ensures ok <==> FileReadable(ph, src)
  {
    hide FlatAt, Disjoint, After, FileBytes, ChunkOps, RwBlock, SameShape, KeepsCuts, Paged;
    ghost var log, all := vm.log, ChunkOps(ph, bias, src.bytes, 0);
    var at: u64 := 0;
    ok, done := true, [];
    while at < ph.filesz
      invariant at <= ph.filesz && ok && vm.Valid() && RwBlock(vm.regions, plan)
      invariant at > 0 ==> src.CanRead(ph.offset, at)
      invariant done + ChunkOps(ph, bias, src.bytes, at) == all && vm.log == log + done
    {
      var n := Min(COPY_CHUNK, ph.filesz - at);
      var buf := ReadExact(src, ph.offset + at, n);
      if buf.None? {
        ok := false;
        return;
      }
      SliceIsFileBytes(src.bytes, ph.offset + at, n);
      BlockWritable(vm, plan, ph.vaddr + bias + at, n);
      ghost var rs := vm.regions;
      vm.Write(ph.vaddr + bias + at, buf.value);
      ShapeKeepsBlock(rs, vm.regions, plan);
      NextChunk(ph, bias, src.bytes, done, at);
      done := done + [Op.Write(ph.vaddr + bias + at, FileBytes(src.bytes, ph.offset + at, n))];
      at := at + n;
    }
    LastChunk(ph, bias, src.bytes, done);
  }

  method FakeCopySegment(vm: FakeVm, ph: Phdr, bias: u64, src: Source, plan: LoadPlan) returns (ok: bool, ghost done: seq<Op>)
    requires vm.Valid() && RwBlock(vm.regions, plan) && Placeable(ph, bias, vm.page)
    requires plan.reserveAddr <= Lo(ph, bias, vm.page) && Hi(ph, bias, vm.page) <= ReserveEnd(plan)
    modifies vm`regions, vm`log
    ensures vm.Valid() && RwBlock(vm.regions, plan) && vm.log == old(vm.log) + done
    ensures done <= CopySegOps(ph, bias, vm.page, src.bytes) && (ok ==> done == CopySegOps(ph, bias, vm.page, src.bytes))
    ensures ok <==> FileReadable(ph, src)
  {
    hide FlatAt, Disjoint, After, RwBlock, SameShape, KeepsCuts, Paged, ChunkOps, FileReadable, IsPow2, Up, AlignDown;
    SegmentBounds(ph, bias, vm.page);
    ok, done := FakeChunks(vm, ph, bias, src, plan);
    if ok {
      var z := ph.vaddr + bias + ph.filesz;
      if Hi(ph, bias, vm.page) > z {
        BlockWritable(vm, plan, z, Hi(ph, bias, vm.page) - z);
        ghost var rs := vm.regions;
        vm.Zero(z, Hi(ph, bias, vm.page) - z);
        ShapeKeepsBlock(rs, vm.regions, plan);
        done := done + [Op.Zero(z, Hi(ph, bias, vm.page) - z)];
      }
    }
  }

  method FakeCopySegments(vm: FakeVm, image: Image, src: Source, plan: LoadPlan) returns (ok: bool, ghost done: seq<Op>)
    requires vm.Valid() && RwBlock(vm.regions, plan) && Sound(image, vm.page, plan) && IdxInTable(image, plan.segments)
    modifies vm`regions, vm`log
    ensures vm.Valid() && RwBlock(vm.regions, plan) && vm.log == old(vm.log) + done
    ensures var all := Flatten(CopyBlocks(image, vm.page, plan, src.bytes), |plan.segments|);
            done <= all && (ok ==> done == all)
    ensures ok <==> Readable(image, src)
  {
    hide FlatAt, Disjoint, After, RwBlock, Sound, Placeable, CopySegOps, FileReadable, Lo, Hi;
    SoundTable(image, vm.page, plan);
    ghost var log, blocks := vm.log, CopyBlocks(image, vm.page, plan, src.bytes);
    ok, done := true, [];
    for k := 0 to |plan.segments|
      invariant ok && vm.Valid() && RwBlock(vm.regions, plan)
      invariant done == Flatten(blocks, k) && vm.log == log + done
      invariant forall j :: 0 <= j < k ==> FileReadable(image.Load(j), src)
    {
      SegmentPlaced(image, vm.page, plan, k);
      ghost var some;
      ok, some := FakeCopySegment(vm, image.phdrs[plan.segments[k].idx], plan.bias, src, plan);
      PrefixOfBlock(blocks, |plan.segments|, k, some);
      done := done + some;
      if !ok {
        assert !FileReadable(image.Load(k), src);
        return;
      }
    }
  }

  method FakeExecSync(vm: FakeVm, image: Image, plan: LoadPlan)
    requires vm.Valid() && IdxInTable(image, plan.segments)
    modifies vm`log
    ensures vm.Valid() && vm.log == old(vm.log) + Flatten(ExecBlocks(image, plan), |plan.segments|)
  {
    hide FlatAt, Disjoint, After, ExecOp;
    ghost var log, blocks := vm.log, ExecBlocks(image, plan);
    for k := 0 to |plan.segments|
      invariant vm.Valid() && vm.log == log + Flatten(blocks, k)
    {
      FakeSyncRange(vm, image, plan.segments[k]);
      assert Flatten(blocks, k + 1) == Flatten(blocks, k) + blocks[k];
    }
  }

  method FakeSyncRange(vm: FakeVm, image: Image, seg: SegmentPlan)
    requires vm.Valid() && seg.idx < |image.phdrs|
    modifies vm`log
    ensures vm.Valid() && vm.log == old(vm.log) + ExecOp(image, seg)
  {
    hide FlatAt, Disjoint, After;
    if image.phdrs[seg.idx].IsExec() { vm.IcacheSync(seg.Range().0, seg.Size()); }
  }

  /** A segment without a page asks to protect nothing, which no region meets. */
  lemma EmptyMeetsNothing(rs: Regions, image: Image, page: u64, plan: LoadPlan, k: nat)
    requires Sound(image, page, plan) && page > 0 && InTable(image.phdrs, image.loads) && k < |image.loads|
    requires !OwnsPages(image.Load(k), page) && Disjoint(rs) && forall s :: s in rs ==> s >= 0
    ensures k < |plan.segments|
    ensures var seg := plan.segments[k];
            forall s :: s in rs ==> !Meets(rs, s, seg.Range().0, seg.Range().0 + seg.Size())
  {
    hide Disjoint, OwnsPages;
    EmptyRange(image, page, plan, k);
  }

  lemma EmptyRange(image: Image, page: u64, plan: LoadPlan, k: nat)
    requires Sound(image, page, plan) && page > 0 && InTable(image.phdrs, image.loads) && k < |image.loads|
    requires !OwnsPages(image.Load(k), page)
    ensures k < |plan.segments| && plan.segments[k].Range() == (0, 0) && plan.segments[k].Size() == 0
  {
    RangeOf(image.loads[k], image.Load(k), plan.bias, page);
    ExtentMoves(image, page, plan, k);
  }

  /** One call of the pass. */
  method FakeProtectSegment(vm: FakeVm, image: Image, plan: LoadPlan, k: nat) returns (stopped: bool)
    requires vm.page > 0 && Sound(image, vm.page, plan) && InTable(image.phdrs, image.loads)
    requires k < |image.loads| == |plan.segments|
    requires Disjoint(vm.regions) && BlockAt(vm.regions, plan) && forall s :: s in vm.regions ==> s >= 0
    modifies vm`regions, vm`log
    ensures Disjoint(vm.regions) && BlockAt(vm.regions, plan) && vm.regions.Keys == old(vm.regions).Keys
    ensures stopped <==> !OwnsPages(image.Load(k), vm.page)
    ensures stopped ==> vm.log == old(vm.log)
    ensures !stopped ==> var seg := plan.segments[k];
                         vm.log == old(vm.log) + [ProtectOp(seg)]
                         && vm.regions == Reprotected(old(vm.regions), seg.Range().0, seg.Range().0 + seg.Size(), seg.prot)
  {
    hide Sound, Disjoint, Reprotected, OwnsPages, Whole, KeepsCuts, Paged, Meets, FlatAt, After;
    var seg := plan.segments[k];
    if OwnsPages(image.Load(k), vm.page) {
      SegmentInBlock(image, vm.page, plan, k);
      ReprotectBlock(vm.regions, plan.reserveAddr, seg.Range().0, seg.Range().0 + seg.Size(), seg.prot);
    } else {
      EmptyMeetsNothing(vm.regions, image, vm.page, plan, k);
    }
    stopped := vm.Protect(seg.Range().0, seg.Size(), seg.prot);
  }

  /** The protection pass: stopped by an assertion exactly at a segment without a page; otherwise the
      regions are those of `AfterPass`. */
  method FakeProtectPass(vm: FakeVm, image: Image, plan: LoadPlan) returns (stopped: bool)
    requires vm.page > 0 && Sound(image, vm.page, plan) && InTable(image.phdrs, image.loads)
    requires Disjoint(vm.regions) && BlockAt(vm.regions, plan) && forall s :: s in vm.regions ==> s >= 0
    modifies vm`regions, vm`log
    ensures Disjoint(vm.regions) && |plan.segments| == |image.loads| && old(vm.log) <= vm.log
    ensures stopped <==> !AllOwn(image, vm.page)
    ensures !stopped ==> vm.regions == AfterPass(old(vm.regions), plan.segments, |image.loads|)
                         && vm.log == old(vm.log) + ProtOps(plan, Granted(plan))
  {
    hide Sound, Disjoint, Reprotected, OwnsPages, FlatAt, After, ProtectOp, BlockAt, AfterPass, Flatten;
    SegmentCount(image, vm.page, plan);
    ghost var rs, log, blocks := vm.regions, vm.log, ProtBlocks(plan, Granted(plan));
    PassStarts(rs, plan);
    stopped := false;
    for k := 0 to |plan.segments|
      invariant !stopped && Disjoint(vm.regions) && BlockAt(vm.regions, plan) && vm.regions.Keys == rs.Keys
      invariant vm.regions == AfterPass(rs, plan.segments, k) && vm.log == log + Flatten(blocks, k)
      invariant forall j :: 0 <= j < k ==> OwnsPages(image.Load(j), vm.page)
    {
      stopped := FakeProtectSegment(vm, image, plan, k);
      if stopped { return; }
      PassSteps(rs, plan, k);
    }
  }

  lemma PassStarts(rs: Regions, plan: LoadPlan)
    ensures AfterPass(rs, plan.segments, 0) == rs && Flatten(ProtBlocks(plan, Granted(plan)), 0) == []
  {
  }

  lemma PassSteps(rs: Regions, plan: LoadPlan, k: nat)
    requires k < |plan.segments|
    ensures var seg := plan.segments[k];
            AfterPass(rs, plan.segments, k + 1) ==
              Reprotected(AfterPass(rs, plan.segments, k), seg.Range().0, seg.Range().0 + seg.Size(), seg.prot)
            && Flatten(ProtBlocks(plan, Granted(plan)), k + 1) ==
              Flatten(ProtBlocks(plan, Granted(plan)), k) + [ProtectOp(seg)]
  {
    hide Reprotected, ProtectOp;
  }

  // ----------------------------------------------------------------- load_copied

  /** Nothing lies at or above the heap pointer. */
  predicate HeapClear(rs: Regions, heap: int) { heap >= 0 && forall s :: s in rs ==> 0 <= s && s + rs[s].len <= heap }

  lemma ClearFits(rs: Regions, heap: int, align: nat, n: nat)
    requires HeapClear(rs, heap) && align > 0
    ensures Up(heap, align) >= heap && Fits(rs, Up(heap, align), n)
  {
    UpBounds(heap, align);
  }

  /** `fill_copied` up to the protection pass, or the release of the block when the file is too short. */
  method FakeCopyFill(vm: FakeVm, image: Image, src: Source, plan: LoadPlan, ghost s: Space, ghost junk: seq<byte>)
    returns (ok: bool, ghost tail: seq<Op>)
    requires vm.Valid() && RwBlock(vm.regions, plan) && Sound(image, vm.page, plan) && IdxInTable(image, plan.segments)
    requires Vacant(s, plan.reserveAddr, ReserveEnd(plan)) && |junk| == plan.reserveLen && plan.reserveLen > 0
    modifies vm`regions, vm`log
    ensures vm.Valid() && vm.log == old(vm.log) + tail && (ok <==> Readable(image, src))
    ensures ok ==> RwBlock(vm.regions, plan) && tail == CopyOps(image, vm.page, plan, src.bytes)
    ensures !ok ==> Aborted(s, [Alloc(plan.reserveAddr, junk)] + tail)
  {
    hide FlatAt, Disjoint, After, RwBlock, Sound, IdxInTable, Readable, Aborted, Flatten, Vacant, ExecOp, CopySegOps;
    ok, tail := FakeCopySegments(vm, image, src, plan);
    if ok {
      FakeExecSync(vm, image, plan);
      tail := tail + Flatten(ExecBlocks(image, plan), |plan.segments|);
    } else {
      PartOfCopy(image, vm.page, plan, src.bytes, tail);
      AbortedCopy(s, image, vm.page, plan, src.bytes, junk, tail);
      vm.FreeAligned(plan.reserveAddr, plan.reserveLen);
      assert [Alloc(plan.reserveAddr, junk)] + (tail + [Free(plan.reserveAddr, plan.reserveLen)])
          == [Alloc(plan.reserveAddr, junk)] + tail + [Free(plan.reserveAddr, plan.reserveLen)];
      tail := tail + [Free(plan.reserveAddr, plan.reserveLen)];
    }
  }

  lemma PartOfCopy(image: Image, page: u64, plan: LoadPlan, bytes: seq<byte>, done: seq<Op>)
    requires page > 0 && IdxInTable(image, plan.segments)
    requires done <= Flatten(CopyBlocks(image, page, plan, bytes), |plan.segments|)
    ensures done <= CopyOps(image, page, plan, bytes)
  {
  }

  function Zeros(n: nat): (z: seq<byte>)
    ensures |z| == n
  {
    seq(n, _ => 0)
  }

  /** The protection pass at the end of `fill_copied`. When it is not stopped, the regions are the flat
      space of the log exactly when the image has one protection. */
  method FakeFinish(vm: FakeVm, image: Image, plan: LoadPlan) returns (stopped: bool)
    requires vm.Valid() && RwBlock(vm.regions, plan) && CopiedPlan(image, vm.page, plan) && InTable(image.phdrs, image.loads)
    modifies vm`regions, vm`log
    ensures Disjoint(vm.regions) && |plan.segments| == |image.loads| && old(vm.log) <= vm.log
    ensures stopped <==> !AllOwn(image, vm.page)
    ensures !stopped ==> vm.log == old(vm.log) + ProtOps(plan, Granted(plan))
                         && (vm.Valid() <==> OneProtection(image, vm.page))
                         && forall a :: SameBytes(FlatAt(vm.regions, a), After(vm.log, a, None))
  {
    hide FlatAt, Disjoint, After, Sound, AfterPass, ProtOps, OneProtection, AllOwn, Planned, WellFormed, AlignedPlace, BlockAt, SameBytes;
    PlannedWellFormed(image, vm.page, plan);
    ghost var rs, log := vm.regions, vm.log;
    stopped := FakeProtectPass(vm, image, plan);
    if !stopped {
      PassIsFlatExactly(rs, image, vm.page, plan);
      forall a ensures After(vm.log, a, None) == After(ProtOps(plan, Granted(plan)), a, FlatAt(rs, a))
               ensures SameBytes(FlatAt(vm.regions, a), After(vm.log, a, None))
      {
        AfterConcat(log, ProtOps(plan, Granted(plan)), a, None);
        PassKeepsBytes(rs, image, vm.page, plan, a);
      }
    }
  }

  /** `alloc_aligned` for the image, above everything that is mapped. */
  method FakeTakeBlock(vm: FakeVm, image: Image, need: u64) returns (raw: int, ghost s: Space)
    requires vm.Valid() && HeapClear(vm.regions, vm.heap) && WellFormed(image, vm.page) && need > 0
    modifies vm
    ensures vm.Valid() && vm.log == old(vm.log) + [Alloc(raw, Zeros(need))] && s == Run(map[], old(vm.log))
    ensures raw >= 0 && AlignedPlace(image, vm.page, raw) && Vacant(s, raw, raw + need)
    ensures raw in vm.regions && vm.regions[raw] == Region(need, RW, Zeros(need), None)
    ensures forall t :: t in vm.regions ==> t >= 0
  {
    hide FlatAt, Disjoint, After, Fits, Up, WellFormed, Run;
    WellFormedLoads(image, vm.page);
    SegAlignFacts(image, vm.page);
    ghost var rs, log := vm.regions, vm.log;
    ClearFits(rs, vm.heap, SegAlign(image, vm.page), need);
    raw := vm.AllocAligned(SegAlign(image, vm.page), need);
    FitsIsVacant(rs, log, raw, need);
    s := Run(map[], log);
  }

  /** `load_copied` on the interval map. When it is done, the run is a complete copied load of the
      address space the log describes, but the regions are that space only when the image has one
      protection, and then they are; in bytes and backing they always are. It is stopped where the
      block leaves 64 bits or at a segment without a page. */
  method FakeLoadCopied(vm: FakeVm, image: Image, src: Source) returns (r: Outcome, ghost ops: seq<Op>)
    requires vm.Valid() && HeapClear(vm.regions, vm.heap) && WellFormed(image, vm.page)
    requires VaSpan(image, vm.page).Ok? ==> VaSpan(image, vm.page).value.0 < VaSpan(image, vm.page).value.1
    modifies vm
    ensures r.Done? ==> vm.log == old(vm.log) + ops && Readable(image, src)
                        && CopiedLoad(Run(map[], old(vm.log)), ops, image, vm.page, r.plan, src.bytes,
                                      Zeros(r.plan.reserveLen), Granted(r.plan))
                        && (vm.Valid() <==> OneProtection(image, vm.page))
                        && Disjoint(vm.regions)
                        && forall a :: SameBytes(FlatAt(vm.regions, a), Look(Run(Run(map[], old(vm.log)), ops), a))
    ensures r.Failed? ==> vm.Valid() && vm.log == old(vm.log) + ops
                          && FailedLoad(Run(map[], old(vm.log)), ops, image, vm.page, true)
                          && (image.ehdr.etype != ET_DYN || ReservationLen(image, vm.page).Err? || !Readable(image, src)
                              || PlanLeak(Run(map[], old(vm.log)), ops, image, vm.page, true))
    ensures r.Stopped? ==> !AllOwn(image, vm.page)
                           || (ReservationLen(image, vm.page).Ok? && |ops| == 1
                               && ops[0].addr + ReservationLen(image, vm.page).value >= U64_LIMIT)
  {
    hide FlatAt, Disjoint, After, Up, WellFormed, Run, LeakGuard, PlanPre, Readable, Aborted, AlignedPlace, AllOwn, OneProtection;
    hide CopiedLoad, Sound, PlanOf, Vacant, Zeros, Granted, SameBytes;
    r, ops := Failed, [];
    if image.ehdr.etype != ET_DYN { return; }
    var need := ReservationLen(image, vm.page);
    if need.Err? { return; }
    SpanReserved(image, vm.page);
    var raw; ghost var s;
    raw, s := FakeTakeBlock(vm, image, need.value);
    ghost var take := Alloc(raw, Zeros(need.value));
    ops := [take];
    if raw + need.value >= U64_LIMIT { return Stopped, ops; }
    BlockPlaced(image, vm.page, raw);
    var planned := PlanReserved(image, vm.page, At(raw));
    if planned.Err? { return; }
    ghost var tail;
    r, tail := FakeCopyAt(vm, image, src, planned.value, s);
    assert old(vm.log) + [take] + tail == old(vm.log) + ([take] + tail);
    ops := [take] + tail;
    if r.Done? { BytesInSpace(vm.regions, old(vm.log), ops); }
  }

  /** `fill_copied` in a block just taken. */
  method FakeCopyAt(vm: FakeVm, image: Image, src: Source, plan: LoadPlan, ghost s: Space) returns (r: Outcome, ghost tail: seq<Op>)
    requires vm.Valid() && CopiedPlan(image, vm.page, plan) && plan.reserveLen > 0
    requires RwBlock(vm.regions, plan) && Vacant(s, plan.reserveAddr, ReserveEnd(plan))
    modifies vm`regions, vm`log
    ensures r.Done? ==> r.plan == plan && vm.log == old(vm.log) + tail && Readable(image, src)
                        && CopiedLoad(s, [Alloc(plan.reserveAddr, Zeros(plan.reserveLen))] + tail, image, vm.page, plan, src.bytes,
                                      Zeros(plan.reserveLen), Granted(plan))
                        && (vm.Valid() <==> OneProtection(image, vm.page))
                        && Disjoint(vm.regions) && forall a :: SameBytes(FlatAt(vm.regions, a), After(vm.log, a, None))
    ensures r.Failed? ==> vm.Valid() && vm.log == old(vm.log) + tail && !Readable(image, src)
                          && Aborted(s, [Alloc(plan.reserveAddr, Zeros(plan.reserveLen))] + tail)
    ensures r.Stopped? ==> WellFormed(image, vm.page) && !AllOwn(image, vm.page)
  {
    hide FlatAt, Disjoint, After, WellFormed, Readable, Aborted, AlignedPlace, AllOwn, OneProtection, RwBlock, Sound, Planned;
    hide CopyOps, ProtOps, Vacant, IdxInTable, SameBytes;
    r := Failed;
    PlannedWellFormed(image, vm.page, plan);
    SegmentCount(image, vm.page, plan);
    var ok;
    ok, tail := FakeCopyFill(vm, image, src, plan, s, Zeros(plan.reserveLen));
    if ok {
      var stopped := FakeFinish(vm, image, plan);
      tail := tail + ProtOps(plan, Granted(plan));
      r := if stopped then Stopped else Done(plan);
    }
  }

  lemma BytesInSpace(rs: Regions, log: seq<Op>, ops: seq<Op>)
    requires Disjoint(rs) && forall a :: SameBytes(FlatAt(rs, a), After(log + ops, a, None))
    ensures forall a :: SameBytes(FlatAt(rs, a), Look(Run(Run(map[], log), ops), a))
  {
    hide FlatAt, Disjoint, SameBytes, Run, After;
    RunConcat(map[], log, ops);
    forall a ensures SameBytes(FlatAt(rs, a), Look(Run(Run(map[], log), ops), a)) {
      RunLook(map[], log + ops, a);
    }
  }

  /** What a test reads back: after a copied load, whatever its protections, the interval map holds the
      image. */
  lemma FakeHoldsCopy(rs: Regions, s: Space, ops: seq<Op>, image: Image, page: u64, plan: LoadPlan, bytes: seq<byte>,
                      junk: seq<byte>, granted: seq<bool>, k: nat, v: int)
    requires Disjoint(rs) && CopiedLoad(s, ops, image, page, plan, bytes, junk, granted)
    requires SameBytes(FlatAt(rs, v + plan.bias), Look(Run(s, ops), v + plan.bias))
    requires k < |image.loads| && image.Load(k).vaddr <= v < Up(MemEnd(image.Load(k)), page)
    ensures FlatAt(rs, v + plan.bias).Some? && FlatAt(rs, v + plan.bias).value.val == LinkedByte(image.Load(k), bytes, v)
  {
    hide FlatAt, Disjoint, CopiedLoad, Run, LinkedByte;
    CopiedByte(s, ops, image, page, plan, bytes, junk, granted, k, v);
  }

  lemma SpanReserved(image: Image, page: u64)
    requires WellFormed(image, page) && ReservationLen(image, page).Ok?
    requires VaSpan(image, page).value.0 < VaSpan(image, page).value.1
    ensures ReservationLen(image, page).value > 0
  {
    SegAlignFacts(image, page);
  }

  lemma BlockPlaced(image: Image, page: u64, raw: int)
    requires WellFormed(image, page) && ReservationLen(image, page).Ok? && 0 <= raw && AlignedPlace(image, page, raw)
    requires raw + ReservationLen(image, page).value < U64_LIMIT
    ensures PlanPre(image, page, At(raw)) && ReserveAt(image, page, At(raw)) == (raw, ReservationLen(image, page).value)
  {
    hide ReservationLen, VaSpan, WellFormed, SegAlign;
    WellFormedLoads(image, page);
    SegAlignFacts(image, page);
    DividesTrans(raw, SegAlign(image, page), page);
  }

  // ----------------------------------------------------------- an accepted witness

  const RX := Prot(true, false, true)

  lemma GapProtections(image: Image, page: u64, v: u64)
    requires WellFormed(image, page) && 4096 <= page < 0x1_0000_0000 && image.phdrs == GapTable(page, v) && image.loads == [0, 1]
    ensures ProtOf(image.Load(0)) == RX && ProtOf(image.Load(1)) == RW && AllOwn(image, page) && !OneProtection(image, page)
  {
    hide Up, AlignDown, WellFormed, FillsBlock;
    GapPages(page);
    GapLoadsValid(page, v, image.phdrs, None);
  }

  lemma GapAlignedPlan(image: Image, page: u64, v: u64) returns (plan: LoadPlan)
    requires WellFormed(image, page) && 4096 <= page < 0x1_0000_0000 && image.ehdr.entry == 0
    requires image.phdrs == GapTable(page, v) && image.loads == [0, 1] && image.ehdr.etype == ET_DYN
    ensures CopiedPlan(image, page, plan)
  {
    hide WellFormed, Planned, SegAlign, Up, AlignDown;
    plan := GapPlan(image, page, v);
    GapAlign(image, page, v);
    PlannedAt(image, page, plan);
  }

  lemma PlannedAt(image: Image, page: u64, plan: LoadPlan)
    requires Planned(image, page, plan)
    ensures page > 0 && Rem(plan.reserveAddr, page) == 0
  {
    hide PlanOf, PlanPre;
  }

  /** What the pass leaves on the first page of the first load, in each view. */
  lemma FirstPageAfterPass(rs: Regions, image: Image, page: u64, plan: LoadPlan)
    requires CopiedPlan(image, page, plan) && InTable(image.phdrs, image.loads) && AllOwn(image, page)
    requires Disjoint(rs) && BlockAt(rs, plan) && rs[plan.reserveAddr].prot == RW
    ensures |plan.segments| == |image.loads| && Disjoint(AfterPass(rs, plan.segments, |image.loads|))
    ensures var c := FlatAt(AfterPass(rs, plan.segments, |image.loads|), plan.base);
            c.Some? && c.value.prot == ProtOf(image.Load(|image.loads| - 1))
    ensures var c := After(ProtOps(plan, Granted(plan)), plan.base, FlatAt(rs, plan.base));
            c.Some? && c.value.prot == ProtOf(image.Load(0))
  {
    hide Sound, Planned, AlignedPlace, FlatAt, AfterPass, ProtOps, After, Disjoint, WellFormed, OwnsPages, Lo, Hi;
    var r, n := plan.reserveAddr, |image.loads|;
    PlannedWellFormed(image, page, plan);
    WellFormedLoads(image, page);
    BlockShape(image, page, plan);
    FirstOwned(image, page, plan, 0);
    PassIsLast(rs, image, page, plan, n);
    DataLength(rs, r);
    FlatAtSpans(rs, r, r);
    FlatAtSpans(AfterPass(rs, plan.segments, n), r, r);
    ProtPassAt(image, page, plan, Granted(plan), r, rs[r].CellIn(0));
    ExtentsOwn(image, page, plan, r);
  }

  /** The spill is real: a file that the parser accepts, with a read-execute load and a read-write one,
      and a plan by which a copied load on the interval map leaves the first page of its text
      readable and writable, where the flat address space has it readable and executable. */
  lemma CopyCanSpill(native: u16, page: u64) returns (src: Source, image: Image, plan: LoadPlan)
    requires IsPow2(page) && 4096 <= page < 0x1_0000_0000
    ensures src.Valid() && Accepts(src, page, native) && image == ImageOf(src) && CopiedPlan(image, page, plan)
    ensures InTable(image.phdrs, image.loads) && AllOwn(image, page) && !OneProtection(image, page)
    ensures |plan.segments| == |image.loads|
    ensures forall rs: Regions :: Disjoint(rs) && BlockAt(rs, plan) && rs[plan.reserveAddr].prot == RW ==>
              SpillsAt(rs, plan, RW, RX)
  {
    hide Accepts, ImageOf, WellFormed, EhdrBytes, TableBytes, FromTable, GapTable, CopiedPlan, AllOwn, OneProtection, Disjoint;
    hide SpillsAt, GapEhdr;
    var mid, end;
    src, mid, end := GapFile(page, native, 0);
    image := FromTable(GapEhdr(native), GapTable(page, 0));
    GapImage(src, mid, end, page, native, 0, image);
    plan := GapAlignedPlan(image, page, 0);
    GapProtections(image, page, 0);
    WellFormedLoads(image, page);
    PlanCounts(image, page, plan);
    forall rs: Regions | Disjoint(rs) && BlockAt(rs, plan) && rs[plan.reserveAddr].prot == RW ensures SpillsAt(rs, plan, RW, RX) {
      SpillAt(rs, image, page, plan);
    }
  }

  lemma PlanCounts(image: Image, page: u64, plan: LoadPlan)
    requires CopiedPlan(image, page, plan)
    ensures |plan.segments| == |image.loads|
  {
    hide Planned, AlignedPlace, WellFormed, Sound;
    PlannedWellFormed(image, page, plan);
    SegmentCount(image, page, plan);
  }

  /** After the pass the interval map has `got` on the first page of the block, the flat space `wanted`. */
  ghost predicate SpillsAt(rs: Regions, plan: LoadPlan, got: Prot, wanted: Prot)
    requires Disjoint(rs)
  {
    var m := AfterPass(rs, plan.segments, |plan.segments|);
    Disjoint(m)
    && var c, d := FlatAt(m, plan.base), After(ProtOps(plan, Granted(plan)), plan.base, FlatAt(rs, plan.base));
       c.Some? && c.value.prot == got && d.Some? && d.value.prot == wanted
  }

  lemma SpillAt(rs: Regions, image: Image, page: u64, plan: LoadPlan)
    requires CopiedPlan(image, page, plan) && InTable(image.phdrs, image.loads) && AllOwn(image, page) && |image.loads| == 2
    requires ProtOf(image.Load(0)) == RX && ProtOf(image.Load(1)) == RW
    requires Disjoint(rs) && BlockAt(rs, plan) && rs[plan.reserveAddr].prot == RW
    ensures SpillsAt(rs, plan, RW, RX)
  {
    hide CopiedPlan, AllOwn, Disjoint, BlockAt, FlatAt, After, AfterPass, ProtOps;
    FirstPageAfterPass(rs, image, page, plan);
  }
}
