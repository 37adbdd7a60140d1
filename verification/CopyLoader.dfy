/** The copy path: one aligned block, contents read in chunk by chunk. */
module CopyLoader {
  import opened Words
  import opened Elf
  import opened Layout
  import opened AddressSpace
  import opened VirtualMemory
  import opened Blocks
  import opened MappedOps
  import opened CopiedOps
  import opened Loader

  /** `read_exact_at` of a source that may also fail for reasons of its own, counted as a fault. */
  method ReadAt(src: Source, off: u64, n: nat, vm: Vm) returns (r: Option<seq<byte>>)
    modifies vm`faults
    ensures r.Some? ==> vm.faults == old(vm.faults)
    ensures r.None? ==> vm.faults > old(vm.faults) || !src.CanRead(off, n)
    ensures r.Some? ==> src.CanRead(off, n) && |r.value| == n && r.value == FileBytes(src.bytes, off, n)
  {
    var broken: bool := *;
    if broken {
      vm.faults := vm.faults + 1;
      return None;
    }
    if !src.CanRead(off, n) {
      return None;
    }
    r := Some(src.bytes[off..off + n]);
    SliceIsFileBytes(src.bytes, off, n);
  }

  lemma SliceIsFileBytes(bytes: seq<byte>, off: int, n: nat)
    requires 0 <= off && off + n <= |bytes|
    ensures bytes[off..off + n] == FileBytes(bytes, off, n)
  {
    forall i | 0 <= i < n ensures bytes[off..off + n][i] == FileBytes(bytes, off, n)[i] {
      assert FileBytes(bytes, off, n)[i] == FileByte(bytes, off + i);
    }
  }

  lemma OneStore(s: Space, op: Op, lo: int, hi: int)
    requires op.Stores() && lo <= op.addr && op.addr + op.Len() <= hi && Writable(s, lo, hi)
    ensures Writable(s, op.addr, op.addr + op.Len()) && Writable(Apply(s, op), lo, hi)
  {
    StoresLegal(s, [op], lo, hi, 1);
    RunOne(s, op);
  }

  /** One chunk: read, then write. */
  method CopyChunk(addr: u64, off: u64, n: u64, src: Source, vm: Vm, ghost lo: int, ghost hi: int) returns (ok: bool)
    requires lo <= addr && addr + n <= hi && Writable(vm.space, lo, hi)
    modifies vm
    ensures Issued(old(vm.space), old(vm.trace), vm.space, vm.trace,
                   if ok then [Op.Write(addr, FileBytes(src.bytes, off, n))] else [])
    ensures Writable(vm.space, lo, hi)
    ensures ok ==> vm.faults == old(vm.faults) && src.CanRead(off, n)
    ensures !ok ==> vm.faults > old(vm.faults) || !src.CanRead(off, n)
  {
    var buf := ReadAt(src, off, n, vm);
    if buf.None? { return false; }
    ghost var s, op := vm.space, Op.Write(addr, buf.value);
    OneStore(s, op, lo, hi);
    ok := vm.Write(addr, buf.value);
    RunOne(s, op);
  }

  /** The source holds the file part of `ph`. */
  predicate FileReadable(ph: Phdr, src: Source) { ph.filesz > 0 ==> src.CanRead(ph.offset, ph.filesz) }

  /** One turn of the chunk loop moves one write from what is left to what is done. */
  lemma NextChunk(ph: Phdr, bias: int, bytes: seq<byte>, done: seq<Op>, at: nat)
    requires at < ph.filesz
    ensures var n := Min(COPY_CHUNK, ph.filesz - at);
            var op := Op.Write(ph.vaddr + bias + at, FileBytes(bytes, ph.offset + at, n));
            done + ChunkOps(ph, bias, bytes, at) == (done + [op]) + ChunkOps(ph, bias, bytes, at + n)
  {
    hide FileBytes;
  }

  lemma LastChunk(ph: Phdr, bias: int, bytes: seq<byte>, done: seq<Op>)
    ensures done + ChunkOps(ph, bias, bytes, ph.filesz) == done
  {
  }

  /** The chunk loop of `fill_copied`. */
  method CopyChunks(ph: Phdr, bias: u64, src: Source, vm: Vm, ghost lo: int, ghost hi: int)
    returns (ok: bool, ghost done: seq<Op>)
    requires ph.vaddr + bias + ph.filesz < U64_LIMIT && ph.offset + ph.filesz < U64_LIMIT
    requires lo <= ph.vaddr + bias && ph.vaddr + bias + ph.filesz <= hi && Writable(vm.space, lo, hi)
    modifies vm
    ensures done <= ChunkOps(ph, bias, src.bytes, 0) && (ok ==> done == ChunkOps(ph, bias, src.bytes, 0))
    ensures Issued(old(vm.space), old(vm.trace), vm.space, vm.trace, done) && Writable(vm.space, lo, hi)
    ensures ok ==> vm.faults == old(vm.faults) && FileReadable(ph, src)
    ensures !ok ==> vm.faults > old(vm.faults) || !FileReadable(ph, src)
  {
    hide Writable, Apply, FileBytes, Run, ChunkOps;
    IssuedNone(vm.space, vm.trace);
    ghost var s0, t0, all := vm.space, vm.trace, ChunkOps(ph, bias, src.bytes, 0);
    var at: u64 := 0;
    ok, done := true, [];
    while at < ph.filesz
      invariant at <= ph.filesz && ok && vm.faults == old(vm.faults)
      invariant at > 0 ==> src.CanRead(ph.offset, at)
      invariant done + ChunkOps(ph, bias, src.bytes, at) == all
      invariant Issued(s0, t0, vm.space, vm.trace, done) && Writable(vm.space, lo, hi)
    {
      var n := Min(COPY_CHUNK, ph.filesz - at);
      ok := CopyChunk(ph.vaddr + bias + at, ph.offset + at, n, src, vm, lo, hi);
      if !ok {
        IssuedThen(s0, t0, done, [], vm.space, vm.trace);
        assert done + [] == done;
        return;
      }
      ghost var op := Op.Write(ph.vaddr + bias + at, FileBytes(src.bytes, ph.offset + at, n));
      IssuedThen(s0, t0, done, [op], vm.space, vm.trace);
      NextChunk(ph, bias, src.bytes, done, at);
      done := done + [op];
      at := at + n;
    }
    LastChunk(ph, bias, src.bytes, done);
  }

  /** One segment of `fill_copied`: its file bytes, then zeroes to the page-rounded end. */
  method CopySegment(ph: Phdr, bias: u64, src: Source, vm: Vm, ghost lo: int, ghost hi: int)
    returns (ok: bool, ghost done: seq<Op>)
    requires vm.Valid() && Placeable(ph, bias, vm.page)
    requires lo <= Lo(ph, bias, vm.page) && Hi(ph, bias, vm.page) <= hi && Writable(vm.space, lo, hi)
    modifies vm
    ensures done <= CopySegOps(ph, bias, vm.page, src.bytes) && (ok ==> done == CopySegOps(ph, bias, vm.page, src.bytes))
    ensures Issued(old(vm.space), old(vm.trace), vm.space, vm.trace, done) && Writable(vm.space, lo, hi)
    ensures ok ==> vm.faults == old(vm.faults) && FileReadable(ph, src)
    ensures !ok ==> vm.faults > old(vm.faults) || !FileReadable(ph, src)
  {
    hide Rem, Writable, Apply;
    SegmentBounds(ph, bias, vm.page);
    AlignUpFits(ph.vaddr + bias + ph.memsz, Hi(ph, bias, vm.page), vm.page);
    ghost var s0, t0 := vm.space, vm.trace;
    ok, done := CopyChunks(ph, bias, src, vm, lo, hi);
    if !ok { return; }
    var memEnd: u64 := AlignUp(ph.vaddr + bias + ph.memsz, vm.page).value;
    var zstart: u64 := ph.vaddr + bias + ph.filesz;
    if memEnd > zstart {
      ghost var op := Op.Zero(zstart, memEnd - zstart);
      assert TailOp(ph, bias, vm.page) == [op];
      OneStore(vm.space, op, lo, hi);
      ok := vm.Zero(zstart, memEnd - zstart);
      if !ok { return; }
      RunStep(s0, done, op);
      done := done + [op];
    }
  }

  /** The source holds the whole file part of every load. */
  ghost predicate Readable(image: Image, src: Source)
  {
    InTable(image.phdrs, image.loads)
    && forall k :: 0 <= k < |image.loads| ==> FileReadable(image.Load(k), src)
  }

  /** The segment loop of `fill_copied`. */
  method CopySegments(image: Image, src: Source, vm: Vm, plan: LoadPlan) returns (ok: bool, ghost done: seq<Op>)
    requires vm.Valid() && Sound(image, vm.page, plan) && IdxInTable(image, plan.segments)
    requires Writable(vm.space, plan.reserveAddr, ReserveEnd(plan))
    modifies vm
    ensures var all := Flatten(CopyBlocks(image, vm.page, plan, src.bytes), |plan.segments|);
            done <= all && (ok ==> done == all)
    ensures Issued(old(vm.space), old(vm.trace), vm.space, vm.trace, done)
    ensures ok ==> vm.faults == old(vm.faults) && Readable(image, src)
    ensures !ok ==> vm.faults > old(vm.faults) || !Readable(image, src)
  {
    hide Rem, Sound, Placeable, Writable, CopySegOps, FileReadable;
    SoundTable(image, vm.page, plan);
    ghost var s0, t0, blocks := vm.space, vm.trace, CopyBlocks(image, vm.page, plan, src.bytes);
    ok, done := true, [];
    for k := 0 to |plan.segments|
      invariant done == Flatten(blocks, k) && Issued(s0, t0, vm.space, vm.trace, done)
      invariant ok && vm.faults == old(vm.faults)
      invariant forall j :: 0 <= j < k ==> FileReadable(image.Load(j), src)
      invariant Writable(vm.space, plan.reserveAddr, ReserveEnd(plan))
    {
      var ph := image.phdrs[plan.segments[k].idx];
      SegmentPlaced(image, vm.page, plan, k);
      assert ph == image.Load(k);
      ghost var some;
      ok, some := CopySegment(ph, plan.bias, src, vm, plan.reserveAddr, ReserveEnd(plan));
      IssuedThen(s0, t0, done, some, vm.space, vm.trace);
      PrefixOfBlock(blocks, |plan.segments|, k, some);
      done := done + some;
      if !ok { return; }
    }
  }

  lemma SoundTable(image: Image, page: u64, plan: LoadPlan)
    requires Sound(image, page, plan)
    ensures InTable(image.phdrs, image.loads) && |image.loads| == |plan.segments|
  {
  }

  lemma SegmentPlaced(image: Image, page: u64, plan: LoadPlan, k: nat)
    requires Sound(image, page, plan) && k < |plan.segments|
    ensures k < |image.loads| && plan.segments[k].idx == image.loads[k] && image.loads[k] < |image.phdrs|
    ensures Placeable(image.Load(k), plan.bias, page)
    ensures plan.reserveAddr <= Lo(image.Load(k), plan.bias, page) && Hi(image.Load(k), plan.bias, page) <= ReserveEnd(plan)
  {
  }

  /** The instruction-cache pass over every executable range. */
  method SyncExec(image: Image, vm: Vm, plan: LoadPlan)
    requires IdxInTable(image, plan.segments) && RangesFit(plan)
    modifies vm
    ensures Issued(old(vm.space), old(vm.trace), vm.space, vm.trace, Flatten(ExecBlocks(image, plan), |plan.segments|))
    ensures vm.faults == old(vm.faults)
  {
    hide Run, Apply;
    ghost var s0, t0, blocks := vm.space, vm.trace, ExecBlocks(image, plan);
    IssuedNone(s0, t0);
    for k := 0 to |plan.segments|
      invariant Issued(s0, t0, vm.space, vm.trace, Flatten(blocks, k)) && vm.faults == old(vm.faults)
    {
      SyncRange(vm, image, plan.segments[k]);
      IssuedThen(s0, t0, Flatten(blocks, k), blocks[k], vm.space, vm.trace);
    }
  }

  method SyncRange(vm: Vm, image: Image, seg: SegmentPlan)
    requires seg.idx < |image.phdrs| && 0 <= seg.Range().0 < U64_LIMIT && seg.Size() < U64_LIMIT
    modifies vm
    ensures Issued(old(vm.space), old(vm.trace), vm.space, vm.trace,
                   if image.phdrs[seg.idx].IsExec() then [Sync(seg.Range().0, seg.Size())] else [])
    ensures vm.faults == old(vm.faults)
  {
    hide Run, Apply;
    ghost var s := vm.space;
    IssuedNone(s, vm.trace);
    if image.phdrs[seg.idx].IsExec() {
      vm.IcacheSync(seg.Range().0, seg.Size());
      RunOne(s, Sync(seg.Range().0, seg.Size()));
    }
  }

  predicate RangesFit(plan: LoadPlan)
  {
    forall k :: 0 <= k < |plan.segments| ==>
                  0 <= plan.segments[k].Range().0 < U64_LIMIT && plan.segments[k].Size() < U64_LIMIT
  }

  lemma SoundRangesFit(image: Image, page: u64, plan: LoadPlan)
    requires Sound(image, page, plan)
    ensures RangesFit(plan)
  {
    hide Rem;
    forall k | 0 <= k < |plan.segments|
      ensures 0 <= plan.segments[k].Range().0 < U64_LIMIT && plan.segments[k].Size() < U64_LIMIT
    {
      RangeOf(image.loads[k], image.Load(k), plan.bias, page);
      SegmentBounds(image.Load(k), plan.bias, page);
    }
  }

  lemma GrantsPrefix(plan: LoadPlan, granted: seq<bool>, more: seq<bool>, n: nat)
    requires |granted| == |more| == |plan.segments| && n <= |granted| && granted[..n] == more[..n]
    ensures Flatten(ProtBlocks(plan, granted), n) == Flatten(ProtBlocks(plan, more), n)
  {
    if n > 0 {
      assert granted[..n][..n - 1] == granted[..n - 1] && more[..n][..n - 1] == more[..n - 1];
      assert granted[n - 1] == granted[..n][n - 1] && more[n - 1] == more[..n][n - 1];
      GrantsPrefix(plan, granted, more, n - 1);
    }
  }

  /** The protection pass. A refusal is only logged: the program still runs, without W^X. */
  method ProtectPass(image: Image, vm: Vm, plan: LoadPlan) returns (ghost granted: seq<bool>)
    requires vm.Valid() && Sound(image, vm.page, plan) && Held(vm.space, plan.reserveAddr, ReserveEnd(plan))
    modifies vm
    ensures |granted| == |plan.segments| && vm.faults >= old(vm.faults)
    ensures Issued(old(vm.space), old(vm.trace), vm.space, vm.trace, ProtOps(plan, granted))
  {
    hide Rem, Sound, Apply, ProtectOp, Run, Held;
    ghost var s0, t0 := vm.space, vm.trace;
    IssuedNone(s0, t0);
    granted := seq(|plan.segments|, _ => false);
    for k := 0 to |plan.segments|
      invariant |granted| == |plan.segments| && vm.faults >= old(vm.faults)
      invariant Issued(s0, t0, vm.space, vm.trace, Flatten(ProtBlocks(plan, granted), k))
      invariant Held(vm.space, plan.reserveAddr, ReserveEnd(plan))
    {
      ghost var s1, before := vm.space, granted;
      var ok := ProtectSegment(image, vm, plan, k);
      granted := granted[k := ok];
      GrantsPrefix(plan, before, granted, k);
      ghost var block := ProtBlocks(plan, granted)[k];
      IssuedThen(s0, t0, Flatten(ProtBlocks(plan, granted), k), block, vm.space, vm.trace);
    }
  }

  method ProtectSegment(image: Image, vm: Vm, plan: LoadPlan, k: nat) returns (ok: bool)
    requires vm.Valid() && Sound(image, vm.page, plan) && k < |plan.segments|
    requires Held(vm.space, plan.reserveAddr, ReserveEnd(plan))
    modifies vm
    ensures Held(vm.space, plan.reserveAddr, ReserveEnd(plan)) && Blames(ok, old(vm.faults), vm.faults)
    ensures Issued(old(vm.space), old(vm.trace), vm.space, vm.trace, if ok then [ProtectOp(plan.segments[k])] else [])
  {
    hide Rem;
    var seg := plan.segments[k];
    ghost var s := vm.space;
    ProtLegal(s, image, vm.page, plan, k);
    SoundRangesFit(image, vm.page, plan);
    ok := vm.Protect(seg.Range().0, seg.Size(), seg.prot);
    if ok {
      RunOne(s, ProtectOp(seg));
      StaysHeld(s, [ProtectOp(seg)], plan.reserveAddr, ReserveEnd(plan));
    }
  }

  /** `fill_copied`: all of `CopyOps` and the protection pass on success, a prefix of `CopyOps` on
      failure. */
  method FillCopied(image: Image, src: Source, vm: Vm, plan: LoadPlan)
    returns (ok: bool, ghost done: seq<Op>, ghost granted: seq<bool>)
    requires vm.Valid() && Sound(image, vm.page, plan) && IdxInTable(image, plan.segments)
    requires Writable(vm.space, plan.reserveAddr, ReserveEnd(plan))
    modifies vm
    ensures Issued(old(vm.space), old(vm.trace), vm.space, vm.trace, done)
    ensures ok ==> |granted| == |plan.segments| && done == CopyOps(image, vm.page, plan, src.bytes) + ProtOps(plan, granted)
    ensures !ok ==> done <= CopyOps(image, vm.page, plan, src.bytes)
    ensures ok ==> Readable(image, src) && vm.faults >= old(vm.faults)
    ensures !ok ==> vm.faults > old(vm.faults) || !Readable(image, src)
  {
    hide Sound;
    ghost var s0, t0 := vm.space, vm.trace;
    granted := [];
    ok, done := CopySegments(image, src, vm, plan);
    if !ok { return; }
    SoundRangesFit(image, vm.page, plan);
    SyncExec(image, vm, plan);
    ghost var syncs := Flatten(ExecBlocks(image, plan), |plan.segments|);
    IssuedThen(s0, t0, done, syncs, vm.space, vm.trace);
    done := done + syncs;
    CopyInside(image, vm.page, plan, src.bytes);
    StaysHeld(s0, done, plan.reserveAddr, ReserveEnd(plan));
    granted := ProtectPass(image, vm, plan);
    IssuedThen(s0, t0, done, ProtOps(plan, granted), vm.space, vm.trace);
    done := done + ProtOps(plan, granted);
  }

  // ------------------------------------------------------------- load_copied

  /** A complete copied load: a vacant block with arbitrary contents, the copy, the protections. */
  ghost predicate CopiedLoad(s: Space, ops: seq<Op>, image: Image, page: u64, plan: LoadPlan, bytes: seq<byte>,
                             junk: seq<byte>, granted: seq<bool>)
  {
    Planned(image, page, plan) && IdxInTable(image, plan.segments)
    && image.ehdr.etype == ET_DYN && AlignedPlace(image, page, plan.reserveAddr)
    && Vacant(s, plan.reserveAddr, ReserveEnd(plan))
    && |junk| == plan.reserveLen && |granted| == |plan.segments|
    && ops == [Alloc(plan.reserveAddr, junk)] + (CopyOps(image, page, plan, bytes) + ProtOps(plan, granted))
  }

  lemma AllocIsWritable(s: Space, lo: int, junk: seq<byte>)
    ensures Writable(Apply(s, Alloc(lo, junk)), lo, lo + |junk|)
  {
    forall a | lo <= a < lo + |junk|
      ensures a in Apply(s, Alloc(lo, junk)) && Apply(s, Alloc(lo, junk))[a].prot.write
    {
      assert Look(Apply(s, Alloc(lo, junk)), a) == CellAfter(Alloc(lo, junk), a, Look(s, a));
    }
  }

  /** A prefix of the copy followed by a release is an aborted run, and the block is still held. */
  lemma AbortedCopy(s: Space, image: Image, page: u64, plan: LoadPlan, bytes: seq<byte>, junk: seq<byte>, done: seq<Op>)
    requires Sound(image, page, plan) && IdxInTable(image, plan.segments)
    requires Vacant(s, plan.reserveAddr, ReserveEnd(plan)) && |junk| == plan.reserveLen
    requires done <= CopyOps(image, page, plan, bytes)
    ensures var take := Alloc(plan.reserveAddr, junk);
            Held(Run(Apply(s, take), done), plan.reserveAddr, ReserveEnd(plan))
            && Aborted(s, [take] + done + [Free(plan.reserveAddr, plan.reserveLen)])
  {
    hide Rem;
    var take := Alloc(plan.reserveAddr, junk);
    AllocIsWritable(s, plan.reserveAddr, junk);
    CopyInside(image, page, plan, bytes);
    assert forall i :: 0 <= i < |done| ==> done[i] == CopyOps(image, page, plan, bytes)[i];
    StaysHeld(Apply(s, take), done, plan.reserveAddr, ReserveEnd(plan));
    var ops := [take] + done + [Free(plan.reserveAddr, plan.reserveLen)];
    assert ops[1..|ops| - 1] == done;
  }

  /** The block: aligned for the image, or nothing. */
  method TakeBlock(image: Image, vm: Vm) returns (r: Result<u64, Errno>, ghost junk: seq<byte>)
    requires vm.Valid() && WellFormed(image, vm.page)
    modifies vm
    ensures r.Err? ==> vm.space == old(vm.space) && vm.trace == old(vm.trace)
    ensures r.Err? ==> vm.faults > old(vm.faults) || ReservationLen(image, vm.page).Err?
    ensures r.Ok? ==> vm.faults == old(vm.faults)
    ensures r.Ok? ==> ReservationLen(image, vm.page).Ok? && PlanPre(image, vm.page, At(r.value))
                      && AlignedPlace(image, vm.page, r.value)
                      && Vacant(old(vm.space), r.value, r.value + |junk|)
                      && |junk| == ReservationLen(image, vm.page).value
                      && Issued(old(vm.space), old(vm.trace), vm.space, vm.trace, [Alloc(r.value, junk)])
  {
    hide Rem;
    junk := [];
    var need := ReservationLen(image, vm.page);
    if need.Err? { return Err(need.error), []; }
    SegAlignFacts(image, vm.page);
    ghost var s0, t0 := vm.space, vm.trace;
    r := vm.AllocAligned(SegAlign(image, vm.page), need.value);
    if r.Ok? {
      DividesTrans(r.value, SegAlign(image, vm.page), vm.page);
      junk := vm.trace[|t0|].junk;
      RunOne(s0, Alloc(r.value, junk));
      assert vm.trace == t0 + [Alloc(r.value, junk)];
    }
  }

  /** `fill_copied` on a block that was vacant in `s0`, undone when it fails. */
  method CopyOrRelease(image: Image, src: Source, vm: Vm, plan: LoadPlan, ghost s0: Space, ghost junk: seq<byte>)
    returns (ok: bool, ghost tail: seq<Op>, ghost granted: seq<bool>)
    requires vm.Valid() && Sound(image, vm.page, plan) && IdxInTable(image, plan.segments)
    requires Vacant(s0, plan.reserveAddr, ReserveEnd(plan)) && |junk| == plan.reserveLen
    requires vm.space == Apply(s0, Alloc(plan.reserveAddr, junk))
    modifies vm
    ensures Issued(old(vm.space), old(vm.trace), vm.space, vm.trace, tail)
    ensures ok ==> |granted| == |plan.segments| && tail == CopyOps(image, vm.page, plan, src.bytes) + ProtOps(plan, granted)
    ensures !ok ==> Aborted(s0, [Alloc(plan.reserveAddr, junk)] + tail)
    ensures ok ==> Readable(image, src) && vm.faults >= old(vm.faults)
    ensures !ok ==> vm.faults > old(vm.faults) || !Readable(image, src)
  {
    hide Rem, Sound;
    ghost var s1, take := vm.space, Alloc(plan.reserveAddr, junk);
    AllocIsWritable(s0, plan.reserveAddr, junk);
    ok, tail, granted := FillCopied(image, src, vm, plan);
    if !ok {
      var l := Loaded(plan, true);
      AbortedCopy(s0, image, vm.page, plan, src.bytes, junk, tail);
      var _ := Unload(l, vm);
      RunStep(s1, tail, Free(plan.reserveAddr, plan.reserveLen));
      assert [take] + (tail + [Free(plan.reserveAddr, plan.reserveLen)]) == [take] + tail + [Free(plan.reserveAddr, plan.reserveLen)];
      tail := tail + [Free(plan.reserveAddr, plan.reserveLen)];
    }
  }

  /** `load_copied`. */
  method LoadCopied(image: Image, src: Source, vm: Vm)
    returns (r: Result<Loaded, Errno>, ghost ops: seq<Op>, ghost junk: seq<byte>, ghost granted: seq<bool>)
    requires vm.Valid() && WellFormed(image, vm.page)
    modifies vm
    ensures Issued(old(vm.space), old(vm.trace), vm.space, vm.trace, ops)
    ensures r.Ok? ==> r.value.onHeap
                      && CopiedLoad(old(vm.space), ops, image, vm.page, r.value.plan, src.bytes, junk, granted)
    ensures r.Err? ==> FailedLoad(old(vm.space), ops, image, vm.page, true)
    ensures r.Err? ==> vm.faults > old(vm.faults)
                       || (ops == [] && (image.ehdr.etype != ET_DYN || ReservationLen(image, vm.page).Err?))
                       || (ops != [] && !Readable(image, src)) || PlanLeak(old(vm.space), ops, image, vm.page, true)
    ensures r.Ok? ==> image.ehdr.etype == ET_DYN && Readable(image, src) && vm.faults >= old(vm.faults)
  {
    hide Sound, WellFormed, PlanPre, PlanOf, Apply, Readable, AlignedPlace;
    ops, junk, granted := [], [], [];
    ghost var s0, t0 := vm.space, vm.trace;
    if image.ehdr.etype != ET_DYN { return Err(ENOTSUP), [], [], []; }
    var raw;
    raw, junk := TakeBlock(image, vm);
    if raw.Err? { return Err(raw.error), [], [], []; }
    ops := [Alloc(raw.value, junk)];
    var planned := PlanReserved(image, vm.page, At(raw.value));
    if planned.Err? { return Err(planned.error), ops, junk, []; }
    var plan := planned.value;
    CopyInside(image, vm.page, plan, src.bytes);
    RunOne(s0, Alloc(raw.value, junk));
    var ok; ghost var tail;
    ok, tail, granted := CopyOrRelease(image, src, vm, plan, s0, junk);
    IssuedThen(s0, t0, ops, tail, vm.space, vm.trace);
    ops := ops + tail;
    r := if ok then Ok(Loaded(plan, true)) else Err(ENOMEM);
  }

  // ----------------------------------------------------------------- dispatch

  /** The run of a successful load by whichever path `load` chose. */
  ghost predicate SuccessfulLoad(s: Space, ops: seq<Op>, image: Image, page: u64, l: Loaded, src: Source,
                                 fd: Option<int>, file: seq<byte>)
  {
    if l.onHeap
    then Readable(image, src) && exists junk, granted :: CopiedLoad(s, ops, image, page, l.plan, src.bytes, junk, granted)
    else fd.Some? && MappedLoad(s, ops, image, page, l.plan, fd.value, file)
  }

  /** The reasons for which a load may fail: a fault of the system; before anything is taken, a span
      without a reservation or a fixed image to copy; a plan that fails where the reservation lies; a
      file too short to copy; and for mapping, a fixed image whose own pages are not all free. */
  ghost predicate LoadBlame(s: Space, ops: seq<Op>, image: Image, page: u64, copied: bool, src: Source, faulted: bool)
  {
    faulted
    || (WellFormed(image, page)
        && ((ops == [] && (ReservationLen(image, page).Err? || (copied && image.ehdr.etype != 3)))
            || PlanLeak(s, ops, image, page, copied)
            || (if copied then ops != [] && !Readable(image, src) else Displaced(s, image, page, ops))))
  }

  /** `load`: file mappings when the system has them and there is a descriptor, copying otherwise. */
  method Load(image: Image, src: Source, fd: Option<int>, vm: Vm) returns (r: Result<Loaded, Errno>, ghost ops: seq<Op>)
    requires vm.Valid() && WellFormed(image, vm.page)
    modifies vm
    ensures Issued(old(vm.space), old(vm.trace), vm.space, vm.trace, ops)
    ensures r.Ok? ==> r.value.onHeap == !(vm.canMapFiles && fd.Some?)
                      && SuccessfulLoad(old(vm.space), ops, image, vm.page, r.value, src, fd,
                                        if fd.Some? then vm.FileOf(fd.value) else [])
    ensures r.Err? ==> FailedLoad(old(vm.space), ops, image, vm.page, !(vm.canMapFiles && fd.Some?))
    ensures r.Ok? ==> vm.faults >= old(vm.faults)
    ensures r.Err? ==> LoadBlame(old(vm.space), ops, image, vm.page, !(vm.canMapFiles && fd.Some?), src,
                                 vm.faults > old(vm.faults))
  {
    hide CopiedLoad, MappedLoad, Aborted, PlanLeak, WellFormed;
    if vm.canMapFiles && fd.Some? {
      r, ops := LoadMapped(image, fd.value, vm);
    } else {
      ghost var junk, granted;
      r, ops, junk, granted := LoadCopied(image, src, vm);
    }
  }
}
