/** The operations of the copy path: chunked writes, the cleared tail, the instruction-cache pass,
    and what running them does to every address. */
module CopiedOps {
  import opened Words
  import opened Elf
  import opened Layout
  import opened AddressSpace
  import opened Blocks
  import opened MappedOps

  const COPY_CHUNK: u64 := 64 * 1024

  // ------------------------------------------------------------- one segment

  /** The chunk loop from `done` on. */
  function ChunkOps(ph: Phdr, bias: int, bytes: seq<byte>, done: nat): seq<Op>
    requires done <= ph.filesz
    decreases ph.filesz - done
  {
    if done == ph.filesz then []
    else
      var n := Min(COPY_CHUNK, ph.filesz - done);
      [Write(ph.vaddr + bias + done, FileBytes(bytes, ph.offset + done, n))] + ChunkOps(ph, bias, bytes, done + n)
  }

  /** Chunk `i` from `done` on: 64 KiB at that place of the file, or what is left, at the same distance
      from the segment's address. */
  lemma {:induction false} ChunkAt(ph: Phdr, bias: int, bytes: seq<byte>, done: nat, i: nat)
    requires done + 65536 * i < ph.filesz
    ensures i < |ChunkOps(ph, bias, bytes, done)|
    ensures var at := done + 65536 * i;
            ChunkOps(ph, bias, bytes, done)[i] ==
            Write(ph.vaddr + bias + at, FileBytes(bytes, ph.offset + at, Min(65536, ph.filesz - at)))
    decreases i
  {
    if i > 0 { ChunkAt(ph, bias, bytes, done + 65536, i - 1); }
  }

  /** Everything from the end of file data to the page-rounded end of the segment. */
  function TailOp(ph: Phdr, bias: int, page: u64): seq<Op>
    requires page > 0
  {
    var z := ph.vaddr + bias + ph.filesz;
    if Hi(ph, bias, page) > z then [Zero(z, Hi(ph, bias, page) - z)] else []
  }

  function CopySegOps(ph: Phdr, bias: int, page: u64, bytes: seq<byte>): seq<Op>
    requires page > 0
  {
    ChunkOps(ph, bias, bytes, 0) + TailOp(ph, bias, page)
  }

  /** What the linker asked for at address `a`: file bytes, then zeroes. */
  function ImageByte(ph: Phdr, bias: int, bytes: seq<byte>, a: int): byte
  {
    if a < ph.vaddr + bias + ph.filesz then FileByte(bytes, ph.offset + (a - (ph.vaddr + bias))) else 0
  }

  /** However the file part is cut into chunks, each address ends up with its own file byte. */
  lemma {:induction false} ChunkCell(ph: Phdr, bias: int, bytes: seq<byte>, done: nat, a: int, c: Cell)
    requires done <= ph.filesz
    ensures After(ChunkOps(ph, bias, bytes, done), a, Some(c)) ==
            if ph.vaddr + bias + done <= a < ph.vaddr + bias + ph.filesz
            then Some(c.(val := ImageByte(ph, bias, bytes, a))) else Some(c)
    decreases ph.filesz - done
  {
    if done < ph.filesz {
      var n := Min(COPY_CHUNK, ph.filesz - done);
      var op := Write(ph.vaddr + bias + done, FileBytes(bytes, ph.offset + done, n));
      ChunkCell(ph, bias, bytes, done + n, a, CellAfter(op, a, Some(c)).value);
      assert ChunkOps(ph, bias, bytes, done)[1..] == ChunkOps(ph, bias, bytes, done + n);
    }
  }

  lemma CopySegCell(ph: Phdr, bias: int, page: u64, bytes: seq<byte>, a: int, c: Cell)
    requires Placeable(ph, bias, page) && ph.vaddr + bias <= a < Hi(ph, bias, page)
    ensures After(CopySegOps(ph, bias, page, bytes), a, Some(c)) == Some(c.(val := ImageByte(ph, bias, bytes, a)))
  {
    ChunkCell(ph, bias, bytes, 0, a, c);
    AfterConcat(ChunkOps(ph, bias, bytes, 0), TailOp(ph, bias, page), a, Some(c));
  }

  lemma {:induction false} ChunksWithin(ph: Phdr, bias: int, bytes: seq<byte>, done: nat)
    requires done <= ph.filesz
    ensures StoresWithin(ChunkOps(ph, bias, bytes, done), ph.vaddr + bias, ph.vaddr + bias + ph.filesz)
    decreases ph.filesz - done
  {
    if done < ph.filesz { ChunksWithin(ph, bias, bytes, done + Min(COPY_CHUNK, ph.filesz - done)); }
  }

  lemma CopySegWithin(ph: Phdr, bias: int, page: u64, bytes: seq<byte>)
    requires Placeable(ph, bias, page)
    ensures StoresWithin(CopySegOps(ph, bias, page, bytes), Lo(ph, bias, page), Hi(ph, bias, page))
  {
    ChunksWithin(ph, bias, bytes, 0);
    SegmentBounds(ph, bias, page);
  }

  // --------------------------------------------------------- the whole image

  function CopyBlocks(image: Image, page: u64, plan: LoadPlan, bytes: seq<byte>): seq<seq<Op>>
    requires page > 0 && IdxInTable(image, plan.segments)
  {
    seq(|plan.segments|, k requires 0 <= k < |plan.segments| =>
        CopySegOps(image.phdrs[plan.segments[k].idx], plan.bias, page, bytes))
  }

  /** `exec_ranges`: the whole range of every executable segment. */
  function ExecOp(image: Image, seg: SegmentPlan): seq<Op>
    requires seg.idx < |image.phdrs|
  {
    if image.phdrs[seg.idx].IsExec() then [Sync(seg.Range().0, seg.Size())] else []
  }

  function ExecBlocks(image: Image, plan: LoadPlan): seq<seq<Op>>
    requires IdxInTable(image, plan.segments)
  {
    seq(|plan.segments|, k requires 0 <= k < |plan.segments| => ExecOp(image, plan.segments[k]))
  }

  /** What `fill_copied` issues before it sets protections. */
  function CopyOps(image: Image, page: u64, plan: LoadPlan, bytes: seq<byte>): seq<Op>
    requires page > 0 && IdxInTable(image, plan.segments)
  {
    Flatten(CopyBlocks(image, page, plan, bytes), |plan.segments|) + Flatten(ExecBlocks(image, plan), |plan.segments|)
  }

  function ProtectOp(seg: SegmentPlan): Op { Protect(seg.Range().0, seg.Size(), seg.prot) }

  /** The closing protection pass: a refused one is skipped. */
  function ProtBlocks(plan: LoadPlan, granted: seq<bool>): seq<seq<Op>>
    requires |granted| == |plan.segments|
  {
    seq(|plan.segments|, k requires 0 <= k < |plan.segments| =>
        if granted[k] then [ProtectOp(plan.segments[k])] else [])
  }

  function ProtOps(plan: LoadPlan, granted: seq<bool>): seq<Op>
    requires |granted| == |plan.segments|
  {
    Flatten(ProtBlocks(plan, granted), |plan.segments|)
  }

  lemma CopyFenced(image: Image, page: u64, plan: LoadPlan, bytes: seq<byte>)
    requires Sound(image, page, plan)
    ensures IdxInTable(image, plan.segments)
    ensures Fenced(CopyBlocks(image, page, plan, bytes), Extents(image, page, plan), plan.reserveAddr, ReserveEnd(plan))
  {
    hide Rem;
    var blocks, ext := CopyBlocks(image, page, plan, bytes), Extents(image, page, plan);
    forall k | 0 <= k < |ext|
      ensures AllInside(blocks[k], ext[k].lo, ext[k].hi) && NoRelease(blocks[k])
      ensures plan.reserveAddr <= ext[k].lo <= ext[k].hi <= ReserveEnd(plan)
    {
      CopySegWithin(image.Load(k), plan.bias, page, bytes);
      RangeOf(image.loads[k], image.Load(k), plan.bias, page);
    }
  }

  lemma ProtFenced(image: Image, page: u64, plan: LoadPlan, granted: seq<bool>)
    requires Sound(image, page, plan) && |granted| == |plan.segments|
    ensures Fenced(ProtBlocks(plan, granted), Extents(image, page, plan), plan.reserveAddr, ReserveEnd(plan))
  {
    hide Rem;
    var blocks, ext := ProtBlocks(plan, granted), Extents(image, page, plan);
    forall k | 0 <= k < |ext|
      ensures AllInside(blocks[k], ext[k].lo, ext[k].hi) && NoRelease(blocks[k])
      ensures plan.reserveAddr <= ext[k].lo <= ext[k].hi <= ReserveEnd(plan)
    {
      RangeOf(image.loads[k], image.Load(k), plan.bias, page);
    }
  }

  lemma CopyStores(image: Image, page: u64, plan: LoadPlan, bytes: seq<byte>)
    requires Sound(image, page, plan) && IdxInTable(image, plan.segments)
    ensures StoresWithin(Flatten(CopyBlocks(image, page, plan, bytes), |plan.segments|), plan.reserveAddr, ReserveEnd(plan))
  {
    hide Rem;
    var blocks := CopyBlocks(image, page, plan, bytes);
    forall k | 0 <= k < |plan.segments| ensures StoresWithin(blocks[k], plan.reserveAddr, ReserveEnd(plan)) {
      CopySegWithin(image.Load(k), plan.bias, page, bytes);
    }
    FlattenStores(blocks, plan.reserveAddr, ReserveEnd(plan), |plan.segments|);
  }

  lemma ExecsAreSyncs(image: Image, plan: LoadPlan)
    requires IdxInTable(image, plan.segments)
    ensures SyncsOnly(Flatten(ExecBlocks(image, plan), |plan.segments|))
  {
    FlattenSyncs(ExecBlocks(image, plan), |plan.segments|);
  }

  /** In writable memory everything up to the protection pass is legal. */
  lemma CopyLegal(s: Space, image: Image, page: u64, plan: LoadPlan, bytes: seq<byte>)
    requires Sound(image, page, plan) && Writable(s, plan.reserveAddr, ReserveEnd(plan))
    ensures IdxInTable(image, plan.segments)
    ensures Legal(s, CopyOps(image, page, plan, bytes), page)
  {
    hide Rem;
    var body, syncs := Flatten(CopyBlocks(image, page, plan, bytes), |plan.segments|), Flatten(ExecBlocks(image, plan), |plan.segments|);
    CopyStores(image, page, plan, bytes);
    StoresLegal(s, body, plan.reserveAddr, ReserveEnd(plan), page);
    ExecsAreSyncs(image, plan);
    SyncsLegal(Run(s, body), syncs, page);
    LegalConcat(s, body, syncs, page);
  }

  lemma ProtLegal(s: Space, image: Image, page: u64, plan: LoadPlan, k: nat)
    requires Sound(image, page, plan) && k < |plan.segments| && Held(s, plan.reserveAddr, ReserveEnd(plan))
    ensures Enabled(s, ProtectOp(plan.segments[k]), page)
  {
    hide Rem;
    var ph := image.Load(k);
    RangeOf(image.loads[k], ph, plan.bias, page);
    SegmentBounds(ph, plan.bias, page);
    MinusMultiple(Hi(ph, plan.bias, page), Lo(ph, plan.bias, page), page);
  }

  lemma CopyInside(image: Image, page: u64, plan: LoadPlan, bytes: seq<byte>)
    requires Sound(image, page, plan)
    ensures IdxInTable(image, plan.segments)
    ensures AllInside(CopyOps(image, page, plan, bytes), plan.reserveAddr, ReserveEnd(plan))
    ensures NoRelease(CopyOps(image, page, plan, bytes))
  {
    hide Rem;
    CopyFenced(image, page, plan, bytes);
    FlattenInside(CopyBlocks(image, page, plan, bytes), Extents(image, page, plan), plan.reserveAddr, ReserveEnd(plan), |plan.segments|);
    ExecsAreSyncs(image, plan);
  }

  lemma ProtInside(image: Image, page: u64, plan: LoadPlan, granted: seq<bool>)
    requires Sound(image, page, plan) && |granted| == |plan.segments|
    ensures AllInside(ProtOps(plan, granted), plan.reserveAddr, ReserveEnd(plan)) && NoRelease(ProtOps(plan, granted))
  {
    ProtFenced(image, page, plan, granted);
    FlattenInside(ProtBlocks(plan, granted), Extents(image, page, plan), plan.reserveAddr, ReserveEnd(plan), |plan.segments|);
  }

  /** At every linked address of segment `k` the copy leaves the linked byte, and the protection
      pass leaves that segment's protection unless it was refused. */
  lemma CopiedCell(image: Image, page: u64, plan: LoadPlan, bytes: seq<byte>, granted: seq<bool>, k: nat, a: int, c: Cell)
    requires Sound(image, page, plan) && k < |plan.segments| == |granted|
    requires image.Load(k).vaddr + plan.bias <= a < Hi(image.Load(k), plan.bias, page)
    ensures IdxInTable(image, plan.segments)
    ensures After(CopyOps(image, page, plan, bytes) + ProtOps(plan, granted), a, Some(c)) ==
            Some(Cell(ImageByte(image.Load(k), plan.bias, bytes, a),
                      if granted[k] then ProtOf(image.Load(k)) else c.prot, c.file))
  {
    hide Rem;
    var ph, n, ext := image.Load(k), |plan.segments|, Extents(image, page, plan);
    var body, syncs := Flatten(CopyBlocks(image, page, plan, bytes), n), Flatten(ExecBlocks(image, plan), n);
    var lo, hi := plan.reserveAddr, ReserveEnd(plan);
    SegmentBounds(ph, plan.bias, page);
    assert ext[k].Has(a);
    CopyFenced(image, page, plan, bytes);
    FlattenAt(CopyBlocks(image, page, plan, bytes), ext, lo, hi, n, k, a, Some(c));
    CopySegCell(ph, plan.bias, page, bytes, a, c);
    var c1 := c.(val := ImageByte(ph, plan.bias, bytes, a));
    ExecsAreSyncs(image, plan);
    AfterConcat(body, syncs, a, Some(c));
    AfterUntouched(syncs, a, Some(c1));
    ProtFenced(image, page, plan, granted);
    FlattenAt(ProtBlocks(plan, granted), ext, lo, hi, n, k, a, Some(c1));
    RangeOf(image.loads[k], ph, plan.bias, page);
    AfterConcat(CopyOps(image, page, plan, bytes), ProtOps(plan, granted), a, Some(c));
    ProtCell(plan, granted, k, a, c1);
  }

  lemma ProtCell(plan: LoadPlan, granted: seq<bool>, k: nat, a: int, c: Cell)
    requires k < |plan.segments| == |granted|
    requires plan.segments[k].Range().0 <= a < plan.segments[k].Range().1
    ensures After(ProtBlocks(plan, granted)[k], a, Some(c)) ==
            Some(if granted[k] then c.(prot := plan.segments[k].prot) else c)
  {
    var b := ProtBlocks(plan, granted)[k];
    if granted[k] {
      assert b[1..] == [];
      assert After(b, a, Some(c)) == CellAfter(b[0], a, Some(c));
    }
  }

  /** Stores and synchronisations only. */
  predicate DataOnly(ops: seq<Op>) { forall i :: 0 <= i < |ops| ==> ops[i].Stores() || ops[i].Sync? }

  lemma {:induction false} DataKeepsProt(ops: seq<Op>, a: int, c: Cell)
    requires DataOnly(ops)
    ensures After(ops, a, Some(c)).Some?
    ensures After(ops, a, Some(c)).value.prot == c.prot && After(ops, a, Some(c)).value.file == c.file
  {
    if ops != [] {
      var d := CellAfter(ops[0], a, Some(c));
      assert d.Some? && d.value.prot == c.prot && d.value.file == c.file;
      DataKeepsProt(ops[1..], a, d.value);
    }
  }

  lemma CopyIsData(image: Image, page: u64, plan: LoadPlan, bytes: seq<byte>)
    requires Sound(image, page, plan) && IdxInTable(image, plan.segments) && page > 0
    ensures DataOnly(CopyOps(image, page, plan, bytes))
  {
    hide Sound, CopyBlocks, ExecBlocks;
    CopyStores(image, page, plan, bytes);
    ExecsAreSyncs(image, plan);
  }

  /** What the protection pass leaves at each address: a segment's protection in its pages unless it was
      refused, and what was there before in every gap. */
  lemma ProtPassAt(image: Image, page: u64, plan: LoadPlan, granted: seq<bool>, a: int, c: Cell)
    requires Sound(image, page, plan) && |granted| == |plan.segments| && page > 0 && InTable(image.phdrs, image.loads)
    ensures forall k :: 0 <= k < |image.loads| && Extents(image, page, plan)[k].Has(a) ==>
              k < |granted| && After(ProtOps(plan, granted), a, Some(c)) ==
                                 Some(if granted[k] then c.(prot := ProtOf(image.Load(k))) else c)
    ensures (forall k :: 0 <= k < |image.loads| ==> !Extents(image, page, plan)[k].Has(a)) ==>
              After(ProtOps(plan, granted), a, Some(c)) == Some(c)
  {
    hide Rem;
    var ext, blocks, n := Extents(image, page, plan), ProtBlocks(plan, granted), |plan.segments|;
    ProtFenced(image, page, plan, granted);
    forall k | 0 <= k < |image.loads| && ext[k].Has(a)
      ensures k < |granted| && After(ProtOps(plan, granted), a, Some(c)) == Some(if granted[k] then c.(prot := ProtOf(image.Load(k))) else c)
    {
      FlattenAt(blocks, ext, plan.reserveAddr, ReserveEnd(plan), n, k, a, Some(c));
      RangeOf(image.loads[k], image.Load(k), plan.bias, page);
      ProtCell(plan, granted, k, a, c);
    }
    if forall k :: 0 <= k < |image.loads| ==> !ext[k].Has(a) {
      FlattenGap(blocks, ext, plan.reserveAddr, ReserveEnd(plan), n, a, Some(c));
    }
  }
}
