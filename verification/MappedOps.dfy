/** The operations of the mmap path: exactly what `fill_mapped` issues for a plan, and what running
    them does to every address. */
module MappedOps {
  import opened Words
  import opened Elf
  import opened Layout
  import opened AddressSpace
  import opened Blocks

  // ------------------------------------------------------------- one segment

  function FileOp(seg: SegmentPlan, fd: int, file: seq<byte>): seq<Op>
  {
    if seg.file.None? then []
    else
      var f := seg.file.value;
      [Map(f.addr, f.len, if seg.window then seg.prot.(write := true) else seg.prot, FileFill(fd, f.off, file), true)]
  }

  function ZeroOp(seg: SegmentPlan): seq<Op>
  {
    if seg.zero.None? then [] else [Zero(seg.zero.value.addr, seg.zero.value.len)]
  }

  function AnonOp(seg: SegmentPlan): seq<Op>
  {
    if seg.anon.None? then [] else [Map(seg.anon.value.addr, seg.anon.value.len, seg.prot, Zeroes, true)]
  }

  function NarrowOp(seg: SegmentPlan): seq<Op>
  {
    if seg.window then [Protect(seg.Range().0, seg.Size(), seg.prot)] else []
  }

  /** The first `j` steps of the loop body of `fill_mapped`: map the file part, clear its tail, map
      the anonymous part, narrow the protection. */
  function SegSteps(seg: SegmentPlan, fd: int, file: seq<byte>, j: nat): seq<Op>
  {
    if j == 0 then []
    else SegSteps(seg, fd, file, j - 1) + (if j == 1 then FileOp(seg, fd, file) else if j == 2 then ZeroOp(seg)
                                           else if j == 3 then AnonOp(seg) else NarrowOp(seg))
  }

  function SegOps(seg: SegmentPlan, fd: int, file: seq<byte>): seq<Op> { SegSteps(seg, fd, file, 4) }

  lemma SegOpsAre(seg: SegmentPlan, fd: int, file: seq<byte>)
    ensures SegOps(seg, fd, file) == FileOp(seg, fd, file) + ZeroOp(seg) + AnonOp(seg) + NarrowOp(seg)
  {
    assert SegSteps(seg, fd, file, 1) == FileOp(seg, fd, file);
    assert SegSteps(seg, fd, file, 3) == SegSteps(seg, fd, file, 1) + ZeroOp(seg) + AnonOp(seg);
  }

  /** Where the pieces of a segment lie. */
  lemma SegShape(i: nat, ph: Phdr, bias: u64, page: u64, seg: SegmentPlan)
    requires Placeable(ph, bias, page) && seg == SegmentAt(i, ph, bias, page)
    ensures page > 0 && Lo(ph, bias, page) <= FileHi(ph, bias, page) <= Hi(ph, bias, page)
    ensures seg.file.Some? ==> seg.file.value.addr == Lo(ph, bias, page) && seg.file.value.len > 0
                               && seg.file.value.addr + seg.file.value.len == FileHi(ph, bias, page)
    ensures seg.zero.Some? ==> seg.file.Some? && Lo(ph, bias, page) <= seg.zero.value.addr && seg.zero.value.len > 0
                               && seg.zero.value.addr + seg.zero.value.len == FileHi(ph, bias, page)
                               && (seg.window || seg.prot.write)
    ensures seg.anon.Some? ==> seg.anon.value.addr == FileHi(ph, bias, page) && seg.anon.value.len > 0
                               && seg.anon.value.addr + seg.anon.value.len == Hi(ph, bias, page)
    ensures seg.anon.None? ==> FileHi(ph, bias, page) == Hi(ph, bias, page)
    ensures seg.window ==> seg.zero.Some? && seg.Range() == (Lo(ph, bias, page), Hi(ph, bias, page))
                           && seg.Size() == Hi(ph, bias, page) - Lo(ph, bias, page)
  {
    hide Rem;
    SegmentBounds(ph, bias, page);
    AlignedPieces(i, ph, bias, page);
    RangeOf(i, ph, bias, page);
  }

  /** The cell the mmap path leaves at address `a` of a segment. */
  function SegCell(ph: Phdr, bias: int, page: u64, fd: int, file: seq<byte>, a: int): Cell
    requires page > 0
  {
    var v := ph.vaddr + bias;
    if a < FileHi(ph, bias, page) then
      Cell(if a < v + ph.filesz then FileByte(file, ph.offset + (a - v)) else 0,
           ProtOf(ph), Some(Backing(fd, ph.offset + (a - v))))
    else Cell(0, ProtOf(ph), None)
  }

  lemma AfterFour(w: seq<Op>, x: seq<Op>, y: seq<Op>, z: seq<Op>, a: int, c: Option<Cell>)
    ensures After(w + x + y + z, a, c) == After(z, a, After(y, a, After(x, a, After(w, a, c))))
  {
    AfterConcat(w + x + y, z, a, c);
    AfterConcat(w + x, y, a, c);
    AfterConcat(w, x, a, c);
  }

  /** Running a segment's operations leaves exactly `SegCell` at each of its addresses. */
  lemma SegOpsCell(i: nat, ph: Phdr, bias: u64, page: u64, fd: int, file: seq<byte>, a: int, c: Option<Cell>)
    requires Placeable(ph, bias, page) && Lo(ph, bias, page) <= a < Hi(ph, bias, page)
    ensures After(SegOps(SegmentAt(i, ph, bias, page), fd, file), a, c) == Some(SegCell(ph, bias, page, fd, file, a))
  {
    hide SegmentAt, Placeable, Lo, FileHi, Hi, SegOps, FileOp, ZeroOp, AnonOp, NarrowOp, After;
    PlaceableEnds(ph, bias, page);
    var seg := SegmentAt(i, ph, bias, page);
    SegOpsAre(seg, fd, file);
    AfterFour(FileOp(seg, fd, file), ZeroOp(seg), AnonOp(seg), NarrowOp(seg), a, c);
    var c2 := After(ZeroOp(seg), a, After(FileOp(seg, fd, file), a, c));
    var c4 := After(NarrowOp(seg), a, After(AnonOp(seg), a, c2));
    if a < FileHi(ph, bias, page) { FilePartCell(i, ph, bias, page, seg, fd, file, a, c); }
    AnonPartCell(i, ph, bias, page, seg, a, c2);
  }

  lemma AfterAtMostOne(ops: seq<Op>, a: int, c: Option<Cell>)
    requires |ops| <= 1
    ensures After(ops, a, c) == if ops == [] then c else CellAfter(ops[0], a, c)
  {
  }

  /** After mapping the file part and clearing its tail: file bytes, then zeroes, in file pages. */
  lemma FilePartCell(i: nat, ph: Phdr, bias: u64, page: u64, seg: SegmentPlan, fd: int, file: seq<byte>, a: int, c: Option<Cell>)
    requires Placeable(ph, bias, page) && seg == SegmentAt(i, ph, bias, page) && Lo(ph, bias, page) <= a < FileHi(ph, bias, page)
    ensures After(ZeroOp(seg), a, After(FileOp(seg, fd, file), a, c)) ==
            Some(SegCell(ph, bias, page, fd, file, a).(prot := if seg.window then seg.prot.(write := true) else seg.prot))
    ensures seg.prot == ProtOf(ph)
  {
    hide Rem, After;
    SegmentBounds(ph, bias, page);
    AfterAtMostOne(FileOp(seg, fd, file), a, c);
    AfterAtMostOne(ZeroOp(seg), a, CellAfter(FileOp(seg, fd, file)[0], a, c));
  }

  /** The anonymous pages and the final protection complete the segment. */
  lemma AnonPartCell(i: nat, ph: Phdr, bias: u64, page: u64, seg: SegmentPlan, a: int, c: Option<Cell>)
    requires Placeable(ph, bias, page) && seg == SegmentAt(i, ph, bias, page) && Lo(ph, bias, page) <= a < Hi(ph, bias, page)
    ensures After(NarrowOp(seg), a, After(AnonOp(seg), a, c)) ==
            if a >= FileHi(ph, bias, page) then Some(Cell(0, ProtOf(ph), None))
            else if seg.window && c.Some? then Some(c.value.(prot := ProtOf(ph))) else c
  {
    hide After, Placeable, SegmentAt, Lo, Hi, FileHi;
    assert seg.prot == ProtOf(ph) by { SegProt(i, ph, bias, page); }
    SegShape(i, ph, bias, page, seg);
    AfterAtMostOne(AnonOp(seg), a, c);
    AfterAtMostOne(NarrowOp(seg), a, After(AnonOp(seg), a, c));
  }

  lemma SegProt(i: nat, ph: Phdr, bias: u64, page: u64)
    requires Placeable(ph, bias, page)
    ensures SegmentAt(i, ph, bias, page).prot == ProtOf(ph)
  {
  }

  /** A segment's operations stay inside the segment and release nothing. */
  lemma SegOpsInside(i: nat, ph: Phdr, bias: u64, page: u64, fd: int, file: seq<byte>)
    requires Placeable(ph, bias, page)
    ensures AllInside(SegOps(SegmentAt(i, ph, bias, page), fd, file), Lo(ph, bias, page), Hi(ph, bias, page))
    ensures NoRelease(SegOps(SegmentAt(i, ph, bias, page), fd, file))
  {
    hide SegmentAt, Placeable, Lo, FileHi, Hi, SegOps;
    var seg := SegmentAt(i, ph, bias, page);
    SegOpsAre(seg, fd, file);
    SegShape(i, ph, bias, page, seg);
  }

  lemma LegalFour(s: Space, w: seq<Op>, x: seq<Op>, y: seq<Op>, z: seq<Op>, page: u64)
    requires page > 0 && Legal(s, w, page) && Legal(Run(s, w), x, page)
    requires Legal(Run(Run(s, w), x), y, page) && Legal(Run(Run(Run(s, w), x), y), z, page)
    ensures Legal(s, w + x + y + z, page)
  {
    hide Legal, Run;
    LegalConcat(s, w, x, page);
    RunConcat(s, w, x);
    LegalConcat(s, w + x, y, page);
    RunConcat(s, w + x, y);
    LegalConcat(s, w + x + y, z, page);
  }

  /** Inside held memory a segment's operations are legal; in particular the tail is cleared while
      its page is writable. */
  lemma SegOpsLegal(s: Space, i: nat, ph: Phdr, bias: u64, page: u64, fd: int, file: seq<byte>)
    requires Placeable(ph, bias, page) && Held(s, Lo(ph, bias, page), Hi(ph, bias, page))
    ensures Legal(s, SegOps(SegmentAt(i, ph, bias, page), fd, file), page)
  {
    hide SegmentAt, Placeable, Lo, Hi, Run, Legal, FileOp, ZeroOp, AnonOp, NarrowOp, SegOps, Held;
    PlaceableEnds(ph, bias, page);
    var seg := SegmentAt(i, ph, bias, page);
    var lo, hi := Lo(ph, bias, page), Hi(ph, bias, page);
    var w, x, y := FileOp(seg, fd, file), ZeroOp(seg), AnonOp(seg);
    var s1 := Run(s, w);
    var s2 := Run(s1, x);
    PiecesRelease(seg, fd, file);
    StaysHeld(s, w, lo, hi);
    StaysHeld(s1, x, lo, hi);
    StaysHeld(s2, y, lo, hi);
    PieceLegal(s, i, ph, bias, page, seg, fd, file);
    TailIsWritable(s, i, ph, bias, page, fd, file);
    PieceLegal(s2, i, ph, bias, page, seg, fd, file);
    PieceLegal(Run(s2, y), i, ph, bias, page, seg, fd, file);
    SegOpsAre(seg, fd, file);
    LegalFour(s, w, x, y, NarrowOp(seg), page);
  }

  lemma PiecesRelease(seg: SegmentPlan, fd: int, file: seq<byte>)
    ensures NoRelease(FileOp(seg, fd, file)) && NoRelease(ZeroOp(seg)) && NoRelease(AnonOp(seg))
  {
  }

  lemma LegalAtMostOne(s: Space, ops: seq<Op>, page: u64)
    requires page > 0 && |ops| <= 1 && (ops != [] ==> Enabled(s, ops[0], page))
    ensures Legal(s, ops, page)
  {
  }

  /** On held memory each mapping and the final protection are enabled. */
  lemma PieceLegal(s: Space, i: nat, ph: Phdr, bias: u64, page: u64, seg: SegmentPlan, fd: int, file: seq<byte>)
    requires Placeable(ph, bias, page) && seg == SegmentAt(i, ph, bias, page)
    requires Held(s, Lo(ph, bias, page), Hi(ph, bias, page))
    ensures page > 0 && Legal(s, FileOp(seg, fd, file), page) && Legal(s, AnonOp(seg), page) && Legal(s, NarrowOp(seg), page)
  {
    hide SegmentAt, Placeable, Lo, FileHi, Hi, Legal;
    SegShape(i, ph, bias, page, seg);
    AlignedPieces(i, ph, bias, page);
    PlaceableEnds(ph, bias, page);
    LegalAtMostOne(s, FileOp(seg, fd, file), page);
    LegalAtMostOne(s, AnonOp(seg), page);
    LegalAtMostOne(s, NarrowOp(seg), page);
  }

  lemma PlaceableEnds(ph: Phdr, bias: u64, page: u64)
    requires Placeable(ph, bias, page)
    ensures page > 0 && 0 <= Lo(ph, bias, page) && Hi(ph, bias, page) < U64_LIMIT
  {
    SegmentBounds(ph, bias, page);
  }

  lemma AlignedPieces(i: nat, ph: Phdr, bias: u64, page: u64)
    requires Placeable(ph, bias, page)
    ensures var seg := SegmentAt(i, ph, bias, page);
            (seg.file.Some? ==> Rem(seg.file.value.addr, page) == 0 && Rem(seg.file.value.len, page) == 0
                                && seg.file.value.len > 0 && Rem(seg.file.value.off, page) == 0)
            && (seg.anon.Some? ==> Rem(seg.anon.value.addr, page) == 0 && Rem(seg.anon.value.len, page) == 0)
            && (seg.window ==> Rem(seg.Range().0, page) == 0 && Rem(seg.Size(), page) == 0)
  {
    hide Rem;
    SegmentBounds(ph, bias, page);
    RangeOf(i, ph, bias, page);
    var lo, fhi, hi := Lo(ph, bias, page), FileHi(ph, bias, page), Hi(ph, bias, page);
    MinusMultiple(fhi, lo, page);
    MinusMultiple(hi, fhi, page);
    MinusMultiple(hi, lo, page);
  }

  lemma TailIsWritable(s: Space, i: nat, ph: Phdr, bias: u64, page: u64, fd: int, file: seq<byte>)
    requires Placeable(ph, bias, page)
    ensures var seg := SegmentAt(i, ph, bias, page);
            Legal(Run(s, FileOp(seg, fd, file)), ZeroOp(seg), page)
  {
    hide Rem;
    SegmentBounds(ph, bias, page);
    var seg := SegmentAt(i, ph, bias, page);
    if seg.zero.Some? {
      var op := FileOp(seg, fd, file)[0];
      var t := Apply(s, op);
      assert Run(s, FileOp(seg, fd, file)) == t by {
        assert FileOp(seg, fd, file)[1..] == [];
        assert Run(t, []) == t;
      }
      forall a | seg.zero.value.addr <= a < seg.zero.value.addr + seg.zero.value.len
        ensures a in t && t[a].prot.write
      {
        assert Look(t, a) == CellAfter(op, a, Look(s, a));
      }
    }
  }

  // --------------------------------------------------------- the whole image

  function ReserveEnd(plan: LoadPlan): int { plan.reserveAddr + plan.reserveLen }

  /** Segment `k` of the plan owns `[Lo, Hi)` of its header. */
  ghost function Extents(image: Image, page: u64, plan: LoadPlan): seq<Extent>
    requires page > 0 && InTable(image.phdrs, image.loads)
  {
    seq(|image.loads|, k requires 0 <= k < |image.loads| =>
        Extent(Lo(image.Load(k), plan.bias, page), Hi(image.Load(k), plan.bias, page)))
  }

  function SegBlocks(plan: LoadPlan, fd: int, file: seq<byte>): seq<seq<Op>>
  {
    seq(|plan.segments|, k requires 0 <= k < |plan.segments| => SegOps(plan.segments[k], fd, file))
  }

  predicate IdxInTable(image: Image, segs: seq<SegmentPlan>) { forall k :: 0 <= k < |segs| ==> segs[k].idx < |image.phdrs| }

  function SyncOp(image: Image, seg: SegmentPlan): seq<Op>
    requires seg.idx < |image.phdrs|
  {
    if image.phdrs[seg.idx].IsExec() && seg.zero.Some? then [Sync(seg.zero.value.addr, seg.zero.value.len)] else []
  }

  function SyncBlocks(image: Image, plan: LoadPlan): seq<seq<Op>>
    requires IdxInTable(image, plan.segments)
  {
    seq(|plan.segments|, k requires 0 <= k < |plan.segments| => SyncOp(image, plan.segments[k]))
  }

  /** Everything `fill_mapped` issues for a plan, in order: the segments, then the instruction-cache
      pass over the bytes the loader cleared itself. */
  function FillOps(image: Image, plan: LoadPlan, fd: int, file: seq<byte>): seq<Op>
    requires IdxInTable(image, plan.segments)
  {
    Flatten(SegBlocks(plan, fd, file), |plan.segments|) + Flatten(SyncBlocks(image, plan), |plan.segments|)
  }

  lemma SegsFenced(image: Image, page: u64, plan: LoadPlan, fd: int, file: seq<byte>)
    requires Sound(image, page, plan)
    ensures Fenced(SegBlocks(plan, fd, file), Extents(image, page, plan), plan.reserveAddr, ReserveEnd(plan))
  {
    hide Rem;
    var blocks, ext := SegBlocks(plan, fd, file), Extents(image, page, plan);
    forall k | 0 <= k < |ext|
      ensures AllInside(blocks[k], ext[k].lo, ext[k].hi) && NoRelease(blocks[k])
      ensures plan.reserveAddr <= ext[k].lo <= ext[k].hi <= ReserveEnd(plan)
    {
      SegOpsInside(image.loads[k], image.Load(k), plan.bias, page, fd, file);
      RangeOf(image.loads[k], image.Load(k), plan.bias, page);
    }
  }

  lemma SyncsAreSyncs(image: Image, plan: LoadPlan)
    requires IdxInTable(image, plan.segments)
    ensures SyncsOnly(Flatten(SyncBlocks(image, plan), |plan.segments|))
  {
    FlattenSyncs(SyncBlocks(image, plan), |plan.segments|);
  }

  lemma FillInside(image: Image, page: u64, plan: LoadPlan, fd: int, file: seq<byte>)
    requires Sound(image, page, plan)
    ensures IdxInTable(image, plan.segments)
    ensures AllInside(FillOps(image, plan, fd, file), plan.reserveAddr, ReserveEnd(plan))
    ensures NoRelease(FillOps(image, plan, fd, file))
  {
    hide Rem;
    SegsFenced(image, page, plan, fd, file);
    FlattenInside(SegBlocks(plan, fd, file), Extents(image, page, plan), plan.reserveAddr, ReserveEnd(plan), |plan.segments|);
    SyncsAreSyncs(image, plan);
  }

  lemma SegBlockLegal(s: Space, image: Image, page: u64, plan: LoadPlan, fd: int, file: seq<byte>, k: nat)
    requires Sound(image, page, plan) && k < |plan.segments|
    requires Held(s, plan.reserveAddr, ReserveEnd(plan))
    ensures Legal(s, SegBlocks(plan, fd, file)[k], page)
  {
    SegOpsLegal(s, image.loads[k], image.Load(k), plan.bias, page, fd, file);
  }

  lemma BodyLegal(s: Space, image: Image, page: u64, plan: LoadPlan, fd: int, file: seq<byte>)
    requires Sound(image, page, plan) && Held(s, plan.reserveAddr, ReserveEnd(plan))
    ensures Legal(s, Flatten(SegBlocks(plan, fd, file), |plan.segments|), page)
  {
    var blocks := SegBlocks(plan, fd, file);
    SegsFenced(image, page, plan, fd, file);
    forall t, k | 0 <= k < |blocks| && Held(t, plan.reserveAddr, ReserveEnd(plan)) ensures Legal(t, blocks[k], page) {
      SegBlockLegal(t, image, page, plan, fd, file, k);
    }
    FlattenLegal(s, blocks, Extents(image, page, plan), plan.reserveAddr, ReserveEnd(plan), page, |blocks|);
  }

  /** Once the reservation is held, everything the mmap path issues is legal when issued. */
  lemma FillLegal(s: Space, image: Image, page: u64, plan: LoadPlan, fd: int, file: seq<byte>)
    requires Sound(image, page, plan) && Held(s, plan.reserveAddr, ReserveEnd(plan))
    ensures IdxInTable(image, plan.segments)
    ensures Legal(s, FillOps(image, plan, fd, file), page)
  {
    hide Rem;
    var body, syncs := Flatten(SegBlocks(plan, fd, file), |plan.segments|), Flatten(SyncBlocks(image, plan), |plan.segments|);
    BodyLegal(s, image, page, plan, fd, file);
    SyncsAreSyncs(image, plan);
    SyncsLegal(Run(s, body), syncs, page);
    LegalConcat(s, body, syncs, page);
  }

  /** The instruction-cache pass changes no cell. */
  lemma FillIsBody(image: Image, plan: LoadPlan, fd: int, file: seq<byte>, a: int, c: Option<Cell>)
    requires IdxInTable(image, plan.segments)
    ensures After(FillOps(image, plan, fd, file), a, c) == After(Flatten(SegBlocks(plan, fd, file), |plan.segments|), a, c)
  {
    var body, syncs := Flatten(SegBlocks(plan, fd, file), |plan.segments|), Flatten(SyncBlocks(image, plan), |plan.segments|);
    AfterConcat(body, syncs, a, c);
    SyncsAreSyncs(image, plan);
    AfterUntouched(syncs, a, After(body, a, c));
  }

  /** At every address of segment `k` the whole fill leaves exactly that segment's cell. */
  lemma FilledCell(image: Image, page: u64, plan: LoadPlan, fd: int, file: seq<byte>, k: nat, a: int, c: Option<Cell>)
    requires Sound(image, page, plan) && k < |plan.segments|
    requires Lo(image.Load(k), plan.bias, page) <= a < Hi(image.Load(k), plan.bias, page)
    ensures IdxInTable(image, plan.segments)
    ensures After(FillOps(image, plan, fd, file), a, c) == Some(SegCell(image.Load(k), plan.bias, page, fd, file, a))
  {
    hide Rem;
    var blocks, ext := SegBlocks(plan, fd, file), Extents(image, page, plan);
    SegsFenced(image, page, plan, fd, file);
    assert ext[k].Has(a);
    FlattenAt(blocks, ext, plan.reserveAddr, ReserveEnd(plan), |blocks|, k, a, c);
    SegOpsCell(image.loads[k], image.Load(k), plan.bias, page, fd, file, a, c);
    FillIsBody(image, plan, fd, file, a, c);
  }

  /** An address of no segment keeps what it held. */
  lemma FillGap(image: Image, page: u64, plan: LoadPlan, fd: int, file: seq<byte>, a: int, c: Option<Cell>)
    requires Sound(image, page, plan)
    requires forall k :: 0 <= k < |image.loads| ==> !Extents(image, page, plan)[k].Has(a)
    ensures IdxInTable(image, plan.segments)
    ensures After(FillOps(image, plan, fd, file), a, c) == c
  {
    hide Rem;
    SegsFenced(image, page, plan, fd, file);
    FlattenGap(SegBlocks(plan, fd, file), Extents(image, page, plan), plan.reserveAddr, ReserveEnd(plan), |plan.segments|, a, c);
    FillIsBody(image, plan, fd, file, a, c);
  }
}
