/** What a finished load means for memory: the image, its protections, its surroundings, the
    agreement of the two paths, and the way back. */
module LoadTheorems {
  import opened Words
  import opened Elf
  import opened Layout
  import opened AddressSpace
  import opened MappedOps
  import opened CopiedOps
  import opened Loader
  import opened CopyLoader

  /** Segment `k` is in memory at `bias`: its file bytes, then zeroes to its page-rounded end. */
  ghost predicate SegmentInMemory(t: Space, ph: Phdr, bias: int, page: u64, bytes: seq<byte>)
    requires page > 0
  {
    forall a :: ph.vaddr + bias <= a < Hi(ph, bias, page) ==> a in t && t[a].val == ImageByte(ph, bias, bytes, a)
  }

  ghost predicate ImageInMemory(t: Space, image: Image, bias: int, page: u64, bytes: seq<byte>)
    requires WellFormed(image, page)
  {
    forall k :: 0 <= k < |image.loads| ==> SegmentInMemory(t, image.Load(k), bias, page, bytes)
  }

  // ------------------------------------------------------------ the mmap path

  /** `a` belongs to no segment. */
  ghost predicate InGap(image: Image, page: u64, plan: LoadPlan, a: int)
    requires page > 0 && InTable(image.phdrs, image.loads)
  {
    forall k :: 0 <= k < |image.loads| ==> !Extents(image, page, plan)[k].Has(a)
  }

  lemma MappedLook(s: Space, ops: seq<Op>, image: Image, page: u64, plan: LoadPlan, fd: int, file: seq<byte>, a: int)
    requires MappedLoad(s, ops, image, page, plan, fd, file)
    ensures Look(Run(s, ops), a) ==
            After(FillOps(image, plan, fd, file), a, CellAfter(Reserve(plan.reserveAddr, plan.reserveLen), a, Look(s, a)))
  {
    hide PlanOf, PlanPre, FillOps;
    var take, fill := Reserve(plan.reserveAddr, plan.reserveLen), FillOps(image, plan, fd, file);
    RunLook(s, ops, a);
    AfterConcat([take], fill, a, Look(s, a));
    assert After([take], a, Look(s, a)) == CellAfter(take, a, Look(s, a));
  }

  /** The exact final state of the mmap path, part one: each address of a segment holds exactly that
      segment's cell. */
  lemma MappedSegment(s: Space, ops: seq<Op>, image: Image, page: u64, plan: LoadPlan, fd: int, file: seq<byte>, k: nat, a: int)
    requires MappedLoad(s, ops, image, page, plan, fd, file)
    requires k < |image.loads| && Extents(image, page, plan)[k].Has(a)
    ensures Look(Run(s, ops), a) == Some(SegCell(image.Load(k), plan.bias, page, fd, file, a))
  {
    hide PlanOf, PlanPre, FillOps, SegCell;
    MappedLook(s, ops, image, page, plan, fd, file, a);
    FilledCell(image, page, plan, fd, file, k, a, CellAfter(Reserve(plan.reserveAddr, plan.reserveLen), a, Look(s, a)));
  }

  /** Part two: every other address of the reservation is an inaccessible zero, and nothing outside
      the reservation changes. */
  lemma MappedElsewhere(s: Space, ops: seq<Op>, image: Image, page: u64, plan: LoadPlan, fd: int, file: seq<byte>, a: int)
    requires MappedLoad(s, ops, image, page, plan, fd, file)
    requires !(plan.reserveAddr <= a < ReserveEnd(plan)) || InGap(image, page, plan, a)
    ensures Look(Run(s, ops), a) ==
            if plan.reserveAddr <= a < ReserveEnd(plan) then Some(Cell(0, PROT_NONE, None)) else Look(s, a)
  {
    hide PlanOf, PlanPre, FillOps;
    MappedLook(s, ops, image, page, plan, fd, file, a);
    var c := CellAfter(Reserve(plan.reserveAddr, plan.reserveLen), a, Look(s, a));
    if plan.reserveAddr <= a < ReserveEnd(plan) {
      FillGap(image, page, plan, fd, file, a, c);
    } else {
      FillInside(image, page, plan, fd, file);
      FrameOutside(FillOps(image, plan, fd, file), plan.reserveAddr, ReserveEnd(plan), a, c);
    }
  }

  /** Where an address of a segment lies. */
  lemma SegmentHas(image: Image, page: u64, plan: LoadPlan, k: nat, a: int)
    requires Sound(image, page, plan) && k < |image.loads|
    requires image.Load(k).vaddr + plan.bias <= a < Hi(image.Load(k), plan.bias, page)
    ensures Extents(image, page, plan)[k].Has(a) && plan.reserveAddr <= a < ReserveEnd(plan)
  {
    SegmentBounds(image.Load(k), plan.bias, page);
  }

  /** A segment's cell holds the linked byte. */
  lemma SegCellIsLinked(ph: Phdr, bias: int, page: u64, fd: int, file: seq<byte>, a: int)
    requires Placeable(ph, bias, page) && ph.vaddr + bias <= a < Hi(ph, bias, page)
    ensures SegCell(ph, bias, page, fd, file, a).val == ImageByte(ph, bias, file, a)
  {
    SegmentBounds(ph, bias, page);
  }

  lemma MappedImage(s: Space, ops: seq<Op>, image: Image, page: u64, plan: LoadPlan, fd: int, file: seq<byte>)
    requires MappedLoad(s, ops, image, page, plan, fd, file)
    ensures ImageInMemory(Run(s, ops), image, plan.bias, page, file)
  {
    hide Planned, FillOps, SegCell, ImageByte, Sound, Run, Placeable, Lo, Hi, Extents, WellFormed;
    PlannedWellFormed(image, page, plan);
    SoundPage(image, page, plan);
    var t := Run(s, ops);
    forall k | 0 <= k < |image.loads| ensures SegmentInMemory(t, image.Load(k), plan.bias, page, file) {
      var ph := image.Load(k);
      forall a | ph.vaddr + plan.bias <= a < Hi(ph, plan.bias, page)
        ensures a in t && t[a].val == ImageByte(ph, plan.bias, file, a)
      {
        SegmentHas(image, page, plan, k, a);
        MappedSegment(s, ops, image, page, plan, fd, file, k, a);
        SegCellIsLinked(ph, plan.bias, page, fd, file, a);
      }
    }
  }

  /** Final protections of the mmap path: each page of a segment has exactly those its flag word asks
      for, every gap or slack page of the reservation is still inaccessible. */
  lemma MappedProtections(s: Space, ops: seq<Op>, image: Image, page: u64, plan: LoadPlan, fd: int, file: seq<byte>, a: int)
    requires MappedLoad(s, ops, image, page, plan, fd, file) && plan.reserveAddr <= a < ReserveEnd(plan)
    ensures a in Run(s, ops)
    ensures forall k :: 0 <= k < |image.loads| && Extents(image, page, plan)[k].Has(a) ==>
              Run(s, ops)[a].prot == FlagProt(image.Load(k).flags)
    ensures InGap(image, page, plan, a) ==> Run(s, ops)[a] == Cell(0, PROT_NONE, None)
  {
    hide PlanOf, PlanPre, FlagProt, BitAnd;
    var ext := Extents(image, page, plan);
    forall k | 0 <= k < |image.loads| && ext[k].Has(a)
      ensures a in Run(s, ops) && Run(s, ops)[a].prot == FlagProt(image.Load(k).flags)
    {
      ProtOfFlags(image.Load(k));
      MappedSegment(s, ops, image, page, plan, fd, file, k, a);
    }
    if InGap(image, page, plan, a) {
      MappedElsewhere(s, ops, image, page, plan, fd, file, a);
    }
  }

  /** W^X of the final image: no page is both writable and executable when no header asks for both. */
  lemma MappedWriteXorExec(s: Space, ops: seq<Op>, image: Image, page: u64, plan: LoadPlan, fd: int, file: seq<byte>)
    requires MappedLoad(s, ops, image, page, plan, fd, file)
    requires forall k :: 0 <= k < |image.loads| ==> BitAnd(image.Load(k).flags, 2) == 0 || BitAnd(image.Load(k).flags, 1) == 0
    ensures forall a :: plan.reserveAddr <= a < ReserveEnd(plan) ==>
                          a in Run(s, ops) && !(Run(s, ops)[a].prot.write && Run(s, ops)[a].prot.exec)
  {
    hide PlanOf, PlanPre, FillOps, BitAnd;
    forall a | plan.reserveAddr <= a < ReserveEnd(plan)
      ensures a in Run(s, ops) && !(Run(s, ops)[a].prot.write && Run(s, ops)[a].prot.exec)
    {
      MappedProtections(s, ops, image, page, plan, fd, file, a);
    }
  }

  // ------------------------------------------------------------ the copy path

  lemma CopiedLook(s: Space, ops: seq<Op>, image: Image, page: u64, plan: LoadPlan, bytes: seq<byte>,
                   junk: seq<byte>, granted: seq<bool>, a: int)
    requires CopiedLoad(s, ops, image, page, plan, bytes, junk, granted) && plan.reserveAddr <= a < ReserveEnd(plan)
    ensures Look(Run(s, ops), a) ==
            After(CopyOps(image, page, plan, bytes) + ProtOps(plan, granted), a,
                  Some(Cell(junk[a - plan.reserveAddr], RW, None)))
  {
    hide Sound, PlanOf, PlanPre, CopyOps, ProtOps, AlignedPlace, Run;
    SoundPage(image, page, plan);
    var take, rest := Alloc(plan.reserveAddr, junk), CopyOps(image, page, plan, bytes) + ProtOps(plan, granted);
    RunLook(s, ops, a);
    AfterConcat([take], rest, a, Look(s, a));
    assert After([take], a, Look(s, a)) == CellAfter(take, a, Look(s, a));
  }

  /** The final state of the copy path at a linked address: the linked byte, with the protection
      its flag word asks for unless that was refused. */
  lemma CopiedSegment(s: Space, ops: seq<Op>, image: Image, page: u64, plan: LoadPlan, bytes: seq<byte>,
                      junk: seq<byte>, granted: seq<bool>, k: nat, a: int)
    requires CopiedLoad(s, ops, image, page, plan, bytes, junk, granted) && k < |image.loads|
    requires image.Load(k).vaddr + plan.bias <= a < Hi(image.Load(k), plan.bias, page)
    ensures Look(Run(s, ops), a) == Some(Cell(ImageByte(image.Load(k), plan.bias, bytes, a),
                                              if granted[k] then FlagProt(image.Load(k).flags) else RW, None))
  {
    hide PlanOf, PlanPre, CopyOps, ProtOps, ImageByte, FlagProt, BitAnd;
    ProtOfFlags(image.Load(k));
    SegmentHas(image, page, plan, k, a);
    CopiedLook(s, ops, image, page, plan, bytes, junk, granted, a);
    CopiedCell(image, page, plan, bytes, granted, k, a, Cell(junk[a - plan.reserveAddr], RW, None));
  }

  /** Final protections of the copy path, for the whole block: a segment's pages have what its
      flag word asks for unless that was refused; refused pages and every gap stay readable and writable. */
  lemma CopiedProtections(s: Space, ops: seq<Op>, image: Image, page: u64, plan: LoadPlan, bytes: seq<byte>,
                          junk: seq<byte>, granted: seq<bool>, a: int)
    requires CopiedLoad(s, ops, image, page, plan, bytes, junk, granted) && plan.reserveAddr <= a < ReserveEnd(plan)
    requires page > 0 && InTable(image.phdrs, image.loads)
    ensures a in Run(s, ops) && Run(s, ops)[a].file == None
    ensures forall k :: 0 <= k < |image.loads| && Extents(image, page, plan)[k].Has(a) ==>
              k < |granted| && Run(s, ops)[a].prot == if granted[k] then FlagProt(image.Load(k).flags) else RW
    ensures InGap(image, page, plan, a) ==> Run(s, ops)[a].prot == RW
  {
    hide PlanOf, PlanPre, CopyOps, ProtOps, Sound, AlignedPlace, Run, FlagProt, BitAnd;
    forall k | 0 <= k < |image.loads| ensures ProtOf(image.Load(k)) == FlagProt(image.Load(k).flags) {
      ProtOfFlags(image.Load(k));
    }
    var c, copy, prots := Cell(junk[a - plan.reserveAddr], RW, None), CopyOps(image, page, plan, bytes), ProtOps(plan, granted);
    CopiedLook(s, ops, image, page, plan, bytes, junk, granted, a);
    AfterConcat(copy, prots, a, Some(c));
    CopyIsData(image, page, plan, bytes);
    DataKeepsProt(copy, a, c);
    ProtPassAt(image, page, plan, granted, a, After(copy, a, Some(c)).value);
    if !InGap(image, page, plan, a) {
      var k :| 0 <= k < |image.loads| && Extents(image, page, plan)[k].Has(a);
    }
  }

  /** W^X of the final block: a page is both writable and executable only when a header asks for both,
      whatever protections were refused. */
  lemma CopiedWriteXorExec(s: Space, ops: seq<Op>, image: Image, page: u64, plan: LoadPlan, bytes: seq<byte>,
                           junk: seq<byte>, granted: seq<bool>)
    requires CopiedLoad(s, ops, image, page, plan, bytes, junk, granted) && InTable(image.phdrs, image.loads)
    requires forall k :: 0 <= k < |image.loads| ==> BitAnd(image.Load(k).flags, 2) == 0 || BitAnd(image.Load(k).flags, 1) == 0
    ensures forall a :: plan.reserveAddr <= a < ReserveEnd(plan) ==>
                          a in Run(s, ops) && !(Run(s, ops)[a].prot.write && Run(s, ops)[a].prot.exec)
  {
    hide PlanOf, PlanPre, CopyOps, ProtOps, AlignedPlace, Run, BitAnd;
    SoundPage(image, page, plan);
    forall a | plan.reserveAddr <= a < ReserveEnd(plan)
      ensures a in Run(s, ops) && !(Run(s, ops)[a].prot.write && Run(s, ops)[a].prot.exec)
    {
      CopiedProtections(s, ops, image, page, plan, bytes, junk, granted, a);
      if !InGap(image, page, plan, a) {
        var k :| 0 <= k < |image.loads| && Extents(image, page, plan)[k].Has(a);
      }
    }
  }

  lemma CopiedImage(s: Space, ops: seq<Op>, image: Image, page: u64, plan: LoadPlan, bytes: seq<byte>,
                    junk: seq<byte>, granted: seq<bool>)
    requires CopiedLoad(s, ops, image, page, plan, bytes, junk, granted)
    ensures ImageInMemory(Run(s, ops), image, plan.bias, page, bytes)
  {
    hide PlanOf, PlanPre, CopyOps, ProtOps, ImageByte;
    var t := Run(s, ops);
    forall k | 0 <= k < |image.loads| ensures SegmentInMemory(t, image.Load(k), plan.bias, page, bytes) {
      var ph := image.Load(k);
      forall a | ph.vaddr + plan.bias <= a < Hi(ph, plan.bias, page)
        ensures a in t && t[a].val == ImageByte(ph, plan.bias, bytes, a)
      {
        CopiedSegment(s, ops, image, page, plan, bytes, junk, granted, k, a);
      }
    }
  }

  /** Two implementations, one meaning: relative to their biases the two paths leave the same bytes
      over the whole page-rounded memory image of every segment. */
  lemma PathsAgree(s: Space, ops: seq<Op>, plan: LoadPlan, fd: int,
                   s': Space, ops': seq<Op>, plan': LoadPlan, junk: seq<byte>, granted: seq<bool>,
                   image: Image, page: u64, bytes: seq<byte>, k: nat, v: int)
    requires MappedLoad(s, ops, image, page, plan, fd, bytes)
    requires CopiedLoad(s', ops', image, page, plan', bytes, junk, granted)
    requires k < |image.loads| && image.Load(k).vaddr <= v < Up(MemEnd(image.Load(k)), page)
    ensures v + plan.bias in Run(s, ops) && v + plan'.bias in Run(s', ops')
    ensures Run(s, ops)[v + plan.bias].val == Run(s', ops')[v + plan'.bias].val
  {
    hide PlanOf, PlanPre, FillOps, CopyOps, ProtOps, Sound;
    MappedByte(s, ops, image, page, plan, fd, bytes, k, v);
    CopiedByte(s', ops', image, page, plan', bytes, junk, granted, k, v);
  }

  /** The byte linked at `v` of segment `k`. */
  function LinkedByte(ph: Phdr, bytes: seq<byte>, v: int): byte { ImageByte(ph, 0, bytes, v) }

  lemma LinkMoves(ph: Phdr, bias: u64, page: u64, v: int)
    requires Placeable(ph, bias, page) && ph.vaddr <= v < Up(MemEnd(ph), page)
    ensures ph.vaddr + bias <= v + bias < Hi(ph, bias, page)
  {
    SegmentBounds(ph, bias, page);
  }

  lemma LinkedMoves(ph: Phdr, bias: int, bytes: seq<byte>, v: int)
    ensures ImageByte(ph, bias, bytes, v + bias) == LinkedByte(ph, bytes, v)
  {
  }

  lemma MappedByte(s: Space, ops: seq<Op>, image: Image, page: u64, plan: LoadPlan, fd: int, bytes: seq<byte>, k: nat, v: int)
    requires MappedLoad(s, ops, image, page, plan, fd, bytes)
    requires k < |image.loads| && image.Load(k).vaddr <= v < Up(MemEnd(image.Load(k)), page)
    ensures v + plan.bias in Run(s, ops) && Run(s, ops)[v + plan.bias].val == LinkedByte(image.Load(k), bytes, v)
  {
    hide Planned, FillOps, SegCell, Sound, WellFormed, Placeable, Run, Lo, Hi, Up, ImageByte, Extents;
    PlannedWellFormed(image, page, plan);
    SoundPage(image, page, plan);
    var ph := image.Load(k);
    LinkMoves(ph, plan.bias, page, v);
    SegmentHas(image, page, plan, k, v + plan.bias);
    MappedSegment(s, ops, image, page, plan, fd, bytes, k, v + plan.bias);
    SegCellIsLinked(ph, plan.bias, page, fd, bytes, v + plan.bias);
    LinkedMoves(ph, plan.bias, bytes, v);
  }

  lemma CopiedByte(s: Space, ops: seq<Op>, image: Image, page: u64, plan: LoadPlan, bytes: seq<byte>,
                   junk: seq<byte>, granted: seq<bool>, k: nat, v: int)
    requires CopiedLoad(s, ops, image, page, plan, bytes, junk, granted)
    requires k < |image.loads| && image.Load(k).vaddr <= v < Up(MemEnd(image.Load(k)), page)
    ensures v + plan.bias in Run(s, ops) && Run(s, ops)[v + plan.bias].val == LinkedByte(image.Load(k), bytes, v)
  {
    hide Planned, CopyOps, ProtOps, Sound, WellFormed, Placeable, Run, Lo, Hi, Up, ImageByte, AlignedPlace;
    PlannedWellFormed(image, page, plan);
    SoundPage(image, page, plan);
    LinkMoves(image.Load(k), plan.bias, page, v);
    CopiedSegment(s, ops, image, page, plan, bytes, junk, granted, k, v + plan.bias);
    LinkedMoves(image.Load(k), plan.bias, bytes, v);
  }

  // ------------------------------------------------------- both paths at once

  /** A run that takes the free range `[lo, hi)` first, then works inside it and releases nothing. */
  ghost predicate Contained(s: Space, ops: seq<Op>, lo: int, hi: int)
  {
    ops != [] && (ops[0].Map? || ops[0].Alloc?) && ops[0].addr == lo && lo + ops[0].Len() == hi
    && Vacant(s, lo, hi) && AllInside(ops[1..], lo, hi) && NoRelease(ops[1..])
  }

  lemma MappedContained(s: Space, ops: seq<Op>, image: Image, page: u64, plan: LoadPlan, fd: int, file: seq<byte>)
    requires MappedLoad(s, ops, image, page, plan, fd, file)
    ensures Contained(s, ops, plan.reserveAddr, ReserveEnd(plan))
  {
    hide PlanOf, PlanPre, FillOps;
    FillInside(image, page, plan, fd, file);
    assert ops[1..] == FillOps(image, plan, fd, file);
  }

  lemma CopiedContained(s: Space, ops: seq<Op>, image: Image, page: u64, plan: LoadPlan, bytes: seq<byte>,
                        junk: seq<byte>, granted: seq<bool>)
    requires CopiedLoad(s, ops, image, page, plan, bytes, junk, granted)
    ensures Contained(s, ops, plan.reserveAddr, ReserveEnd(plan))
  {
    hide PlanOf, PlanPre, CopyOps, ProtOps;
    CopyInside(image, page, plan, bytes);
    ProtInside(image, page, plan, granted);
    assert ops[1..] == CopyOps(image, page, plan, bytes) + ProtOps(plan, granted);
  }

  lemma LoadContained(s: Space, ops: seq<Op>, image: Image, page: u64, l: Loaded, src: Source, fd: Option<int>, file: seq<byte>)
    requires SuccessfulLoad(s, ops, image, page, l, src, fd, file)
    ensures Contained(s, ops, l.plan.reserveAddr, ReserveEnd(l.plan))
    ensures Planned(image, page, l.plan)
  {
    hide Planned, CopyOps, FillOps, ProtOps;
    if l.onHeap {
      var junk, granted :| CopiedLoad(s, ops, image, page, l.plan, src.bytes, junk, granted);
      CopiedContained(s, ops, image, page, l.plan, src.bytes, junk, granted);
    } else {
      MappedContained(s, ops, image, page, l.plan, fd.value, file);
    }
  }

  /** No step of a contained run changes anything outside its range, and all of the range stays
      mapped in every intermediate state after the first step. */
  lemma ContainedFrame(s: Space, ops: seq<Op>, lo: int, hi: int, n: nat)
    requires Contained(s, ops, lo, hi) && n <= |ops|
    ensures n > 0 ==> Held(Run(s, ops[..n]), lo, hi)
    ensures forall a :: !(lo <= a < hi) ==> Look(Run(s, ops[..n]), a) == Look(s, a)
  {
    if n > 0 {
      var take, rest := ops[0], ops[1..n];
      assert ops[..n] == [take] + rest;
      assert forall i :: 0 <= i < |rest| ==> rest[i] == ops[1..][i];
      RunConcat(s, [take], rest);
      RunOne(s, take);
      forall a | lo <= a < hi ensures a in Apply(s, take) { assert Look(Apply(s, take), a).Some?; }
      StaysHeld(Apply(s, take), rest, lo, hi);
      forall a | !(lo <= a < hi) ensures Look(Run(s, ops[..n]), a) == Look(s, a) {
        RunLook(Apply(s, take), rest, a);
        FrameOutside(rest, lo, hi, a, Look(s, a));
      }
    }
  }

  /** Load then unload is the identity on the address space, and gives back what was taken the way it
      was taken. */
  lemma UnloadUndoesLoad(s: Space, ops: seq<Op>, image: Image, page: u64, l: Loaded, src: Source, fd: Option<int>, file: seq<byte>)
    requires SuccessfulLoad(s, ops, image, page, l, src, fd, file)
    ensures Apply(Run(s, ops), ReleaseOp(l, true)) == s
    ensures ops != [] && GivesBack(ops[0], ReleaseOp(l, true)) && !ReleaseOp(l, true).Refused?
  {
    hide CopiedLoad, MappedLoad;
    LoadContained(s, ops, image, page, l, src, fd, file);
    TakenFirst(s, ops, image, page, l, src, fd, file);
    ReleaseUndoes(s, ops, l.plan.reserveAddr, l.plan.reserveLen, ReleaseOp(l, true));
  }

  /** A copied image sits in an allocated block, a mapped one in a mapping. */
  lemma TakenFirst(s: Space, ops: seq<Op>, image: Image, page: u64, l: Loaded, src: Source, fd: Option<int>, file: seq<byte>)
    requires SuccessfulLoad(s, ops, image, page, l, src, fd, file)
    ensures ops != [] && ops[0].addr == l.plan.reserveAddr && ops[0].Len() == l.plan.reserveLen
    ensures if l.onHeap then ops[0].Alloc? else ops[0].Map?
  {
    hide Planned, Readable, Vacant, FillOps, CopyOps, ProtOps, AlignedPlace;
  }

  lemma ReleaseUndoes(s: Space, ops: seq<Op>, lo: int, n: nat, release: Op)
    requires Contained(s, ops, lo, lo + n) && GivesBack(ops[0], release) && !release.Refused?
    ensures Apply(Run(s, ops), release) == s
  {
    var all := ops + [release];
    RunStep(s, ops, release);
    assert all[1..|all| - 1] == ops[1..] && all[0] == ops[0];
    AbortRestores(s, all);
  }

  /** The memory image of a successful load by either path. */
  lemma LoadedImage(s: Space, ops: seq<Op>, image: Image, page: u64, l: Loaded, src: Source, fd: Option<int>, file: seq<byte>)
    requires SuccessfulLoad(s, ops, image, page, l, src, fd, file)
    requires !l.onHeap ==> file == src.bytes
    ensures WellFormed(image, page) && ImageInMemory(Run(s, ops), image, l.plan.bias, page, src.bytes)
  {
    LoadContained(s, ops, image, page, l, src, fd, file);
    hide Planned, CopyOps, FillOps, ProtOps;
    if l.onHeap {
      var junk, granted :| CopiedLoad(s, ops, image, page, l.plan, src.bytes, junk, granted);
      CopiedImage(s, ops, image, page, l.plan, src.bytes, junk, granted);
    } else {
      MappedImage(s, ops, image, page, l.plan, fd.value, file);
    }
  }

  /** The image is a property of its own reservation: spaces that agree there agree on it. */
  lemma ImageIsLocal(t: Space, u: Space, image: Image, page: u64, plan: LoadPlan, bytes: seq<byte>)
    requires Sound(image, page, plan) && ImageInMemory(t, image, plan.bias, page, bytes)
    requires forall a :: plan.reserveAddr <= a < ReserveEnd(plan) ==> Look(t, a) == Look(u, a)
    ensures ImageInMemory(u, image, plan.bias, page, bytes)
  {
    forall k | 0 <= k < |image.loads| ensures SegmentInMemory(u, image.Load(k), plan.bias, page, bytes) {
      var ph := image.Load(k);
      assert SegmentInMemory(t, ph, plan.bias, page, bytes);
      forall a | ph.vaddr + plan.bias <= a < Hi(ph, plan.bias, page)
        ensures a in u && u[a].val == ImageByte(ph, plan.bias, bytes, a)
      {
        SegmentHas(image, page, plan, k, a);
        assert Look(t, a) == Look(u, a);
      }
    }
  }

  lemma SegmentByte(t: Space, ph: Phdr, bias: int, page: u64, bytes: seq<byte>, i: nat)
    requires page > 0 && SegmentInMemory(t, ph, bias, page, bytes) && i < ph.filesz <= ph.memsz
    ensures ph.vaddr + bias + i in t && t[ph.vaddr + bias + i].val == FileByte(bytes, ph.offset + i)
  {
    UpBounds(ph.vaddr + bias + ph.memsz, page);
    assert ImageByte(ph, bias, bytes, ph.vaddr + bias + i) == FileByte(bytes, ph.offset + i);
  }

  /** The byte linked at `v` of load `k` is in memory at `v` plus the bias. */
  lemma LinkedInMemory(t: Space, image: Image, bias: int, page: u64, bytes: seq<byte>, k: nat, v: int)
    requires WellFormed(image, page) && ImageInMemory(t, image, bias, page, bytes) && k < |image.loads|
    requires image.Load(k).vaddr <= v < MemEnd(image.Load(k))
    ensures v + bias in t && t[v + bias].val == LinkedByte(image.Load(k), bytes, v)
  {
    var ph := image.Load(k);
    assert SegmentInMemory(t, ph, bias, page, bytes);
    UpBounds(ph.vaddr + bias + ph.memsz, page);
  }

  /** `image` is what the parser makes of a file of known size that it accepts. */
  ghost predicate ParsedFrom(src: Source, page: u64, native: u16, image: Image)
  {
    src.Valid() && IsPow2(page) && src.sizeKnown && Accepts(src, page, native) && image == ImageOf(src)
  }

  lemma ParsedBounds(src: Source, page: u64, native: u16, image: Image)
    requires ParsedFrom(src, page, native, image)
    ensures page > 0 && InTable(image.phdrs, image.loads)
    ensures forall k :: 0 <= k < |image.loads| ==> image.Load(k).offset + image.Load(k).filesz <= |src.bytes|
  {
    AcceptedIsWellFormed(src, page, native);
    hide Accepts, ImageOf;
  }

  /** Byte `i` of a load is in memory: the file's own byte, or zero past the file part. */
  ghost predicate ByteLoaded(t: Space, ph: Phdr, bias: int, bytes: seq<byte>, i: nat)
  {
    var a := ph.vaddr + bias + i;
    a in t
    && (i < ph.filesz ==> ph.offset + i < |bytes| && t[a].val == bytes[ph.offset + i])
    && (i >= ph.filesz ==> t[a].val == 0)
  }

  lemma ByteIsLoaded(t: Space, ph: Phdr, bias: int, page: u64, bytes: seq<byte>, i: nat)
    requires page > 0 && SegmentInMemory(t, ph, bias, page, bytes) && ph.offset + ph.filesz <= |bytes|
    requires ph.vaddr + bias + i < Hi(ph, bias, page)
    ensures ByteLoaded(t, ph, bias, bytes, i)
  {
    hide Hi;
    assert ImageByte(ph, bias, bytes, ph.vaddr + bias + i) == t[ph.vaddr + bias + i].val;
  }

  /** End to end: whatever file of known size the parser accepts, after a successful load by either
      path every PT_LOAD holds its file bytes at its link address plus the bias, and zeroes from
      there to the page-rounded end of its memory size. */
  lemma LoadedFile(s: Space, ops: seq<Op>, src: Source, page: u64, native: u16, image: Image, l: Loaded,
                   fd: Option<int>, k: nat, i: nat)
    requires ParsedFrom(src, page, native, image)
    requires SuccessfulLoad(s, ops, image, page, l, src, fd, src.bytes)
    requires k < |image.loads| && image.loads[k] < |image.phdrs| && page > 0
    requires image.Load(k).vaddr + i < Up(MemEnd(image.Load(k)), page)
    ensures ByteLoaded(Run(s, ops), image.Load(k), l.plan.bias, src.bytes, i)
  {
    hide ParsedFrom, SuccessfulLoad, Planned, Hi, Up, SegmentInMemory, WellFormed, ByteLoaded, MemEnd, Contained;
    LoadedImage(s, ops, image, page, l, src, fd, src.bytes);
    LoadContained(s, ops, image, page, l, src, fd, src.bytes);
    PlannedBounds(image, page, l.plan, k);
    ParsedBounds(src, page, native, image);
    ByteIsLoaded(Run(s, ops), image.Load(k), l.plan.bias, page, src.bytes, i);
  }

  /** What copying wants of the source: every file part inside it; a file of known size that the parser
      accepts always has that. */
  lemma ReadableExactly(image: Image, src: Source, page: u64, native: u16)
    requires InTable(image.phdrs, image.loads)
    ensures Readable(image, src) <==>
            forall k :: 0 <= k < |image.loads| && image.Load(k).filesz > 0 ==> image.Load(k).offset + image.Load(k).filesz <= |src.bytes|
    ensures ParsedFrom(src, page, native, image) ==> Readable(image, src)
  {
    hide ParsedFrom;
    if ParsedFrom(src, page, native, image) { ParsedBounds(src, page, native, image); }
  }

  /** Where a load puts an image: a position-independent one at the first address of its reservation that
      suits every load, a fixed one at its own address. */
  lemma PlacedRight(image: Image, page: u64, plan: LoadPlan)
    requires Planned(image, page, plan)
    ensures page > 0 && InTable(image.phdrs, image.loads)
    ensures image.ehdr.etype == 3 ==> LeastSuited(image, page, plan.reserveAddr, plan.base)
    ensures image.ehdr.etype != 3 ==> plan.bias == 0 && plan.reserveAddr == plan.base
  {
    hide Sound, PlanOf, PlanPre, LeastSuited, WellFormed;
    PlannedWellFormed(image, page, plan);
    if image.ehdr.etype == 3 {
      BaseIsLeast(image, page, plan.reserveAddr, plan);
    } else {
      SpanIsTight(image, page, Fixed, plan);
    }
  }

  lemma PlannedBounds(image: Image, page: u64, plan: LoadPlan, k: nat)
    requires Planned(image, page, plan) && k < |image.loads| && image.loads[k] < |image.phdrs|
    ensures page > 0 && Hi(image.Load(k), plan.bias, page) == Up(MemEnd(image.Load(k)), page) + plan.bias
  {
    hide PlanOf, PlanPre;
    SegmentBounds(image.Load(k), plan.bias, page);
  }

  /** `n` bytes of memory from `addr` are the file's from `off`. */
  ghost predicate FileAt(t: Space, addr: int, n: int, bytes: seq<byte>, off: int)
  {
    forall a :: addr <= a < addr + n ==> a in t && t[a].val == FileByte(bytes, off + (a - addr))
  }

  /** AT_PHDR: through PT_PHDR it is that entry's address, which lies in `[base, end)`; otherwise it
      comes from a PT_LOAD and the loaded memory there is the program header table, for as long as it
      stays within that segment's file part. */
  lemma PhdrPointsAtTable(t: Space, image: Image, page: u64, plan: LoadPlan, bytes: seq<byte>) returns (m: nat)
    requires WellFormed(image, page) && ImageInMemory(t, image, plan.bias, page, bytes)
    requires PhdrAddr(image, plan).Some?
    ensures PhdrFromSegment(image, plan) ==> PhdrAddr(image, plan).value == image.phdrSeg.value.vaddr + plan.bias
                                             && Covers(plan, PhdrAddr(image, plan).value)
    ensures !PhdrFromSegment(image, plan) ==>
              m < |image.loads| && HoldsTable(image, m)
              && FileAt(t, PhdrAddr(image, plan).value, image.Load(m).offset + image.Load(m).filesz - image.ehdr.phoff,
                        bytes, image.ehdr.phoff)
  {
    m := 0;
    if !PhdrFromSegment(image, plan) {
      hide ImageInMemory, SegmentInMemory, FileAt, ValidLoad, Up, IsPow2;
      m := PhdrInLoadsSound(image, page, plan.bias, 0);
      LoadInMemory(t, image, page, plan.bias, bytes, m);
      FilePartAt(t, image.Load(m), plan.bias, page, bytes, image.ehdr.phoff);
    }
  }

  lemma LoadInMemory(t: Space, image: Image, page: u64, bias: int, bytes: seq<byte>, m: nat)
    requires WellFormed(image, page) && ImageInMemory(t, image, bias, page, bytes) && m < |image.loads|
    ensures page > 0 && SegmentInMemory(t, image.Load(m), bias, page, bytes) && image.Load(m).filesz <= image.Load(m).memsz
  {
    hide SegmentInMemory;
    assert ValidLoad(image.Load(m), page, None);
  }

  lemma FilePartAt(t: Space, ph: Phdr, bias: int, page: u64, bytes: seq<byte>, off: int)
    requires page > 0 && SegmentInMemory(t, ph, bias, page, bytes) && ph.filesz <= ph.memsz
    requires ph.offset <= off < ph.offset + ph.filesz
    ensures FileAt(t, off - ph.offset + ph.vaddr + bias, ph.offset + ph.filesz - off, bytes, off)
  {
    var addr := off - ph.offset + ph.vaddr + bias;
    forall a | addr <= a < addr + (ph.offset + ph.filesz - off)
      ensures a in t && t[a].val == FileByte(bytes, off + (a - addr))
    {
      SegmentByte(t, ph, bias, page, bytes, a - (ph.vaddr + bias));
    }
  }
}
