/** AT_PHDR when it comes from PT_PHDR: the code asks only that the address falls between the first and
    the last load. What it then points at, exactly, and accepted files where that is not the table. */
module PhdrAddress {
  import opened Words
  import opened Elf
  import opened ElfWriter
  import opened HeaderOrder
  import opened Layout
  import opened AddressSpace
  import opened MappedOps
  import opened Loader
  import opened LoadTheorems

  // --------------------------------------------- inside one load, either path

  /** The `n` bytes linked at `v` in `ph` are the file's bytes from `off`. */
  predicate LinkedTable(ph: Phdr, bytes: seq<byte>, v: int, n: int, off: int)
  {
    forall w :: v <= w < v + n ==> LinkedByte(ph, bytes, w) == FileByte(bytes, off + (w - v))
  }

  lemma LinkedAt(t: Space, ph: Phdr, bias: int, page: u64, bytes: seq<byte>, w: int)
    requires Placeable(ph, bias, page) && SegmentInMemory(t, ph, bias, page, bytes)
    requires ph.vaddr <= w < Up(MemEnd(ph), page)
    ensures w + bias in t && t[w + bias].val == LinkedByte(ph, bytes, w)
  {
    SegmentBounds(ph, bias, page);
  }

  /** Where a load holds `[v, v + n)`, memory there is the table exactly when the file says so. */
  lemma FileAtExactly(t: Space, ph: Phdr, bias: int, page: u64, bytes: seq<byte>, v: int, n: int, off: int)
    requires Placeable(ph, bias, page) && SegmentInMemory(t, ph, bias, page, bytes)
    requires ph.vaddr <= v && v + n <= Up(MemEnd(ph), page)
    ensures FileAt(t, v + bias, n, bytes, off) <==> LinkedTable(ph, bytes, v, n, off)
  {
    hide Placeable, SegmentInMemory, Up, LinkedByte, FileByte;
    forall w | v <= w < v + n ensures w + bias in t && t[w + bias].val == LinkedByte(ph, bytes, w) {
      LinkedAt(t, ph, bias, page, bytes, w);
    }
    if FileAt(t, v + bias, n, bytes, off) {
      forall w | v <= w < v + n ensures LinkedByte(ph, bytes, w) == FileByte(bytes, off + (w - v)) {
        assert w + bias in t && off + ((w + bias) - (v + bias)) == off + (w - v);
      }
    }
    if LinkedTable(ph, bytes, v, n, off) {
      forall a | v + bias <= a < v + bias + n ensures a in t && t[a].val == FileByte(bytes, off + (a - (v + bias))) {
        LinkedAt(t, ph, bias, page, bytes, a - bias);
        assert a == (a - bias) + bias && off + ((a - bias) - v) == off + (a - (v + bias));
      }
    }
  }

  /** AT_PHDR taken from PT_PHDR, when load `k` holds all of `[v, v + n)`: it points at the table
      exactly when the bytes linked there are the table's. */
  lemma SegmentPhdrExactly(t: Space, image: Image, page: u64, plan: LoadPlan, bytes: seq<byte>, k: nat, n: int)
    requires Sound(image, page, plan) && WellFormed(image, page) && ImageInMemory(t, image, plan.bias, page, bytes)
    requires image.phdrSeg.Some? && k < |image.loads|
    requires image.Load(k).vaddr <= image.phdrSeg.value.vaddr
    requires image.phdrSeg.value.vaddr + n <= Up(MemEnd(image.Load(k)), page) && n > 0
    ensures PhdrAddr(image, plan) == Some(image.phdrSeg.value.vaddr + plan.bias)
    ensures FileAt(t, PhdrAddr(image, plan).value, n, bytes, image.ehdr.phoff) <==>
            LinkedTable(image.Load(k), bytes, image.phdrSeg.value.vaddr, n, image.ehdr.phoff)
  {
    hide Sound, WellFormed, ImageInMemory, SegmentInMemory, Up, FileAt, LinkedTable, Placeable, AlignDown;
    SoundPage(image, page, plan);
    LoadInMemory(t, image, page, plan.bias, bytes, k);
    var ph, v := image.Load(k), image.phdrSeg.value.vaddr;
    AlignBounds(ph.vaddr, page);
    assert LinkPages(ph, page, v);
    PhdrSegmentExactly(image, page, plan);
    FileAtExactly(t, ph, plan.bias, page, bytes, v, n, image.ehdr.phoff);
  }

  /** A PT_PHDR that agrees with the load around it is honest. */
  lemma HonestPhdr(ph: Phdr, bytes: seq<byte>, v: int, n: int, off: int)
    requires ph.vaddr <= v && v + n <= ph.vaddr + ph.filesz && ph.offset + (v - ph.vaddr) == off
    ensures LinkedTable(ph, bytes, v, n, off)
  {
    forall w | v <= w < v + n ensures LinkedByte(ph, bytes, w) == FileByte(bytes, off + (w - v)) {
      assert ph.offset + (w - ph.vaddr) == off + (w - v);
    }
  }

  // ------------------------------------------ anywhere in the image, mmap path

  /** The byte a program finds at link address `v` of a page of `ph`, the file bytes that share the
      first page included. */
  function PageByte(ph: Phdr, bytes: seq<byte>, v: int): byte
  {
    if ph.filesz > 0 && v < ph.vaddr + ph.filesz then FileByte(bytes, ph.offset + (v - ph.vaddr)) else 0
  }

  predicate ReadsAt(t: Space, a: int, b: byte) { a in t && t[a].prot.read && t[a].val == b }

  /** Some readable load has `b` at link address `v`. */
  predicate LinkReads(image: Image, page: u64, bytes: seq<byte>, v: int, b: byte)
    requires page > 0 && InTable(image.phdrs, image.loads)
  {
    exists k :: 0 <= k < |image.loads| && LoadReads(image.Load(k), page, bytes, v, b)
  }

  predicate LoadReads(ph: Phdr, page: u64, bytes: seq<byte>, v: int, b: byte)
    requires page > 0
  {
    LinkPages(ph, page, v) && BitAnd(ph.flags, 4) != 0 && PageByte(ph, bytes, v) == b
  }

  lemma SegCellReads(ph: Phdr, bias: u64, page: u64, fd: int, bytes: seq<byte>, v: int)
    requires Placeable(ph, bias, page) && page > 0 && LinkPages(ph, page, v)
    ensures SegCell(ph, bias, page, fd, bytes, v + bias).val == PageByte(ph, bytes, v)
    ensures SegCell(ph, bias, page, fd, bytes, v + bias).prot.read == (BitAnd(ph.flags, 4) != 0)
  {
    hide BitAnd;
    FlagBits(ph);
    SegmentBounds(ph, bias, page);
  }

  /** Two loads never share a page. */
  lemma OnlyOneOwner(image: Image, page: u64, plan: LoadPlan, j: nat, k: nat, a: int)
    requires Sound(image, page, plan) && page > 0 && j < |image.loads| && k < |image.loads|
    requires InTable(image.phdrs, image.loads)
    requires OwnPages(image.Load(j), plan.bias, page, a) && OwnPages(image.Load(k), plan.bias, page, a)
    ensures j == k
  {
  }

  /** What a program can read at an address of the image after a mapped load: exactly what some
      readable load has there; gaps cannot be read. */
  lemma MappedReadsExactly(s: Space, ops: seq<Op>, image: Image, page: u64, plan: LoadPlan, fd: int, file: seq<byte>, v: int, b: byte)
    requires MappedLoad(s, ops, image, page, plan, fd, file) && Covers(plan, v + plan.bias)
    requires page > 0 && InTable(image.phdrs, image.loads)
    ensures ReadsAt(Run(s, ops), v + plan.bias, b) <==> LinkReads(image, page, file, v, b)
  {
    hide Planned, FillOps, Sound, Placeable, LinkPages, SegCell, PageByte, Run, WellFormed, BitAnd;
    var a := v + plan.bias;
    PlannedWellFormed(image, page, plan);
    SoundPage(image, page, plan);
    forall k | 0 <= k < |image.loads|
      ensures LinkPages(image.Load(k), page, v) <==> OwnPages(image.Load(k), plan.bias, page, a)
    {
      PagesMove(image.Load(k), plan.bias, page, v);
    }
    if k :| 0 <= k < |image.loads| && OwnPages(image.Load(k), plan.bias, page, a) {
      MappedSegment(s, ops, image, page, plan, fd, file, k, a);
      SegCellReads(image.Load(k), plan.bias, page, fd, file, v);
      assert ReadsAt(Run(s, ops), a, b) <==> LoadReads(image.Load(k), page, file, v, b);
      forall j | 0 <= j < |image.loads| && LoadReads(image.Load(j), page, file, v, b) ensures j == k {
        OnlyOneOwner(image, page, plan, j, k, a);
      }
    } else {
      GapUnreadable(s, ops, image, page, plan, fd, file, a);
    }
  }

  lemma GapUnreadable(s: Space, ops: seq<Op>, image: Image, page: u64, plan: LoadPlan, fd: int, file: seq<byte>, a: int)
    requires MappedLoad(s, ops, image, page, plan, fd, file) && Covers(plan, a)
    requires page > 0 && InTable(image.phdrs, image.loads)
    requires forall k :: 0 <= k < |image.loads| ==> !OwnPages(image.Load(k), plan.bias, page, a)
    ensures a in Run(s, ops) && !Run(s, ops)[a].prot.read
  {
    hide PlanOf, PlanPre, FillOps, Run;
    assert InGap(image, page, plan, a) by {
      forall k | 0 <= k < |image.loads| ensures !Extents(image, page, plan)[k].Has(a) {
        assert !OwnPages(image.Load(k), plan.bias, page, a);
      }
    }
    MappedElsewhere(s, ops, image, page, plan, fd, file, a);
  }

  /** Byte `i` of the table can be read at `addr`; some readable load has it at link address `v`. */
  predicate TableByteReads(t: Space, addr: int, bytes: seq<byte>, off: int, i: int)
  {
    ReadsAt(t, addr + i, FileByte(bytes, off + i))
  }

  predicate TableByteLinked(image: Image, page: u64, bytes: seq<byte>, v: int, off: int, i: int)
    requires page > 0 && InTable(image.phdrs, image.loads)
  {
    LinkReads(image, page, bytes, v + i, FileByte(bytes, off + i))
  }

  lemma MappedTableByte(s: Space, ops: seq<Op>, image: Image, page: u64, plan: LoadPlan, fd: int, file: seq<byte>, v: int, off: int, i: int)
    requires MappedLoad(s, ops, image, page, plan, fd, file) && page > 0 && InTable(image.phdrs, image.loads)
    requires Covers(plan, v + plan.bias + i)
    ensures TableByteReads(Run(s, ops), v + plan.bias, file, off, i) <==> TableByteLinked(image, page, file, v, off, i)
  {
    hide MappedLoad, ReadsAt, LinkReads, FileByte, Run;
    MappedReadsExactly(s, ops, image, page, plan, fd, file, v + i, FileByte(file, off + i));
    assert v + i + plan.bias == v + plan.bias + i;
  }

  /** AT_PHDR taken from PT_PHDR after a mapped load: start-up code can read an `n`-byte table there
      exactly when at every byte some readable load has the table's byte. */
  lemma MappedPhdrExactly(s: Space, ops: seq<Op>, image: Image, page: u64, plan: LoadPlan, fd: int, file: seq<byte>, n: nat)
    requires MappedLoad(s, ops, image, page, plan, fd, file) && page > 0 && InTable(image.phdrs, image.loads)
    requires PhdrFromSegment(image, plan) && image.phdrSeg.value.vaddr + plan.bias + n <= plan.end
    ensures PhdrAddr(image, plan) == Some(image.phdrSeg.value.vaddr + plan.bias)
    ensures (forall i :: 0 <= i < n ==> TableByteReads(Run(s, ops), PhdrAddr(image, plan).value, file, image.ehdr.phoff, i))
            <==> (forall i :: 0 <= i < n ==>
                    TableByteLinked(image, page, file, image.phdrSeg.value.vaddr, image.ehdr.phoff, i))
  {
    hide MappedLoad, TableByteReads, TableByteLinked, Run;
    var v, t, off := image.phdrSeg.value.vaddr, Run(s, ops), image.ehdr.phoff;
    var addr := PhdrAddr(image, plan).value;
    forall i | 0 <= i < n
      ensures TableByteReads(t, addr, file, off, i) <==> TableByteLinked(image, page, file, v, off, i)
    {
      MappedTableByte(s, ops, image, page, plan, fd, file, v, off, i);
    }
  }

  // ------------------------------------------------------- accepted witnesses

  /** Headers that load themselves at zero, one page of zeroes four pages up, and a PT_PHDR at `v`. */
  function GapTable(page: u64, v: u64): seq<Phdr>
    requires page < 0x1_0000_0000
  {
    [Phdr(PT_LOAD, 5, 0, 0, 0, 232, 232, 0), Phdr(PT_LOAD, 6, 0, 4 * page, 0, 0, page, 0),
     Phdr(PT_PHDR, 4, 64, v, 0, 168, 168, 0)]
  }

  function GapEhdr(native: u16): Ehdr { SmallestEhdr(native, 0).(phnum := 3) }

  lemma GapSorted(page: u64, v: u64, t: seq<Phdr>)
    requires page < 0x1_0000_0000 && t == GapTable(page, v)
    ensures SortedLoads(t) == [0, 1] && LastOf(t, |t|, PT_PHDR) == Some(t[2])
  {
    hide SortedLoads;
    assert LoadIndices(t, 1) == LoadIndices(t, 0) + [0];
    assert LoadIndices(t, 2) == LoadIndices(t, 1) + [1];
    TwoLoads(t);
  }

  lemma GapPages(page: u64)
    requires 4096 <= page < 0x1_0000_0000
    ensures Up(232, page) == page && AlignDown(0, page) == 0
    ensures AlignDown(4 * page, page) == 4 * page && Up(5 * page, page) == 5 * page
    ensures Rem(5 * page, page) == 0
  {
    RemUnique(0, page, 0, 0);
    RemUnique(232 + (page - 1), page, 1, 231);
    RemUnique(4 * page, page, 4, 0);
    RemUnique(5 * page, page, 5, 0);
    RemUnique(5 * page + (page - 1), page, 5, page - 1);
  }

  lemma GapLoadsValid(page: u64, v: u64, t: seq<Phdr>, size: Option<u64>)
    requires 4096 <= page < 0x1_0000_0000 && t == GapTable(page, v) && (size.Some? ==> size.value >= 232)
    ensures ValidLoad(t[0], page, size) && ValidLoad(t[1], page, size)
    ensures MemEnd(t[0]) == 232 && MemEnd(t[1]) == 5 * page
  {
    hide IsPow2;
  }

  lemma GapEntriesOk(page: u64, v: u64, t: seq<Phdr>, size: Option<u64>)
    requires 4096 <= page < 0x1_0000_0000 && t == GapTable(page, v)
    requires ValidLoad(t[0], page, size) && ValidLoad(t[1], page, size)
    ensures EntriesOk(t, |t|, page, size)
  {
    hide ValidLoad;
  }

  lemma GapAccepted(page: u64, v: u64, t: seq<Phdr>, size: Option<u64>)
    requires 4096 <= page < 0x1_0000_0000 && t == GapTable(page, v) && (size.Some? ==> size.value >= 232)
    ensures AcceptsTable(t, page, size)
  {
    hide ValidLoad, SortedLoads, Up, AlignDown, EntriesOk, MemEnd, LastOf;
    GapSorted(page, v, t);
    GapPages(page);
    GapLoadsValid(page, v, t, size);
    GapEntriesOk(page, v, t, size);
    assert SeparatedAt(t, SortedLoads(t), 0, page);
  }

  lemma GapHeader(native: u16)
    ensures HeaderOk(GapEhdr(native), native)
  {
    SmallestHeaders(native, 0, 4096, None);
  }

  /** The span, alignment and planning of the image, wherever its PT_PHDR points. */
  lemma GapPlans(image: Image, page: u64, v: u64)
    requires WellFormed(image, page) && 4096 <= page < 0x1_0000_0000 && image.ehdr.entry == 0
    requires image.phdrs == GapTable(page, v) && image.loads == [0, 1]
    ensures VaSpan(image, page) == Ok((0, 5 * page)) && SegAlign(image, page) == page
    ensures ReservationLen(image, page) == Ok(5 * page) && PlansEverywhere(image, page)
  {
    hide WellFormed, Up, AlignDown, SegAlign;
    GapPages(page);
    GapLoadsValid(page, v, image.phdrs, None);
    GapAlign(image, page, v);
    GapSpan(image, page, v);
    AlignBounds(5 * page, page);
  }

  lemma GapAlign(image: Image, page: u64, v: u64)
    requires page < 0x1_0000_0000 && image.phdrs == GapTable(page, v) && image.loads == [0, 1]
    ensures SegAlign(image, page) == page
  {
    assert MaxAlign(image, page, 1) == MaxAlign(image, page, 0);
    assert MaxAlign(image, page, 2) == MaxAlign(image, page, 1);
  }

  lemma GapSpan(image: Image, page: u64, v: u64)
    requires WellFormed(image, page) && 4096 <= page < 0x1_0000_0000
    requires image.phdrs == GapTable(page, v) && image.loads == [0, 1]
    ensures VaSpan(image, page) == Ok((0, 5 * page))
  {
    hide WellFormed, Up, AlignDown;
    GapPages(page);
  }

  /** One place for the image: a page up, with a bias of one page. */
  lemma GapPlan(image: Image, page: u64, v: u64) returns (plan: LoadPlan)
    requires WellFormed(image, page) && 4096 <= page < 0x1_0000_0000 && image.ehdr.entry == 0
    requires image.phdrs == GapTable(page, v) && image.loads == [0, 1] && image.ehdr.etype == ET_DYN
    ensures Planned(image, page, plan) && plan.bias == page
  {
    hide WellFormed, PlanOf, VaSpan, SegAlign, ReservationLen, PlansEverywhere, Sound, Up, AlignUp, AlignDown;
    GapPlans(image, page, v);
    OnePage(page);
    assert PlanPre(image, page, At(page));
    PlansEverywhereExactly(image, page);
    plan := PlanOf(image, page, At(page)).value;
    PlanIsSound(image, page, At(page));
    PlanFields(image, page, At(page), plan);
  }

  lemma GapImage(src: Source, mid: seq<byte>, end: seq<byte>, page: u64, native: u16, v: u64, image: Image)
    requires IsPow2(page) && 4096 <= page < 0x1_0000_0000 && Wrote(src, GapEhdr(native), GapTable(page, v), mid, end, [])
    requires image == FromTable(GapEhdr(native), GapTable(page, v))
    ensures Accepts(src, page, native) && image == ImageOf(src) && WellFormed(image, page)
    ensures image.phdrs == GapTable(page, v) && image.loads == [0, 1] && image.phdrSeg == Some(GapTable(page, v)[2])
    ensures image.ehdr.etype == ET_DYN && image.ehdr.entry == 0 && image.ehdr.phoff == EHDR_SIZE
  {
    hide Accepts, ImageOf, WellFormed, AcceptsTable, HeaderOk, SortedLoads, EhdrBytes, TableBytes, LastOf, IsPow2;
    GapAccepted(page, v, GapTable(page, v), src.Size());
    GapHeader(native);
    ParseOfWritten(src, GapEhdr(native), GapTable(page, v), mid, end, [], page, native);
    AcceptedIsWellFormed(src, page, native);
    GapSorted(page, v, GapTable(page, v));
  }

  lemma GapFile(page: u64, native: u16, v: u64) returns (src: Source, mid: seq<byte>, end: seq<byte>)
    requires page < 0x1_0000_0000
    ensures Wrote(src, GapEhdr(native), GapTable(page, v), mid, end, []) && src.sizeKnown
  {
    hide Wrote;
    src, mid, end := WriteFile(GapEhdr(native), GapTable(page, v));
  }

  lemma GapIsNoLoad(image: Image, page: u64, v: u64)
    requires 4096 <= page < 0x1_0000_0000 && image.phdrs == GapTable(page, v) && image.loads == [0, 1]
    ensures !InLoadPages(image, page, 2 * page)
  {
    hide Up, AlignDown;
    GapPages(page);
    assert !LinkPages(image.Load(0), page, 2 * page) && !LinkPages(image.Load(1), page, 2 * page);
  }

  lemma GapCovers(image: Image, page: u64, v: u64, plan: LoadPlan)
    requires WellFormed(image, page) && 4096 <= page < 0x1_0000_0000 && image.ehdr.entry == 0
    requires image.phdrs == GapTable(page, v) && image.loads == [0, 1] && Planned(image, page, plan)
    ensures Covers(plan, 2 * page + plan.bias) && plan.end < U64_LIMIT
  {
    hide WellFormed, PlanOf, VaSpan, SegAlign, ReservationLen, PlansEverywhere, Sound, PlanPre;
    GapPlans(image, page, v);
    PlanFields(image, page, PlacementOf(image, plan.reserveAddr), plan);
  }

  /** PT_PHDR need not lie in a load: a file that the parser accepts and the planner places anywhere,
      whose AT_PHDR is always an address in the gap between its two loads. */
  lemma PhdrCanMissLoads(native: u16, page: u64) returns (src: Source, image: Image, plan: LoadPlan)
    requires IsPow2(page) && 4096 <= page < 0x1_0000_0000
    ensures src.Valid() && Accepts(src, page, native) && image == ImageOf(src) && InTable(image.phdrs, image.loads)
    ensures Planned(image, page, plan)
    ensures forall p :: Planned(image, page, p) ==>
              PhdrAddr(image, p) == Some(2 * page + p.bias) && !InSegmentPages(image, page, p, 2 * page + p.bias)
  {
    hide Accepts, ImageOf, WellFormed, Planned, EhdrBytes, TableBytes, FromTable, InLoadPages, InSegmentPages, GapTable;
    var mid, end;
    src, mid, end := GapFile(page, native, 2 * page);
    image := FromTable(GapEhdr(native), GapTable(page, 2 * page));
    GapImage(src, mid, end, page, native, 2 * page, image);
    plan := GapPlan(image, page, 2 * page);
    WellFormedTable(image, page);
    forall p | Planned(image, page, p)
      ensures PhdrAddr(image, p) == Some(2 * page + p.bias) && !InSegmentPages(image, page, p, 2 * page + p.bias)
    {
      PhdrInGap(image, page, p);
    }
  }

  lemma WellFormedTable(image: Image, page: u64)
    requires WellFormed(image, page)
    ensures InTable(image.phdrs, image.loads)
  {
  }

  lemma PhdrInGap(image: Image, page: u64, p: LoadPlan)
    requires WellFormed(image, page) && 4096 <= page < 0x1_0000_0000 && image.ehdr.entry == 0
    requires image.phdrs == GapTable(page, 2 * page) && image.loads == [0, 1]
    requires image.phdrSeg == Some(GapTable(page, 2 * page)[2]) && Planned(image, page, p)
    ensures PhdrAddr(image, p) == Some(2 * page + p.bias) && !InSegmentPages(image, page, p, 2 * page + p.bias)
  {
    hide WellFormed, PlanOf, PlanPre, Sound, InLoadPages, InSegmentPages;
    GapCovers(image, page, 2 * page, p);
    GapIsNoLoad(image, page, 2 * page);
    PhdrSegmentExactly(image, page, p);
  }

  /** An overflowing PT_PHDR hides the table: a file that the parser accepts, with the table in a load,
      that has no AT_PHDR wherever its bias is not zero. */
  lemma PhdrCanOverflow(native: u16, page: u64) returns (src: Source, image: Image, plan: LoadPlan)
    requires IsPow2(page) && 4096 <= page < 0x1_0000_0000
    ensures src.Valid() && Accepts(src, page, native) && image == ImageOf(src)
    ensures InTable(image.phdrs, image.loads) && TableInLoads(image)
    ensures Planned(image, page, plan) && plan.bias > 0
    ensures forall p: LoadPlan :: p.bias > 0 ==> PhdrAddr(image, p).None?
  {
    hide Accepts, ImageOf, WellFormed, Planned, EhdrBytes, TableBytes, FromTable;
    var mid, end;
    src, mid, end := GapFile(page, native, U64_LIMIT - 1);
    image := FromTable(GapEhdr(native), GapTable(page, U64_LIMIT - 1));
    GapImage(src, mid, end, page, native, U64_LIMIT - 1, image);
    plan := GapPlan(image, page, U64_LIMIT - 1);
    WellFormedTable(image, page);
    assert HoldsTable(image, 0);
  }
}
