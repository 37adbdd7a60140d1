/** From a validated image to a concrete plan of mappings. */
module Layout {
  import opened Words
  import opened Elf

  datatype Prot = Prot(read: bool, write: bool, exec: bool)

  const PROT_NONE := Prot(false, false, false)
  const RW := Prot(true, true, false)
  const MAX_SEG_ALIGN: u64 := 2 * 1024 * 1024

  function ProtOf(ph: Phdr): Prot { Prot(ph.IsRead(), ph.IsWrite(), ph.IsExec()) }

  /** The protection a flag word asks for: bit 2 to read, bit 1 to write, bit 0 to execute. */
  function FlagProt(flags: u32): Prot { Prot(BitAnd(flags, 4) != 0, BitAnd(flags, 2) != 0, BitAnd(flags, 1) != 0) }

  lemma ProtOfFlags(ph: Phdr)
    ensures ProtOf(ph) == FlagProt(ph.flags)
    ensures ProtOf(ph) == Prot(BitAnd(ph.flags, 4) != 0, BitAnd(ph.flags, 2) != 0, BitAnd(ph.flags, 1) != 0)
  {
    FlagBits(ph);
  }

  datatype FileMap = FileMap(addr: u64, len: u64, off: u64)
  datatype AnonMap = AnonMap(addr: u64, len: u64)

  datatype SegmentPlan = SegmentPlan(idx: nat, file: Option<FileMap>, zero: Option<AnonMap>,
                                     anon: Option<AnonMap>, prot: Prot, window: bool)
  {
    /** `range()`: the whole address range the segment occupies, `(0, 0)` when it maps nothing. */
    function Range(): (int, int)
    {
      var start := if file.Some? then file.value.addr else if anon.Some? then anon.value.addr else 0;
      var end := if anon.Some? then anon.value.addr + anon.value.len
                 else if file.Some? then file.value.addr + file.value.len else start;
      (start, end)
    }

    /** Length of the range; `RangeOf` shows the two ends of a plan are always in order. */
    function Size(): nat { if Range().0 <= Range().1 then Range().1 - Range().0 else 0 }
  }

  datatype LoadPlan = LoadPlan(bias: u64, reserveAddr: u64, reserveLen: u64, base: u64, end: u64,
                               align: u64, segments: seq<SegmentPlan>, entry: u64)

  datatype Placement = Fixed | At(raw: u64)

  function Min(a: int, b: int): int { if a <= b then a else b }
  function Max(a: int, b: int): int { if a >= b then a else b }

  function SegAlign(image: Image, page: u64): u64
    requires InTable(image.phdrs, image.loads)
  {
    Max(Min(MaxAlign(image, page, |image.loads|), MAX_SEG_ALIGN), page)
  }

  lemma MaxSegAlignIsPow2()
    ensures IsPow2(MAX_SEG_ALIGN)
  {
    assert IsPow2(16);
    Pow2Product(16, 16);
    Pow2Product(256, 256);
    Pow2Product(65536, 16);
    Pow2Product(1048576, 2);
  }

  lemma SegAlignFacts(image: Image, page: u64)
    requires WellFormed(image, page)
    ensures page > 0
    ensures var a := SegAlign(image, page); IsPow2(a) && a >= page && Rem(a, page) == 0
  {
    MaxAlignIsStrongest(image, page, |image.loads|);
    MaxSegAlignIsPow2();
    Pow2Divides(page, SegAlign(image, page));
  }

  /** Size of the reservation that lets an aligned base be carved out of it. */
  function ReservationLen(image: Image, page: u64): Result<u64, Errno>
    requires WellFormed(image, page)
  {
    SegAlignFacts(image, page);
    match VaSpan(image, page)
    case Err(e) => Err(e)
    case Ok((lo, hi)) =>
      SpanCovers(image, page, 0);
      if hi - lo + (SegAlign(image, page) - page) < U64_LIMIT
      then Ok(hi - lo + (SegAlign(image, page) - page)) else Err(ENOEXEC)
  }

  // ------------------------------------------------------------ one segment

  function Lo(ph: Phdr, bias: int, page: u64): int requires page > 0 { AlignDown(ph.vaddr + bias, page) }
  function FileHi(ph: Phdr, bias: int, page: u64): int requires page > 0
  {
    if ph.filesz > 0 then Up(ph.vaddr + bias + ph.filesz, page) else Lo(ph, bias, page)
  }
  function Hi(ph: Phdr, bias: int, page: u64): int requires page > 0 { Up(ph.vaddr + bias + ph.memsz, page) }

  /** `ph` can be placed at `bias`: the arithmetic of `plan` for it stays inside 64 bits. */
  predicate Placeable(ph: Phdr, bias: int, page: u64)
  {
    IsPow2(page) && ValidLoad(ph, page, None) && 0 <= bias && Rem(bias, page) == 0 && Hi(ph, bias, page) < U64_LIMIT
  }

  /** The bounds that make every unchecked operation on a placeable segment safe. */
  lemma SegmentBounds(ph: Phdr, bias: int, page: u64)
    requires Placeable(ph, bias, page)
    ensures 0 <= Lo(ph, bias, page) <= ph.vaddr + bias
    ensures ph.vaddr + bias + ph.filesz <= ph.vaddr + bias + ph.memsz <= Hi(ph, bias, page)
    ensures Lo(ph, bias, page) <= FileHi(ph, bias, page) <= Hi(ph, bias, page)
    ensures ph.filesz > 0 ==> ph.vaddr + bias + ph.filesz <= FileHi(ph, bias, page)
    ensures Rem(Lo(ph, bias, page), page) == 0 && Rem(FileHi(ph, bias, page), page) == 0 && Rem(Hi(ph, bias, page), page) == 0
    ensures ph.filesz > 0 ==> 0 <= ph.offset - (ph.vaddr + bias - Lo(ph, bias, page))
                              && Rem(ph.offset - (ph.vaddr + bias - Lo(ph, bias, page)), page) == 0
    ensures Lo(ph, bias, page) == AlignDown(ph.vaddr, page) + bias && Hi(ph, bias, page) == Up(MemEnd(ph), page) + bias
  {
    hide Rem;
    var v := ph.vaddr + bias;
    AddMultiple(ph.vaddr, bias, page);
    AddMultiple(MemEnd(ph), bias, page);
    AlignBounds(v, page);
    UpBounds(v + ph.memsz, page);
    UpMonotone(v + ph.filesz, v + ph.memsz, page);
    UpBounds(v + ph.filesz, page);
    AlignBounds(ph.offset, page);
    assert v + ph.memsz == MemEnd(ph) + bias;
  }

  /** The plan of one segment: file pages, the partial page to clear, whole pages of zeroes. */
  function SegmentAt(i: nat, ph: Phdr, bias: u64, page: u64): SegmentPlan
    requires Placeable(ph, bias, page)
  {
    SegmentBounds(ph, bias, page);
    var v, lo, fileHi, hi := ph.vaddr + bias, Lo(ph, bias, page), FileHi(ph, bias, page), Hi(ph, bias, page);
    var file := if ph.filesz > 0 then Some(FileMap(lo, fileHi - lo, ph.offset - (v - lo))) else None;
    var zero := if ph.filesz > 0 && fileHi > v + ph.filesz
                then Some(AnonMap(v + ph.filesz, fileHi - (v + ph.filesz))) else None;
    var anon := if hi > fileHi then Some(AnonMap(fileHi, hi - fileHi)) else None;
    SegmentPlan(i, file, zero, anon, ProtOf(ph), zero.Some? && !ProtOf(ph).write)
  }

  // --------------------------------------------------------------- the plan

  /** What `plan` is called with: for `At`, a page-aligned reservation of `ReservationLen` bytes
      that ends below 2^64. */
  predicate PlanPre(image: Image, page: u64, placement: Placement)
  {
    WellFormed(image, page)
    && (placement.At? ==>
          ReservationLen(image, page).Ok? && Rem(placement.raw, page) == 0
          && placement.raw + ReservationLen(image, page).value < U64_LIMIT)
  }

  /** The load bias, or the reason there is none. */
  function Bias(image: Image, page: u64, placement: Placement): Result<u64, Errno>
    requires PlanPre(image, page, placement) && VaSpan(image, page).Ok?
  {
    SegAlignFacts(image, page);
    match placement
    case Fixed => Ok(0)
    case At(raw) =>
      match AlignUp(raw, SegAlign(image, page))
      case None => Err(ENOMEM)
      case Some(base) =>
        if base < VaSpan(image, page).value.0 then Err(ENOMEM) else Ok(base - VaSpan(image, page).value.0)
  }

  /** The bias is a page multiple and puts the whole span inside the reservation. */
  lemma BiasFacts(image: Image, page: u64, placement: Placement)
    requires PlanPre(image, page, placement) && VaSpan(image, page).Ok? && Bias(image, page, placement).Ok?
    ensures var (lo, hi) := VaSpan(image, page).value;
            var bias := Bias(image, page, placement).value;
            Rem(bias, page) == 0 && lo + bias <= hi + bias < U64_LIMIT
            && (placement.At? ==> placement.raw <= lo + bias
                                  && hi + bias <= placement.raw + ReservationLen(image, page).value)
  {
    hide Rem;
    RemUnique(0, page, 0, 0);
    SegAlignFacts(image, page);
    SpanCovers(image, page, 0);
    if placement.At? {
      var align: int, raw: int := SegAlign(image, page), placement.raw;
      var base := Up(raw, align);
      UpBounds(raw, align);
      DividesTrans(base, align, page);
      MinusMultiple(base, VaSpan(image, page).value.0, page);
      MultipleGap(base, raw + align, page) by {
        ModPlus(raw, align, page);
      }
    }
  }

  /** Every load of the image can be placed at the chosen bias. */
  lemma AllPlaceable(image: Image, page: u64, placement: Placement, k: nat)
    requires PlanPre(image, page, placement) && VaSpan(image, page).Ok? && Bias(image, page, placement).Ok?
    requires k < |image.loads|
    ensures Placeable(image.Load(k), Bias(image, page, placement).value, page)
  {
    hide Rem;
    BiasFacts(image, page, placement);
    SpanCovers(image, page, k);
    AddMultiple(MemEnd(image.Load(k)), Bias(image, page, placement).value, page);
  }

  function Segments(image: Image, bias: u64, page: u64): seq<SegmentPlan>
    requires WellFormed(image, page)
    requires forall k :: 0 <= k < |image.loads| ==> Placeable(image.Load(k), bias, page)
  {
    seq(|image.loads|, k requires 0 <= k < |image.loads| => SegmentAt(image.loads[k], image.Load(k), bias, page))
  }

  /** The record `plan` returns once the bias and the segments are known. */
  function Assemble(image: Image, page: u64, placement: Placement, bias: u64, segments: seq<SegmentPlan>): LoadPlan
    requires PlanPre(image, page, placement) && VaSpan(image, page).Ok?
    requires Bias(image, page, placement) == Ok(bias) && image.ehdr.entry + bias < U64_LIMIT
  {
    BiasFacts(image, page, placement);
    SegAlignFacts(image, page);
    var (lo, hi) := VaSpan(image, page).value;
    LoadPlan(bias,
             if placement.Fixed? then lo else placement.raw,
             if placement.Fixed? then hi - lo else hi - lo + (SegAlign(image, page) - page),
             lo + bias, hi + bias, SegAlign(image, page), segments, image.ehdr.entry + bias)
  }

  /** The plan `layout::plan` builds, as a function of its inputs. */
  function PlanOf(image: Image, page: u64, placement: Placement): Result<LoadPlan, Errno>
    requires PlanPre(image, page, placement)
  {
    if VaSpan(image, page).Err? then Err(ENOEXEC)
    else
      match Bias(image, page, placement)
      case Err(e) => Err(e)
      case Ok(bias) =>
        assert forall k :: 0 <= k < |image.loads| ==> Placeable(image.Load(k), bias, page) by {
          forall k | 0 <= k < |image.loads| ensures Placeable(image.Load(k), bias, page) {
            AllPlaceable(image, page, placement, k);
          }
        }
        if image.ehdr.entry + bias >= U64_LIMIT then Err(ENOMEM)
        else Ok(Assemble(image, page, placement, bias, Segments(image, bias, page)))
  }

  /** The body of the segment loop of `plan`, with its unchecked arithmetic on `u64`. The checked
      operations of the code are shown never to fail. */
  method PlanSegment(i: nat, ph: Phdr, bias: u64, page: u64) returns (seg: SegmentPlan)
    requires Placeable(ph, bias, page)
    ensures seg == SegmentAt(i, ph, bias, page)
  {
    hide Rem;
    SegmentBounds(ph, bias, page);
    AlignUpFits(ph.vaddr + bias + ph.memsz, Hi(ph, bias, page), page);
    AlignUpFits(ph.vaddr + bias + ph.filesz, Hi(ph, bias, page), page);
    var v: u64 := ph.vaddr + bias;
    var mstart: u64 := AlignDown(v, page);
    var fdelta: u64 := v - mstart;
    var memEnd: u64 := AlignUp(v + ph.memsz, page).value;
    var fend: u64 := v + ph.filesz;
    var fileEnd: u64 := if ph.filesz > 0 then AlignUp(fend, page).value else mstart;
    assert mstart == Lo(ph, bias, page) && memEnd == Hi(ph, bias, page) && fileEnd == FileHi(ph, bias, page);
    var file, zero := None, None;
    if ph.filesz > 0 {
      file := Some(FileMap(mstart, fileEnd - mstart, ph.offset - fdelta));
      zero := if fileEnd > fend then Some(AnonMap(fend, fileEnd - fend)) else None;
    }
    var anon := if memEnd > fileEnd then Some(AnonMap(fileEnd, memEnd - fileEnd)) else None;
    seg := SegmentPlan(i, file, zero, anon, ProtOf(ph), zero.Some? && !ProtOf(ph).write);
  }

  /** The segment loop of `plan`. */
  method PlanSegments(image: Image, bias: u64, page: u64) returns (segments: seq<SegmentPlan>)
    requires WellFormed(image, page)
    requires forall k :: 0 <= k < |image.loads| ==> Placeable(image.Load(k), bias, page)
    ensures segments == Segments(image, bias, page)
  {
    segments := [];
    for k := 0 to |image.loads|
      invariant |segments| == k
      invariant forall j :: 0 <= j < k ==> segments[j] == SegmentAt(image.loads[j], image.Load(j), bias, page)
    {
      var seg := PlanSegment(image.loads[k], image.Load(k), bias, page);
      segments := segments + [seg];
    }
  }

  /** `layout::plan`. */
  method Plan(image: Image, page: u64, placement: Placement) returns (r: Result<LoadPlan, Errno>)
    requires PlanPre(image, page, placement)
    ensures r == PlanOf(image, page, placement)
  {
    var span := VaSpan(image, page);
    if span.Err? { return Err(ENOEXEC); }
    var bias := Bias(image, page, placement);
    if bias.Err? { return Err(bias.error); }
    forall k | 0 <= k < |image.loads| ensures Placeable(image.Load(k), bias.value, page) {
      AllPlaceable(image, page, placement, k);
    }
    var segments := PlanSegments(image, bias.value, page);
    if image.ehdr.entry + bias.value >= U64_LIMIT { return Err(ENOMEM); }
    r := Ok(Assemble(image, page, placement, bias.value, segments));
  }

  /** The guard of `plan` at a reservation: the aligned base lies below the lowest link address, or
      the biased entry point leaves 64 bits. */
  predicate PlanRefuses(image: Image, page: u64, raw: int)
    requires WellFormed(image, page) && VaSpan(image, page).Ok?
  {
    SegAlignFacts(image, page);
    var base, lo := Up(raw, SegAlign(image, page)), VaSpan(image, page).value.0;
    base < lo || image.ehdr.entry + (base - lo) >= U64_LIMIT
  }

  /** Aligning the start of a reservation never overflows: there is room for the span above it. */
  lemma AlignedBaseExists(image: Image, page: u64, raw: u64)
    requires PlanPre(image, page, At(raw)) && VaSpan(image, page).Ok?
    ensures AlignUp(raw, SegAlign(image, page)) == Some(Up(raw, SegAlign(image, page)))
  {
    SegAlignFacts(image, page);
    SpanCovers(image, page, 0);
    LimitIsWholePages(page);
    var (lo, hi) := VaSpan(image, page).value;
    RoomToAlign(raw, hi - lo, SegAlign(image, page), page, U64_LIMIT);
  }

  lemma LimitIsWholePages(page: u64)
    requires IsPow2(page)
    ensures Rem(U64_LIMIT, page) == 0
  {
    U64LimitIsPow2();
    Pow2Divides(page, U64_LIMIT);
  }

  lemma RoomToAlign(raw: int, span: int, a: int, page: int, limit: int)
    requires page > 0 && Rem(a, page) == 0 && Rem(raw, page) == 0 && Rem(limit, page) == 0
    requires span >= 0 && raw + span + (a - page) < limit
    ensures raw + a <= limit
  {
    hide Rem;
    ModPlus(raw, a, page);
    MinusMultiple(raw + a, page, page) by { RemUnique(page, page, 1, 0); }
    MultipleGap(raw + a - page, limit, page);
  }

  /** `plan` fails on a valid placement exactly when a base has to be chosen and the guard refuses it;
      at the link address it never fails once the span exists. */
  lemma PlanFailsExactly(image: Image, page: u64, placement: Placement)
    requires PlanPre(image, page, placement) && VaSpan(image, page).Ok?
    ensures PlanOf(image, page, placement).Err? <==> placement.At? && PlanRefuses(image, page, placement.raw)
  {
    SegAlignFacts(image, page);
    if placement.At? { AlignedBaseExists(image, page, placement.raw); }
  }

  // ------------------------------------------------- plans that never fail

  /** The condition on the image alone: it is linked at zero, and its entry point lies below the first
      multiple of its alignment past the end. */
  predicate PlansEverywhere(image: Image, page: u64)
    requires WellFormed(image, page) && VaSpan(image, page).Ok?
  {
    SegAlignFacts(image, page);
    var (lo, hi) := VaSpan(image, page).value;
    lo == 0 && image.ehdr.entry < AlignDown(hi, SegAlign(image, page)) + SegAlign(image, page)
  }

  /** However high the reservation, one more alignment step fits above the rounded end. */
  lemma RoomAbove(raw: int, hi: int, a: int, page: int, limit: int)
    requires page > 0 && a > 0 && Rem(a, page) == 0 && Rem(raw, page) == 0 && Rem(limit, a) == 0
    requires raw + hi + (a - page) < limit
    ensures Up(raw, a) + AlignDown(hi, a) + a <= limit
  {
    hide Rem, AlignDown;
    UpBounds(raw, a);
    AlignBounds(hi, a);
    DividesTrans(Up(raw, a), a, page);
    ModPlus(raw, a, page);
    MultipleGap(Up(raw, a), raw + a, page);
    ModPlus(Up(raw, a), AlignDown(hi, a), a);
    MultipleGap(Up(raw, a) + AlignDown(hi, a), limit, a);
  }

  lemma UpNegated(v: int, a: int)
    requires a > 0
    ensures Up(-v, a) == -AlignDown(v, a)
  {
    UpBounds(-v, a);
    AlignBounds(v, a);
    MinusMultiple(0, AlignDown(v, a), a) by { RemUnique(0, a, 0, 0); }
    var x, y := Up(-v, a), -AlignDown(v, a);
    if x < y { MultipleGap(x, y, a); } else if y < x { MultipleGap(y, x, a); }
  }

  /** The highest reservation leaves exactly that one step. */
  lemma HighestReservation(hi: int, a: int, page: int, limit: int)
    requires page > 0 && a > 0 && Rem(a, page) == 0 && Rem(hi, page) == 0 && Rem(limit, page) == 0 && Rem(limit, a) == 0
    ensures Rem(limit - a - hi, page) == 0
    ensures Up(limit - a - hi, a) == limit - a - AlignDown(hi, a)
  {
    hide Rem;
    MinusMultiple(limit, a, page);
    MinusMultiple(limit - a, hi, page);
    MinusMultiple(limit, a, a) by { RemUnique(a, a, 1, 0); }
    AddMultiple(-hi, limit - a, a);
    UpNegated(hi, a);
    assert -hi + (limit - a) == limit - a - hi;
  }

  lemma PlansEverywhereSuffices(image: Image, page: u64, raw: u64)
    requires PlanPre(image, page, At(raw)) && VaSpan(image, page).Ok? && PlansEverywhere(image, page)
    ensures !PlanRefuses(image, page, raw)
  {
    hide Rem, AlignDown, Up, ValidLoad, IsPow2, VaSpan, SegAlign;
    var a, hi := SegAlign(image, page), VaSpan(image, page).value.1;
    SegAlignFacts(image, page);
    LimitIsWholePages(a);
    UpBounds(raw, a);
    RoomAbove(raw, hi, a, page, U64_LIMIT);
  }

  /** Where an image that does not plan everywhere can be refused: at zero, or as high as it goes. */
  lemma RefusedSomewhere(image: Image, page: u64) returns (raw: u64)
    requires WellFormed(image, page) && ReservationLen(image, page).Ok? && !PlansEverywhere(image, page)
    ensures PlanPre(image, page, At(raw)) && PlanRefuses(image, page, raw)
    ensures raw == 0 || raw + ReservationLen(image, page).value + SegAlign(image, page) >= U64_LIMIT
  {
    hide Rem;
    var a: int, need: int := SegAlign(image, page), ReservationLen(image, page).value;
    var lo: int, hi: int := VaSpan(image, page).value.0, VaSpan(image, page).value.1;
    SegAlignFacts(image, page);
    ReservationPages(image, page);
    LimitIsWholePages(page);
    LimitIsWholePages(a);
    if lo > 0 {
      raw := 0;
      assert Up(0, a) == 0 by { UpOnePage(a); }
      assert Rem(0, page) == 0 by { RemUnique(0, page, 0, 0); }
    } else {
      HighestReservation(hi, a, page, U64_LIMIT);
      MultipleGap(need, U64_LIMIT, page);
      raw := U64_LIMIT - a - hi;
    }
  }

  /** Exactly when no reservation the system may choose makes `plan` fail: a condition on the image. */
  lemma PlansEverywhereExactly(image: Image, page: u64)
    requires WellFormed(image, page) && ReservationLen(image, page).Ok?
    ensures (forall raw: u64 :: PlanPre(image, page, At(raw)) ==> PlanOf(image, page, At(raw)).Ok?)
            <==> PlansEverywhere(image, page)
  {
    hide PlanOf, PlansEverywhere, PlanRefuses;
    if PlansEverywhere(image, page) {
      forall raw: u64 | PlanPre(image, page, At(raw)) ensures PlanOf(image, page, At(raw)).Ok? {
        PlansEverywhereSuffices(image, page, raw);
        PlanFailsExactly(image, page, At(raw));
      }
    } else {
      var raw := RefusedSomewhere(image, page);
      PlanFailsExactly(image, page, At(raw));
    }
  }

  // ------------------------------------------- places that are aligned already

  /** `raw` is a multiple of the alignment the image asks for, as every aligned block is. */
  predicate AlignedPlace(image: Image, page: u64, raw: int)
    requires WellFormed(image, page)
  {
    SegAlignFacts(image, page);
    Rem(raw, SegAlign(image, page)) == 0
  }

  /** The condition on the image alone when every place is aligned: linked at zero, and entered below
      one alignment step past its rounded-up end. */
  predicate PlansAligned(image: Image, page: u64)
    requires WellFormed(image, page) && VaSpan(image, page).Ok?
  {
    SegAlignFacts(image, page);
    var (lo, hi) := VaSpan(image, page).value;
    lo == 0 && image.ehdr.entry < Up(hi, SegAlign(image, page)) + SegAlign(image, page)
  }

  lemma AlignedRoom(raw: int, hi: int, a: int, page: int, limit: int)
    requires page > 0 && a > 0 && Rem(a, page) == 0 && Rem(hi, page) == 0 && Rem(raw, a) == 0 && Rem(limit, a) == 0
    requires raw + hi + (a - page) < limit
    ensures raw + Up(hi, a) + a <= limit
  {
    hide Rem, AlignDown;
    UpBounds(hi, a);
    DividesTrans(Up(hi, a), a, page);
    ModPlus(hi, a, page);
    MultipleGap(Up(hi, a), hi + a, page);
    ModPlus(raw, Up(hi, a), a);
    MultipleGap(raw + Up(hi, a), limit, a);
  }

  lemma PlansAlignedSuffices(image: Image, page: u64, raw: u64)
    requires PlanPre(image, page, At(raw)) && VaSpan(image, page).Ok?
    requires AlignedPlace(image, page, raw) && PlansAligned(image, page)
    ensures !PlanRefuses(image, page, raw)
  {
    hide Rem;
    var a, hi := SegAlign(image, page), VaSpan(image, page).value.1;
    SegAlignFacts(image, page);
    LimitIsWholePages(a);
    ReservationPages(image, page);
    UpOfMultiple(raw, a);
    AlignedRoom(raw, hi, a, page, U64_LIMIT);
  }

  lemma AlignedRefusedSomewhere(image: Image, page: u64) returns (raw: u64)
    requires WellFormed(image, page) && ReservationLen(image, page).Ok? && !PlansAligned(image, page)
    ensures PlanPre(image, page, At(raw)) && AlignedPlace(image, page, raw) && PlanRefuses(image, page, raw)
    ensures raw == 0 || raw + ReservationLen(image, page).value + SegAlign(image, page) >= U64_LIMIT
  {
    hide Rem;
    var a: int := SegAlign(image, page);
    var lo: int, hi: int := VaSpan(image, page).value.0, VaSpan(image, page).value.1;
    SegAlignFacts(image, page);
    ReservationPages(image, page);
    LimitIsWholePages(a);
    ZeroAligned(a, page);
    hide Up, AlignDown, IsPow2, WellFormed, SegAlign;
    if lo > 0 {
      raw := 0;
    } else {
      HighestAligned(hi, a, page, U64_LIMIT);
      raw := U64_LIMIT - a - Up(hi, a);
    }
  }

  lemma ZeroAligned(a: int, page: int)
    requires a > 0 && page > 0
    ensures Rem(0, page) == 0 && Rem(0, a) == 0 && Up(0, a) == 0
  {
    RemUnique(0, page, 0, 0);
    RemUnique(0, a, 0, 0);
    UpOfMultiple(0, a);
  }

  /** The highest aligned place that has room. */
  lemma HighestAligned(hi: int, a: int, page: int, limit: int)
    requires page > 0 && a > 0 && Rem(a, page) == 0 && Rem(hi, page) == 0 && Rem(limit, a) == 0
    requires hi + (a - page) < limit
    ensures var raw := limit - a - Up(hi, a);
            0 <= raw && Rem(raw, a) == 0 && Rem(raw, page) == 0 && Up(raw, a) == raw
            && limit <= raw + hi + (a - page) + a < limit + a
  {
    hide Rem;
    ZeroAligned(a, page);
    AlignedRoom(0, hi, a, page, limit);
    UpBounds(hi, a);
    MinusMultiple(limit, a, a) by { RemUnique(a, a, 1, 0); }
    MinusMultiple(limit - a, Up(hi, a), a);
    DividesTrans(limit - a - Up(hi, a), a, page);
    UpOfMultiple(limit - a - Up(hi, a), a);
    DividesTrans(Up(hi, a), a, page);
    ModPlus(hi, a, page);
    MultipleGap(Up(hi, a), hi + a, page);
  }

  /** Exactly when no aligned place makes `plan` fail. */
  lemma PlansAlignedExactly(image: Image, page: u64)
    requires WellFormed(image, page) && ReservationLen(image, page).Ok?
    ensures (forall raw: u64 :: PlanPre(image, page, At(raw)) && AlignedPlace(image, page, raw) ==>
               PlanOf(image, page, At(raw)).Ok?)
            <==> PlansAligned(image, page)
  {
    hide PlanOf, PlansAligned, PlanRefuses, AlignedPlace;
    if PlansAligned(image, page) {
      forall raw: u64 | PlanPre(image, page, At(raw)) && AlignedPlace(image, page, raw)
        ensures PlanOf(image, page, At(raw)).Ok?
      {
        PlansAlignedSuffices(image, page, raw);
        PlanFailsExactly(image, page, At(raw));
      }
    } else {
      var raw := AlignedRefusedSomewhere(image, page);
      PlanFailsExactly(image, page, At(raw));
    }
  }

  // ------------------------------------------- what a successful plan promises

  /** The facts the executor relies on, free of alignment arithmetic. Segment `k` owns
      `[Lo, Hi)` of its header; these lie inside the reservation and do not meet. */
  ghost predicate Sound(image: Image, page: u64, plan: LoadPlan)
  {
    WellFormed(image, page)
    && Rem(plan.reserveAddr, page) == 0 && Rem(plan.reserveLen, page) == 0
    && plan.reserveAddr + plan.reserveLen < U64_LIMIT
    && plan.reserveAddr <= plan.base <= plan.end <= plan.reserveAddr + plan.reserveLen
    && |plan.segments| == |image.loads|
    && (forall k :: 0 <= k < |image.loads| ==>
          Placeable(image.Load(k), plan.bias, page)
          && plan.segments[k] == SegmentAt(image.loads[k], image.Load(k), plan.bias, page)
          && plan.base <= Lo(image.Load(k), plan.bias, page)
          && Hi(image.Load(k), plan.bias, page) <= plan.end)
    && (forall i, j :: 0 <= i < j < |image.loads| ==>
          Hi(image.Load(i), plan.bias, page) <= Lo(image.Load(j), plan.bias, page))
  }

  lemma SegmentsInSpan(image: Image, page: u64, placement: Placement, k: nat)
    requires PlanPre(image, page, placement) && PlanOf(image, page, placement).Ok? && k < |image.loads|
    ensures var plan := PlanOf(image, page, placement).value;
            Placeable(image.Load(k), plan.bias, page)
            && plan.base <= Lo(image.Load(k), plan.bias, page) && Hi(image.Load(k), plan.bias, page) <= plan.end
  {
    hide Rem;
    AllPlaceable(image, page, placement, k);
    SpanCovers(image, page, k);
    SegmentBounds(image.Load(k), PlanOf(image, page, placement).value.bias, page);
  }

  lemma SegmentsApart(image: Image, page: u64, bias: int, i: nat, j: nat)
    requires WellFormed(image, page) && i < j < |image.loads|
    requires Placeable(image.Load(i), bias, page) && Placeable(image.Load(j), bias, page)
    ensures Hi(image.Load(i), bias, page) <= Lo(image.Load(j), bias, page)
  {
    hide Rem;
    SegmentBounds(image.Load(i), bias, page);
    SegmentBounds(image.Load(j), bias, page);
    UpBounds(MemEnd(image.Load(i)), page);
    DownIsGreatest(image.Load(j).vaddr, Up(MemEnd(image.Load(i)), page), page);
  }

  /** The span and the reservation are whole pages. */
  lemma ReservationPages(image: Image, page: u64)
    requires WellFormed(image, page) && VaSpan(image, page).Ok?
    ensures var (lo, hi) := VaSpan(image, page).value;
            Rem(lo, page) == 0 && lo <= hi && Rem(hi - lo, page) == 0
            && Rem(hi - lo + (SegAlign(image, page) - page), page) == 0
  {
    hide SegAlign, VaSpan, ValidLoad, IsPow2, AlignDown, Up;
    SpanCovers(image, page, 0);
    SegAlignFacts(image, page);
    WholePages(VaSpan(image, page).value.0, VaSpan(image, page).value.1, SegAlign(image, page), page);
  }

  lemma NeedIsPages(image: Image, page: u64)
    requires WellFormed(image, page) && ReservationLen(image, page).Ok?
    ensures VaSpan(image, page).Ok? && page > 0 && Rem(ReservationLen(image, page).value, page) == 0
  {
    hide Rem, IsPow2, ValidLoad, SegAlign;
    ReservationPages(image, page);
    SegAlignFacts(image, page);
  }

  lemma WholePages(lo: int, hi: int, a: int, page: int)
    requires page > 0 && Rem(lo, page) == 0 && Rem(hi, page) == 0 && Rem(a, page) == 0
    ensures Rem(hi - lo, page) == 0 && Rem(hi - lo + (a - page), page) == 0
  {
    hide Rem;
    MinusMultiple(hi, lo, page);
    MinusMultiple(a, page, page) by { RemUnique(page, page, 1, 0); }
    ModPlus(hi - lo, a - page, page);
  }

  lemma ReservationAligned(image: Image, page: u64, placement: Placement)
    requires PlanPre(image, page, placement) && PlanOf(image, page, placement).Ok?
    ensures var plan := PlanOf(image, page, placement).value;
            Rem(plan.reserveAddr, page) == 0 && Rem(plan.reserveLen, page) == 0
            && plan.reserveAddr + plan.reserveLen < U64_LIMIT
            && plan.reserveAddr <= plan.base <= plan.end <= plan.reserveAddr + plan.reserveLen
  {
    BiasFacts(image, page, placement);
    ReservationPages(image, page);
    hide SegAlign, VaSpan, WellFormed, Bias, IsPow2;
  }

  /** Validation makes planning safe: for any accepted image and any reservation of the right size,
      the plan stays inside 64 bits and inside the reservation, and its segments are disjoint. */
  lemma PlanIsSound(image: Image, page: u64, placement: Placement)
    requires PlanPre(image, page, placement) && PlanOf(image, page, placement).Ok?
    ensures Sound(image, page, PlanOf(image, page, placement).value)
  {
    ReservationAligned(image, page, placement);
    var plan := PlanOf(image, page, placement).value;
    forall k | 0 <= k < |image.loads|
      ensures Placeable(image.Load(k), plan.bias, page)
      ensures plan.base <= Lo(image.Load(k), plan.bias, page) && Hi(image.Load(k), plan.bias, page) <= plan.end
    {
      SegmentsInSpan(image, page, placement, k);
    }
    forall i, j | 0 <= i < j < |image.loads|
      ensures Hi(image.Load(i), plan.bias, page) <= Lo(image.Load(j), plan.bias, page)
    {
      SegmentsApart(image, page, plan.bias, i, j);
    }
  }

  /** A segment that owns any page has exactly `[Lo, Hi)` as its `range()`; one that owns none has
      no piece at all and an empty range at zero. */
  lemma RangeOf(i: nat, ph: Phdr, bias: u64, page: u64)
    requires Placeable(ph, bias, page)
    ensures Lo(ph, bias, page) <= Hi(ph, bias, page)
    ensures var seg := SegmentAt(i, ph, bias, page);
            if Lo(ph, bias, page) < Hi(ph, bias, page)
            then seg.Range() == (Lo(ph, bias, page), Hi(ph, bias, page))
            else seg.Range() == (0, 0) && seg.file.None? && seg.zero.None? && seg.anon.None?
  {
    hide Rem;
    SegmentBounds(ph, bias, page);
  }

  // --------------------------------------------------- translation invariance

  function ShiftFile(f: Option<FileMap>, d: int): Option<FileMap>
    requires f.Some? ==> 0 <= f.value.addr + d < U64_LIMIT
  {
    if f.None? then None else Some(FileMap(f.value.addr + d, f.value.len, f.value.off))
  }

  function ShiftAnon(a: Option<AnonMap>, d: int): Option<AnonMap>
    requires a.Some? ==> 0 <= a.value.addr + d < U64_LIMIT
  {
    if a.None? then None else Some(AnonMap(a.value.addr + d, a.value.len))
  }

  /** `t` is `s` moved by `d`: same lengths, file offsets, protections and write window. */
  predicate Shifted(s: SegmentPlan, t: SegmentPlan, d: int)
  {
    (s.file.Some? ==> 0 <= s.file.value.addr + d < U64_LIMIT)
    && (s.zero.Some? ==> 0 <= s.zero.value.addr + d < U64_LIMIT)
    && (s.anon.Some? ==> 0 <= s.anon.value.addr + d < U64_LIMIT)
    && t == SegmentPlan(s.idx, ShiftFile(s.file, d), ShiftAnon(s.zero, d), ShiftAnon(s.anon, d), s.prot, s.window)
  }

  lemma BoundsShift(ph: Phdr, b0: int, b1: int, page: u64)
    requires page > 0 && Rem(b0, page) == 0 && Rem(b1, page) == 0
    ensures Lo(ph, b1, page) == Lo(ph, b0, page) + (b1 - b0)
    ensures FileHi(ph, b1, page) == FileHi(ph, b0, page) + (b1 - b0)
    ensures Hi(ph, b1, page) == Hi(ph, b0, page) + (b1 - b0)
  {
    hide Rem;
    MinusMultiple(b1, b0, page);
    AddMultiple(ph.vaddr + b0, b1 - b0, page);
    AddMultiple(ph.vaddr + b0 + ph.filesz, b1 - b0, page);
    AddMultiple(ph.vaddr + b0 + ph.memsz, b1 - b0, page);
    assert ph.vaddr + b0 + ph.filesz + (b1 - b0) == ph.vaddr + b1 + ph.filesz;
    assert ph.vaddr + b0 + ph.memsz + (b1 - b0) == ph.vaddr + b1 + ph.memsz;
  }

  lemma SegmentShifts(i: nat, ph: Phdr, b0: u64, b1: u64, page: u64)
    requires Placeable(ph, b0, page) && Placeable(ph, b1, page)
    ensures Shifted(SegmentAt(i, ph, b0, page), SegmentAt(i, ph, b1, page), b1 - b0)
  {
    hide Rem;
    BoundsShift(ph, b0, b1, page);
    assert 0 <= Lo(ph, b1, page) && Hi(ph, b1, page) < U64_LIMIT && FileHi(ph, b1, page) <= Hi(ph, b1, page)
           && Lo(ph, b1, page) <= FileHi(ph, b1, page) by {
      SegmentBounds(ph, b1, page);
    }
  }

  lemma PlanFields(image: Image, page: u64, placement: Placement, plan: LoadPlan)
    requires PlanPre(image, page, placement) && PlanOf(image, page, placement) == Ok(plan)
    ensures VaSpan(image, page).Ok? && Bias(image, page, placement) == Ok(plan.bias)
    ensures Rem(plan.bias, page) == 0 && plan.align == SegAlign(image, page)
    ensures plan.base == VaSpan(image, page).value.0 + plan.bias && plan.end == VaSpan(image, page).value.1 + plan.bias
    ensures plan.entry == image.ehdr.entry + plan.bias
    ensures placement.At? ==> plan.reserveAddr == placement.raw && Ok(plan.reserveLen) == ReservationLen(image, page)
    ensures placement.Fixed? ==> plan.bias == 0 && plan.reserveAddr == VaSpan(image, page).value.0
                                 && plan.reserveLen == VaSpan(image, page).value.1 - plan.reserveAddr
  {
    BiasFacts(image, page, placement);
  }

  /** Translation invariance: two successful plans of one image differ by one shift of addresses. */
  lemma PlansDifferByAShift(image: Image, page: u64, p0: Placement, p1: Placement, a: LoadPlan, b: LoadPlan)
    requires PlanPre(image, page, p0) && PlanOf(image, page, p0) == Ok(a)
    requires PlanPre(image, page, p1) && PlanOf(image, page, p1) == Ok(b)
    ensures Rem(b.bias - a.bias, page) == 0
    ensures b.base - a.base == b.end - a.end == b.entry - a.entry == b.bias - a.bias
    ensures a.align == b.align && |a.segments| == |b.segments|
    ensures forall k :: 0 <= k < |a.segments| ==> Shifted(a.segments[k], b.segments[k], b.bias - a.bias)
  {
    hide PlanOf, PlanPre, Sound, VaSpan, Bias, SegAlign, ReservationLen, Shifted, WellFormed;
    PlanFields(image, page, p0, a);
    PlanFields(image, page, p1, b);
    PlanIsSound(image, page, p0);
    PlanIsSound(image, page, p1);
    SoundPage(image, page, a);
    MinusMultiple(b.bias, a.bias, page);
    SegmentsShift(image, page, a, b);
  }

  lemma SegmentsShift(image: Image, page: u64, a: LoadPlan, b: LoadPlan)
    requires Sound(image, page, a) && Sound(image, page, b)
    ensures |a.segments| == |b.segments|
    ensures forall k :: 0 <= k < |a.segments| ==> Shifted(a.segments[k], b.segments[k], b.bias - a.bias)
  {
    hide Rem;
    forall k | 0 <= k < |a.segments| ensures Shifted(a.segments[k], b.segments[k], b.bias - a.bias) {
      SegmentShifts(image.loads[k], image.Load(k), a.bias, b.bias, page);
    }
  }

  // ------------------------------------------------ the base and its alignment

  /** `x` is a page boundary that suits every load: a multiple of what the load asks for, or of 2 MiB when
      it asks for more than that. */
  predicate SuitsAll(image: Image, page: u64, x: int)
    requires page > 0 && InTable(image.phdrs, image.loads)
  {
    Rem(x, page) == 0 && forall k :: 0 <= k < |image.loads| ==> Suits(image.Load(k).align, x)
  }

  predicate Suits(align: u64, x: int)
  {
    (0 < align <= 0x20_0000 ==> Rem(x, align) == 0) && (align > 0x20_0000 ==> Rem(x, 0x20_0000) == 0)
  }

  lemma SuitsOne(align: u64, a: int, x: int)
    requires IsPow2(a) && Rem(x, a) == 0 && (align == 0 || IsPow2(align)) && Min(align, MAX_SEG_ALIGN) <= a
    ensures Suits(align, x)
  {
    hide Rem, IsPow2;
    MaxSegAlignIsPow2();
    if align > 0 {
      var c := Min(align, MAX_SEG_ALIGN);
      Pow2Divides(c, a);
      DividesTrans(x, a, c);
    }
  }

  /** The multiples of the chosen alignment are exactly the addresses that suit every load. */
  lemma SuitsExactly(image: Image, page: u64, x: int)
    requires WellFormed(image, page) && page > 0
    ensures SegAlign(image, page) > 0
    ensures SuitsAll(image, page, x) <==> Rem(x, SegAlign(image, page)) == 0
  {
    hide Rem, IsPow2, Suits, MaxAlign;
    var a, m := SegAlign(image, page), MaxAlign(image, page, |image.loads|);
    SegAlignFacts(image, page);
    MaxAlignIsStrongest(image, page, |image.loads|);
    if Rem(x, a) == 0 {
      DividesTrans(x, a, page);
      forall k | 0 <= k < |image.loads| ensures Suits(image.Load(k).align, x) { SuitsOne(image.Load(k).align, a, x); }
    }
    if SuitsAll(image, page, x) && a != page {
      var k :| 0 <= k < |image.loads| && image.Load(k).align == m;
      SuitsMeans(m, x);
    }
  }

  lemma SuitsMeans(align: u64, x: int)
    requires align > 0 && Suits(align, x)
    ensures Rem(x, Min(align, MAX_SEG_ALIGN)) == 0
  {
  }

  /** The alignment is the least positive step that suits every load. */
  lemma LeastStep(image: Image, page: u64, x: int)
    requires WellFormed(image, page) && page > 0
    ensures SegAlign(image, page) > 0 && SuitsAll(image, page, SegAlign(image, page))
    ensures x > 0 && SuitsAll(image, page, x) ==> SegAlign(image, page) <= x
  {
    hide Rem, IsPow2, SuitsAll, SegAlign;
    var a := SegAlign(image, page);
    SegAlignFacts(image, page);
    RemUnique(a, a, 1, 0);
    RemUnique(0, a, 0, 0);
    SuitsExactly(image, page, a);
    SuitsExactly(image, page, x);
    if x > 0 && SuitsAll(image, page, x) { MultipleGap(0, x, a); }
  }

  /** `base` is the first address at or above `raw` that suits every load. */
  ghost predicate LeastSuited(image: Image, page: u64, raw: int, base: int)
    requires page > 0 && InTable(image.phdrs, image.loads)
  {
    raw <= base && SuitsAll(image, page, base) && forall x :: raw <= x && SuitsAll(image, page, x) ==> base <= x
  }

  /** Where a plan puts the image in its reservation: at the first address that suits every load; and the
      reservation is exactly the span and one least step, less a page. */
  lemma BaseIsLeast(image: Image, page: u64, raw: u64, plan: LoadPlan)
    requires PlanPre(image, page, At(raw)) && PlanOf(image, page, At(raw)) == Ok(plan)
    ensures page > 0 && LeastSuited(image, page, raw, plan.base) && LeastSuited(image, page, 1, plan.align)
    ensures plan.reserveAddr == raw && plan.reserveLen == (plan.end - plan.base) + (plan.align - page)
  {
    hide Rem, IsPow2, SuitsAll, SegAlign, VaSpan, ValidLoad, PlanOf;
    var a := SegAlign(image, page);
    SegAlignFacts(image, page);
    PlanFields(image, page, At(raw), plan);
    AlignedBaseExists(image, page, raw);
    UpBounds(raw, a);
    SuitsExactly(image, page, plan.base);
    forall x | raw <= x && SuitsAll(image, page, x) ensures plan.base <= x {
      SuitsExactly(image, page, x);
      UpIsLeast(raw, x, a);
    }
    LeastStep(image, page, a);
    forall x | 1 <= x && SuitsAll(image, page, x) ensures a <= x { LeastStep(image, page, x); }
  }

  /** Exactly when an image has a reservation length, and which one: its page-rounded span and the least
      step `a` that suits every load, less a page, inside 64 bits. */
  lemma ReservationExactly(image: Image, page: u64, a: int)
    requires WellFormed(image, page) && page > 0 && LeastSuited(image, page, 1, a)
    ensures VaSpan(image, page).Ok? <==> MemEnd(image.Load(|image.loads| - 1)) + (page - 1) < 0x1_0000_0000_0000_0000
    ensures var need := Up(MemEnd(image.Load(|image.loads| - 1)), page) - AlignDown(image.Load(0).vaddr, page) + (a - page);
            (ReservationLen(image, page).Ok? <==>
               MemEnd(image.Load(|image.loads| - 1)) + (page - 1) < 0x1_0000_0000_0000_0000 && need < 0x1_0000_0000_0000_0000)
            && (ReservationLen(image, page).Ok? ==> ReservationLen(image, page).value == need)
  {
    hide Rem, IsPow2, SuitsAll, SegAlign, ValidLoad, Up, AlignDown;
    LeastStep(image, page, a);
    assert a == SegAlign(image, page);
  }

  /** The guard of `plan`, for the address `base` it would use: below the image's first page, or an entry
      point moved out of 64 bits. */
  lemma PlanRefusesExactly(image: Image, page: u64, raw: int, base: int)
    requires WellFormed(image, page) && VaSpan(image, page).Ok? && page > 0 && LeastSuited(image, page, raw, base)
    ensures var lo := AlignDown(image.Load(0).vaddr, page);
            PlanRefuses(image, page, raw) <==> base < lo || image.ehdr.entry + (base - lo) >= 0x1_0000_0000_0000_0000
  {
    hide Rem, IsPow2, SuitsAll, SegAlign, ValidLoad, Up, AlignDown;
    var a := SegAlign(image, page);
    SegAlignFacts(image, page);
    SuitsExactly(image, page, base);
    SuitsExactly(image, page, Up(raw, a));
    UpBounds(raw, a);
    UpIsLeast(raw, base, a);
  }

  /** The span of a plan is tight: it begins in the first load's first page and ends with the last
      load's last one. */
  lemma SpanIsTight(image: Image, page: u64, placement: Placement, plan: LoadPlan)
    requires PlanPre(image, page, placement) && PlanOf(image, page, placement) == Ok(plan)
    ensures page > 0 && image.loads != [] && Rem(plan.base, page) == 0 && Rem(plan.end, page) == 0
    ensures plan.base <= image.Load(0).vaddr + plan.bias < plan.base + page
    ensures plan.end - page < MemEnd(image.Load(|image.loads| - 1)) + plan.bias <= plan.end
    ensures placement.Fixed? ==> plan.bias == 0 && plan.reserveAddr == plan.base && plan.reserveLen == plan.end - plan.base
  {
    hide Rem, IsPow2, SegAlign, PlanOf, ValidLoad;
    PlanFields(image, page, placement, plan);
    SpanCovers(image, page, 0);
    AlignBounds(image.Load(0).vaddr, page);
    UpBounds(MemEnd(image.Load(|image.loads| - 1)), page);
    ModPlus(VaSpan(image, page).value.0, plan.bias, page);
    ModPlus(VaSpan(image, page).value.1, plan.bias, page);
  }

  // ----------------------------------------------------------------- AT_PHDR

  /** The PT_LOAD fallback: the first load whose file part covers the table. */
  function PhdrInLoads(image: Image, bias: u64, k: nat): Option<u64>
    requires InTable(image.phdrs, image.loads) && k <= |image.loads|
    decreases |image.loads| - k
  {
    if k == |image.loads| then None
    else
      var l, phoff := image.Load(k), image.ehdr.phoff;
      if phoff < l.offset then PhdrInLoads(image, bias, k + 1)
      else if l.offset + l.filesz >= U64_LIMIT then None
      else if phoff >= l.offset + l.filesz then PhdrInLoads(image, bias, k + 1)
      else if phoff - l.offset + l.vaddr + bias >= U64_LIMIT then None
      else Some(phoff - l.offset + l.vaddr + bias)
  }

  predicate Covers(plan: LoadPlan, addr: int) { plan.base <= addr < plan.end }

  /** PT_PHDR has a biased address and it falls inside the image. */
  predicate PhdrFromSegment(image: Image, plan: LoadPlan)
  {
    image.phdrSeg.Some? && !PhdrOverflows(image, plan.bias) && Covers(plan, image.phdrSeg.value.vaddr + plan.bias)
  }

  predicate PhdrOverflows(image: Image, bias: u64)
  {
    image.phdrSeg.Some? && image.phdrSeg.value.vaddr + bias >= U64_LIMIT
  }

  /** `phdr_addr`: PT_PHDR when it falls inside the image, otherwise through the loads. */
  function PhdrAddr(image: Image, plan: LoadPlan): Option<u64>
    requires InTable(image.phdrs, image.loads)
  {
    if PhdrOverflows(image, plan.bias) then None
    else if PhdrFromSegment(image, plan) then Some(image.phdrSeg.value.vaddr + plan.bias)
    else PhdrInLoads(image, plan.bias, 0)
  }

  /** The fallback answers through the first load whose file part holds the table's first byte. */
  lemma {:induction false} PhdrInLoadsSound(image: Image, page: u64, bias: u64, k: nat) returns (m: nat)
    requires WellFormed(image, page) && k <= |image.loads|
    requires PhdrInLoads(image, bias, k).Some?
    ensures m < |image.loads|
    ensures var l := image.Load(m);
            l.offset <= image.ehdr.phoff < l.offset + l.filesz
            && PhdrInLoads(image, bias, k).value == image.ehdr.phoff - l.offset + l.vaddr + bias
    ensures forall j :: k <= j < m ==> !HoldsTable(image, j)
    decreases |image.loads| - k
  {
    var l := image.Load(k);
    if l.offset <= image.ehdr.phoff < l.offset + l.filesz {
      m := k;
    } else {
      m := PhdrInLoadsSound(image, page, bias, k + 1);
    }
  }

  /** The file part of load `k` holds the first byte of the table. */
  predicate HoldsTable(image: Image, k: nat)
    requires InTable(image.phdrs, image.loads) && k < |image.loads|
  {
    image.Load(k).offset <= image.ehdr.phoff < image.Load(k).offset + image.Load(k).filesz
  }

  predicate TableInLoads(image: Image)
    requires InTable(image.phdrs, image.loads)
  {
    exists k :: 0 <= k < |image.loads| && HoldsTable(image, k)
  }

  lemma {:induction false} PhdrInLoadsExactly(image: Image, page: u64, bias: u64, k: nat)
    requires WellFormed(image, page) && k <= |image.loads|
    requires forall j :: 0 <= j < |image.loads| ==> Placeable(image.Load(j), bias, page)
    ensures PhdrInLoads(image, bias, k).Some? <==> exists j :: k <= j < |image.loads| && HoldsTable(image, j)
    decreases |image.loads| - k
  {
    hide ValidLoad, Up, IsPow2, Placeable;
    if k < |image.loads| {
      PhdrInLoadsExactly(image, page, bias, k + 1);
      FallbackFits(image.Load(k), page, bias, image.ehdr.phoff);
      if HoldsTable(image, k) {
        assert PhdrInLoads(image, bias, k).Some?;
      }
    }
  }

  /** The fallback's checked additions cannot fail on a placed load. */
  lemma FallbackFits(l: Phdr, page: u64, bias: u64, phoff: u64)
    requires Placeable(l, bias, page)
    ensures l.offset + l.filesz < U64_LIMIT
    ensures l.offset <= phoff < l.offset + l.filesz ==> phoff - l.offset + l.vaddr + bias < U64_LIMIT
  {
    SegmentBounds(l, bias, page);
  }

  /** Exactly when there is no AT_PHDR: PT_PHDR overflows, or neither it nor any load has the table. */
  lemma PhdrMissingExactly(image: Image, page: u64, plan: LoadPlan)
    requires Sound(image, page, plan)
    ensures PhdrAddr(image, plan).None? <==>
            PhdrOverflows(image, plan.bias) || (!PhdrFromSegment(image, plan) && !TableInLoads(image))
  {
    hide WellFormed, Placeable, Lo, Hi, SegmentAt;
    PhdrInLoadsExactly(image, page, plan.bias, 0);
  }

  /** PT_PHDR is trusted exactly when its link address lies between the first load's first page and the
      last load's last. */
  lemma PhdrTakenExactly(image: Image, page: u64, placement: Placement, plan: LoadPlan)
    requires PlanPre(image, page, placement) && PlanOf(image, page, placement) == Ok(plan)
    ensures page > 0 && image.loads != []
    ensures PhdrFromSegment(image, plan) <==>
            image.phdrSeg.Some?
            && AlignDown(image.Load(0).vaddr, page) <= image.phdrSeg.value.vaddr
            && image.phdrSeg.value.vaddr < Up(MemEnd(image.Load(|image.loads| - 1)), page)
  {
    hide Rem, SegAlign, PlanOf, ValidLoad, Up, AlignDown;
    PlanFields(image, page, placement, plan);
  }

  /** The link address `v` belongs to a page of some load. */
  predicate InLoadPages(image: Image, page: u64, v: int)
    requires page > 0 && InTable(image.phdrs, image.loads)
  {
    exists k :: 0 <= k < |image.loads| && LinkPages(image.Load(k), page, v)
  }

  predicate LinkPages(ph: Phdr, page: u64, v: int)
    requires page > 0
  {
    AlignDown(ph.vaddr, page) <= v < Up(MemEnd(ph), page)
  }

  /** The address `a` belongs to a page of some segment of the plan. */
  predicate InSegmentPages(image: Image, page: u64, plan: LoadPlan, a: int)
    requires page > 0 && InTable(image.phdrs, image.loads)
  {
    exists k :: 0 <= k < |image.loads| && OwnPages(image.Load(k), plan.bias, page, a)
  }

  predicate OwnPages(ph: Phdr, bias: int, page: u64, a: int)
    requires page > 0
  {
    Lo(ph, bias, page) <= a < Hi(ph, bias, page)
  }

  lemma PagesMove(ph: Phdr, bias: u64, page: u64, v: int)
    requires Placeable(ph, bias, page)
    ensures page > 0 && (LinkPages(ph, page, v) <==> OwnPages(ph, bias, page, v + bias))
  {
    SegmentBounds(ph, bias, page);
  }

  lemma SoundPage(image: Image, page: u64, plan: LoadPlan)
    requires Sound(image, page, plan)
    ensures page > 0 && InTable(image.phdrs, image.loads)
    ensures forall k :: 0 <= k < |image.loads| ==> Placeable(image.Load(k), plan.bias, page)
                                                   && plan.base <= Lo(image.Load(k), plan.bias, page)
                                                   && Hi(image.Load(k), plan.bias, page) <= plan.end
  {
  }

  /** PT_PHDR and the loads: an address in the pages of a load is always answered, and the answer taken
      from PT_PHDR lies in the pages of a load exactly when its link address does. */
  lemma PhdrSegmentExactly(image: Image, page: u64, plan: LoadPlan)
    requires Sound(image, page, plan) && page > 0 && InTable(image.phdrs, image.loads) && image.phdrSeg.Some?
    ensures var v := image.phdrSeg.value.vaddr;
            InSegmentPages(image, page, plan, v + plan.bias) <==> InLoadPages(image, page, v)
    ensures InLoadPages(image, page, image.phdrSeg.value.vaddr) ==> PhdrFromSegment(image, plan)
    ensures PhdrFromSegment(image, plan) ==> PhdrAddr(image, plan) == Some(image.phdrSeg.value.vaddr + plan.bias)
  {
    hide Sound, Placeable, LinkPages, Lo, Hi;
    SoundPage(image, page, plan);
    var v := image.phdrSeg.value.vaddr;
    forall k | 0 <= k < |image.loads|
      ensures LinkPages(image.Load(k), page, v) <==> OwnPages(image.Load(k), plan.bias, page, v + plan.bias)
    {
      PagesMove(image.Load(k), plan.bias, page, v);
    }
  }
}
