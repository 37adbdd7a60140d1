/** When a failing load gives everything back: the condition on the image that decides it, and an
    accepted file that shows it is needed. */
module Rollback {
  import opened Words
  import opened Elf
  import opened ElfWriter
  import opened Layout
  import opened AddressSpace
  import opened MappedOps
  import opened CopiedOps
  import opened Loader
  import opened CopyLoader
  import opened LoadTheorems
  import opened Program

  /** What a caller can check before the load: the image is not position independent, has no
      reservation to lose, or can be planned wherever its path may put it. */
  predicate SafeToFail(image: Image, page: u64, copied: bool)
    requires WellFormed(image, page)
  {
    image.ehdr.etype != ET_DYN || ReservationLen(image, page).Err? || ReservationLen(image, page).value == 0
    || PlansOn(image, page, copied)
  }

  lemma SafeLeavesNothing(s: Space, ops: seq<Op>, image: Image, page: u64, copied: bool)
    requires WellFormed(image, page) && SafeToFail(image, page, copied)
    requires FailedLoad(s, ops, image, page, copied) && !WasRefused(ops)
    ensures LeavesNothing(ops, image, page)
  {
    hide WellFormed, PlansOn, PlanRefuses, Aborted, AlignedPlace;
    if ops != [] && LeakGuard(image, page, ops[0].addr) && PlansOn(image, page, copied) {
      PlansOnSuffices(image, page, copied, ops[0]);
    }
  }

  /** How a path takes the reservation of an image at `raw`. */
  function TakeOp(raw: int, need: nat, copied: bool): Op
  {
    if copied then Alloc(raw, seq(need, _ => 0)) else Reserve(raw, need)
  }

  lemma TakeIsLeak(s: Space, raw: int, image: Image, page: u64, copied: bool)
    requires WellFormed(image, page) && LeakGuard(image, page, raw) && (copied ==> AlignedPlace(image, page, raw))
    requires ReservationLen(image, page).Ok? && Vacant(s, raw, raw + ReservationLen(image, page).value)
    ensures PlanLeak(s, [TakeOp(raw, ReservationLen(image, page).value, copied)], image, page, copied)
    ensures !WasRefused([TakeOp(raw, ReservationLen(image, page).value, copied)])
  {
    hide WellFormed, LeakGuard, AlignedPlace, ReservationLen;
    LeakIsPie(image, page, raw);
  }

  lemma LeakIsPie(image: Image, page: u64, raw: int)
    requires LeakGuard(image, page, raw)
    ensures image.ehdr.etype == ET_DYN
  {
  }

  /** An image that is not safe loses its reservation at some place its path may be given. */
  lemma UnsafeLeaks(image: Image, page: u64, copied: bool) returns (raw: u64, ops: seq<Op>)
    requires WellFormed(image, page) && !SafeToFail(image, page, copied)
    ensures ReservationLen(image, page).Ok? && ops == [TakeOp(raw, ReservationLen(image, page).value, copied)]
    ensures PlanLeak(map[], ops, image, page, copied) && FailedLoad(map[], ops, image, page, copied) && !WasRefused(ops)
    ensures Run(map[], ops) != map[]
  {
    hide WellFormed, PlansEverywhere, PlansAligned, PlanRefuses, ReservationLen, AlignedPlace, TakeOp;
    if copied { raw := AlignedRefusedSomewhere(image, page); } else { raw := RefusedSomewhere(image, page); }
    ops := [TakeOp(raw, ReservationLen(image, page).value, copied)];
    TakeIsLeak(map[], raw, image, page, copied);
    LeakIsLasting(map[], ops, image, page, copied);
  }

  lemma LeakIsLasting(s: Space, ops: seq<Op>, image: Image, page: u64, copied: bool)
    requires PlanLeak(s, ops, image, page, copied) && ReservationLen(image, page).value > 0
    ensures FailedLoad(s, ops, image, page, copied) && !LeavesNothing(ops, image, page) && Run(s, ops) != s
  {
    hide WellFormed, PlanRefuses, AlignedPlace, PlanPre;
    var _ := FailureLeaves(s, ops, image, page, copied);
  }

  /** On each path: every failing load whose release goes through restores the address space, exactly
      when the image is safe to fail there. */
  lemma RestoresAlwaysExactly(image: Image, page: u64, copied: bool)
    requires WellFormed(image, page)
    ensures (forall s: Space, ops: seq<Op> :: FailedLoad(s, ops, image, page, copied) && !WasRefused(ops) ==> Run(s, ops) == s)
            <==> SafeToFail(image, page, copied)
  {
    hide WellFormed, SafeToFail, FailedLoad, LeavesNothing;
    if SafeToFail(image, page, copied) {
      forall s: Space, ops: seq<Op> | FailedLoad(s, ops, image, page, copied) && !WasRefused(ops) ensures Run(s, ops) == s {
        SafeLeavesNothing(s, ops, image, page, copied);
        FailureRestores(s, ops, image, page, copied);
      }
    } else {
      var raw, ops := UnsafeLeaks(image, page, copied);
    }
  }

  // ---------------------------------------------------- program and interpreter

  /** No release of the run was refused. */
  ghost predicate Released(how: GivenUp, ops: seq<Op>)
  {
    match how
    case BeforeLoading => true
    case InMain(_) => !WasRefused(ops)
    case InInterp(_, main, _, second, _, released) => (released || main.onHeap) && !WasRefused(second)
  }

  /** The program can be planned at `plan` while the interpreter is given `raw`, apart from it, where its
      own plan fails. */
  ghost predicate PairLeaks(image: Image, tried: Image, page: u64, mainCopied: bool, triedCopied: bool, plan: LoadPlan, raw: int)
  {
    CanLoadAt(image, page, plan, mainCopied)
    && WellFormed(tried, page) && LeakGuard(tried, page, raw) && (triedCopied ==> AlignedPlace(tried, page, raw))
    && ReservationLen(tried, page).Ok? && ReservationLen(tried, page).value > 0
    && (plan.reserveLen == 0 || raw + ReservationLen(tried, page).value <= plan.reserveAddr || ReserveEnd(plan) <= raw)
  }

  /** A load of the image on its path may end with this plan. */
  ghost predicate CanLoadAt(image: Image, page: u64, plan: LoadPlan, copied: bool)
  {
    Planned(image, page, plan) && WellFormed(image, page)
    && if copied then image.ehdr.etype == ET_DYN && AlignedPlace(image, page, plan.reserveAddr) else plan.reserveLen > 0
  }

  /** No place for the program leaves the interpreter a place where it leaks. */
  ghost predicate PairSafe(image: Image, tried: Image, page: u64, mainCopied: bool, triedCopied: bool)
  {
    forall plan, raw :: !PairLeaks(image, tried, page, mainCopied, triedCopied, plan, raw)
  }

  /** The condition on the two files: the program is safe to fail, and if its interpreter is one that
      will be loaded, the pair is safe. */
  ghost predicate SafeProgram(fs: FileSystem, path: seq<byte>, page: u64, native: u16, mapping: bool, image: Image)
    requires Begins(fs, path, page, native, image)
  {
    WellFormed(image, page) && SafeToFail(image, page, Copies(fs, path, mapping))
    && (image.interp.Some? && (Copies(fs, path, mapping) ==> Readable(image, fs[path].src)) ==>
          var p := InterpPath(image, fs[path].src).value;
          forall tried :: IsInterp(fs, p, page, native, tried) ==>
                            PairSafe(image, tried, page, Copies(fs, path, mapping), Copies(fs, p, mapping)))
  }

  // ------------------------------------------- the pair condition in closed form

  /** The two reservations, with room to align each, fit into the address space side by side. */
  predicate FitTogether(image: Image, tried: Image, page: u64)
    requires WellFormed(image, page) && WellFormed(tried, page)
  {
    ReservationLen(image, page).Ok? && ReservationLen(tried, page).Ok?
    && ReservationLen(image, page).value + ReservationLen(tried, page).value
       + SegAlign(image, page) + SegAlign(tried, page) < U64_LIMIT
  }

  /** An image that is safe to fail leaks next to no other. */
  lemma SafePairs(image: Image, tried: Image, page: u64, mainCopied: bool, triedCopied: bool)
    requires WellFormed(tried, page) && SafeToFail(tried, page, triedCopied)
    ensures PairSafe(image, tried, page, mainCopied, triedCopied)
  {
    hide WellFormed, PlansOn, PlanRefuses, AlignedPlace, CanLoadAt;
    forall plan, raw ensures !PairLeaks(image, tried, page, mainCopied, triedCopied, plan, raw) {
      if PairLeaks(image, tried, page, mainCopied, triedCopied, plan, raw) {
        PlansOnSuffices(tried, page, triedCopied, TakeOp(raw, ReservationLen(tried, page).value, triedCopied));
      }
    }
  }

  /** An image that plans wherever its path puts it can be loaded at any aligned place with room. */
  lemma LoadableAt(image: Image, page: u64, raw: int, copied: bool) returns (plan: LoadPlan)
    requires WellFormed(image, page) && image.ehdr.etype == ET_DYN && ReservationLen(image, page).Ok?
    requires PlansOn(image, page, copied) && 0 <= raw && AlignedPlace(image, page, raw)
    requires 0 < ReservationLen(image, page).value && raw + ReservationLen(image, page).value < U64_LIMIT
    ensures CanLoadAt(image, page, plan, copied) && plan.reserveAddr == raw && plan.reserveLen == ReservationLen(image, page).value
  {
    hide WellFormed, PlansOn, AlignedPlace, PlanOf, ReservationLen, Sound, VaSpan, SegAlign, Rem;
    AlignedIsPaged(image, page, raw);
    assert PlanPre(image, page, At(raw));
    SpanExists(image, page);
    PlansOnSuffices(image, page, copied, TakeOp(raw, ReservationLen(image, page).value, copied));
    PlanFailsExactly(image, page, At(raw));
    plan := PlanOf(image, page, At(raw)).value;
    PlanIsSound(image, page, At(raw));
    PlanFields(image, page, At(raw), plan);
  }

  lemma SpanExists(image: Image, page: u64)
    requires WellFormed(image, page) && ReservationLen(image, page).Ok?
    ensures VaSpan(image, page).Ok?
  {
    hide WellFormed, SegAlign;
  }

  lemma AlignedIsPaged(image: Image, page: u64, raw: int)
    requires WellFormed(image, page) && AlignedPlace(image, page, raw)
    ensures page > 0 && Rem(raw, page) == 0
  {
    hide Rem, SegAlign, IsPow2, ValidLoad;
    SegAlignFacts(image, page);
    DividesTrans(raw, SegAlign(image, page), page);
  }

  /** The first aligned place at or above `n`. */
  lemma PlaceAbove(image: Image, page: u64, n: nat) returns (raw: int)
    requires WellFormed(image, page)
    ensures n <= raw < n + SegAlign(image, page) && AlignedPlace(image, page, raw)
    ensures AlignedPlace(image, page, 0)
  {
    hide Rem, SegAlign, IsPow2, ValidLoad;
    SegAlignFacts(image, page);
    raw := Up(n, SegAlign(image, page));
    UpBounds(n, SegAlign(image, page));
    RemUnique(0, SegAlign(image, page), 0, 0);
  }

  lemma UnsafePairs(image: Image, tried: Image, page: u64, mainCopied: bool, triedCopied: bool)
    requires WellFormed(image, page) && WellFormed(tried, page) && FitTogether(image, tried, page)
    requires image.ehdr.etype == ET_DYN && PlansOn(image, page, mainCopied) && ReservationLen(image, page).value > 0
    requires !SafeToFail(tried, page, triedCopied)
    ensures !PairSafe(image, tried, page, mainCopied, triedCopied)
  {
    hide WellFormed, PlansEverywhere, PlansAligned, PlanRefuses, AlignedPlace, CanLoadAt, ReservationLen, SegAlign;
    var raw;
    if triedCopied { raw := AlignedRefusedSomewhere(tried, page); } else { raw := RefusedSomewhere(tried, page); }
    var above := PlaceAbove(image, page, ReservationLen(tried, page).value);
    var plan := LoadableAt(image, page, if raw == 0 then above else 0, mainCopied);
    assert PairLeaks(image, tried, page, mainCopied, triedCopied, plan, raw);
  }

  /** The pair condition in closed form, for a position-independent program that plans everywhere and an
      interpreter beside which it fits: exactly that the interpreter is safe to fail too. */
  lemma PairSafeExactly(image: Image, tried: Image, page: u64, mainCopied: bool, triedCopied: bool)
    requires WellFormed(image, page) && WellFormed(tried, page) && FitTogether(image, tried, page)
    requires image.ehdr.etype == ET_DYN && PlansOn(image, page, mainCopied) && ReservationLen(image, page).value > 0
    ensures PairSafe(image, tried, page, mainCopied, triedCopied) <==> SafeToFail(tried, page, triedCopied)
  {
    hide WellFormed, PlansOn, SafeToFail, PairSafe, FitTogether;
    if SafeToFail(tried, page, triedCopied) {
      SafePairs(image, tried, page, mainCopied, triedCopied);
    } else {
      UnsafePairs(image, tried, page, mainCopied, triedCopied);
    }
  }

  /** So giving up on a position-independent program always leaves nothing exactly when program and
      interpreter, each on its own path, plan wherever they may be put. */
  lemma SafeProgramExactly(fs: FileSystem, path: seq<byte>, page: u64, native: u16, mapping: bool, image: Image, tried: Image)
    requires Begins(fs, path, page, native, image) && WellFormed(image, page) && WellFormed(tried, page)
    requires image.ehdr.etype == ET_DYN && image.interp.Some? && FitTogether(image, tried, page)
    requires ReservationLen(image, page).value > 0 && ReservationLen(tried, page).value > 0
    requires IsInterp(fs, InterpPath(image, fs[path].src).value, page, native, tried)
    requires Copies(fs, path, mapping) ==> Readable(image, fs[path].src)
    ensures SafeProgram(fs, path, page, native, mapping, image) <==>
            PlansOn(image, page, Copies(fs, path, mapping))
            && PlansOn(tried, page, Copies(fs, InterpPath(image, fs[path].src).value, mapping))
  {
    hide WellFormed, PlansOn, PairSafe, Accepts, ImageOf, InterpPath, Readable, ReservationLen, SegAlign;
    SpanExists(image, page);
    SpanExists(tried, page);
    var p := InterpPath(image, fs[path].src).value;
    forall other | IsInterp(fs, p, page, native, other) ensures other == tried {
      SameImage(fs, p, page, native, other, tried);
    }
    if PlansOn(image, page, Copies(fs, path, mapping)) {
      PairSafeExactly(image, tried, page, Copies(fs, path, mapping), Copies(fs, p, mapping));
    }
  }

  lemma NestedLeaks(s: Space, t: Space, plan: LoadPlan, second: seq<Op>, image: Image, tried: Image, page: u64,
                    mainCopied: bool, triedCopied: bool)
    requires CanLoadAt(image, page, plan, mainCopied) && Held(t, plan.reserveAddr, ReserveEnd(plan))
    requires FailedLoad(t, second, tried, page, triedCopied) && !WasRefused(second) && !LeavesNothing(second, tried, page)
    ensures PairLeaks(image, tried, page, mainCopied, triedCopied, plan, second[0].addr)
  {
    hide WellFormed, Planned, PlanPre, PlanRefuses, AlignedPlace;
    var lo, n := second[0].addr, second[0].Len();
    var a := if lo < plan.reserveAddr then plan.reserveAddr else lo;
    assert plan.reserveAddr <= a < ReserveEnd(plan) ==> a in t;
    assert lo <= a < lo + n ==> a !in t;
  }

  lemma LoadedWhere(s: Space, ops: seq<Op>, image: Image, page: u64, l: Loaded, file: Opened)
    requires SuccessfulLoad(s, ops, image, page, l, file.src, file.fd, file.src.bytes)
    ensures CanLoadAt(image, page, l.plan, l.onHeap) && (l.onHeap ==> Readable(image, file.src))
  {
    hide Planned, AlignedPlace, CopyOps, ProtOps, FillOps, WellFormed, Sound, Readable;
    LoadContained(s, ops, image, page, l, file.src, file.fd, file.src.bytes);
    PlannedWellFormed(image, page, l.plan);
  }

  lemma SameImage(fs: FileSystem, p: seq<byte>, page: u64, native: u16, a: Image, b: Image)
    requires IsImageOf(fs, p, page, native, a) && IsImageOf(fs, p, page, native, b)
    ensures a == b
  {
    hide Accepts, ImageOf;
  }

  lemma EmptyLeavesNothing(image: Image, page: u64)
    ensures LeavesNothing([], image, page)
  {
  }

  /** A program that is safe is given up without a trace. */
  lemma SafeProgramRestores(how: GivenUp, s: Space, ops: seq<Op>, fs: FileSystem, path: seq<byte>, page: u64, native: u16,
                            mapping: bool, image: Image)
    requires GaveUp(how, s, ops, fs, path, page, native, mapping) && Released(how, ops)
    requires Begins(fs, path, page, native, image) && SafeProgram(fs, path, page, native, mapping, image)
    ensures Run(s, ops) == s
  {
    hide WellFormed, SafeToFail, FailedLoad, LeavesNothing, Accepts, ImageOf, SuccessfulLoad, PairLeaks, InterpPath, ReleaseOp, CanLoadAt, Readable;
    ProgramRestoresExactly(how, s, ops, fs, path, page, native, mapping);
    match how
    case BeforeLoading =>
    case InMain(main) =>
      SameImage(fs, path, page, native, main, image);
      SafeLeavesNothing(s, ops, image, page, Copies(fs, path, mapping));
    case InInterp(main, l, first, second, tried, _) =>
      SameImage(fs, path, page, native, main, image);
      if second == [] {
        EmptyLeavesNothing(tried, page);
      } else if !LeavesNothing(second, tried, page) {
        var p := InterpPath(image, fs[path].src).value;
        LoadedWhere(s, first, image, page, l, fs[path]);
        MainLoaded(s, first, image, page, l, fs[path]);
        NestedLeaks(s, Run(s, first), l.plan, second, image, tried, page, Copies(fs, path, mapping), Copies(fs, p, mapping));
      }
  }

  /** A successful load with a given plan, on an empty address space. */
  lemma LoadAt(image: Image, page: u64, plan: LoadPlan, copied: bool, file: Opened) returns (first: seq<Op>)
    requires CanLoadAt(image, page, plan, copied) && (if copied then Readable(image, file.src) else file.fd.Some?)
    ensures SuccessfulLoad(map[], first, image, page, Loaded(plan, copied), file.src, file.fd, file.src.bytes)
  {
    hide PlanOf, PlanPre, AlignedPlace, Readable, CopyOps, ProtOps, FillOps, Sound;
    CopyInside(image, page, plan, file.src.bytes);
    if copied {
      var junk: seq<byte>, granted := seq(plan.reserveLen, _ => 0), seq(|plan.segments|, _ => true);
      first := [Alloc(plan.reserveAddr, junk)] + (CopyOps(image, page, plan, file.src.bytes) + ProtOps(plan, granted));
      assert CopiedLoad(map[], first, image, page, plan, file.src.bytes, junk, granted);
    } else {
      first := [Reserve(plan.reserveAddr, plan.reserveLen)] + FillOps(image, plan, file.fd.value, file.src.bytes);
    }
  }

  /** After a load on an empty address space everything outside its reservation is free. */
  lemma FreeElsewhere(first: seq<Op>, image: Image, page: u64, l: Loaded, file: Opened, lo: int, n: nat)
    requires SuccessfulLoad(map[], first, image, page, l, file.src, file.fd, file.src.bytes)
    requires l.plan.reserveLen == 0 || lo + n <= l.plan.reserveAddr || ReserveEnd(l.plan) <= lo
    ensures Vacant(Run(map[], first), lo, lo + n)
  {
    hide SuccessfulLoad, Run, Contained;
    LoadContained(map[], first, image, page, l, file.src, file.fd, file.src.bytes);
    ContainedFrame(map[], first, l.plan.reserveAddr, ReserveEnd(l.plan), |first|);
    assert first[..|first|] == first;
    forall a | lo <= a < lo + n ensures a !in Run(map[], first) {
      assert Look(Run(map[], first), a) == Look(map[], a);
    }
  }

  /** Where the pair leaks, a run of `load_program` does. */
  lemma PairLeaksRun(fs: FileSystem, path: seq<byte>, page: u64, native: u16, mapping: bool, image: Image, tried: Image,
                     plan: LoadPlan, raw: int) returns (how: GivenUp, ops: seq<Op>)
    requires Begins(fs, path, page, native, image) && image.interp.Some?
    requires Copies(fs, path, mapping) ==> Readable(image, fs[path].src)
    requires IsInterp(fs, InterpPath(image, fs[path].src).value, page, native, tried)
    requires PairLeaks(image, tried, page, Copies(fs, path, mapping),
                       Copies(fs, InterpPath(image, fs[path].src).value, mapping), plan, raw)
    ensures GaveUp(how, map[], ops, fs, path, page, native, mapping) && Released(how, ops) && Run(map[], ops) != map[]
  {
    hide WellFormed, Accepts, ImageOf, InterpPath, SuccessfulLoad, FailedLoad, LeavesNothing, LeakGuard, AlignedPlace;
    hide CanLoadAt, PlanLeak, TakeOp, ReleaseOp, Run, Readable, ReservationLen;
    var copied, p := Copies(fs, path, mapping), InterpPath(image, fs[path].src).value;
    var main, need := Loaded(plan, copied), ReservationLen(tried, page).value;
    var first := LoadAt(image, page, plan, copied, fs[path]);
    var second := [TakeOp(raw, need, Copies(fs, p, mapping))];
    FreeElsewhere(first, image, page, main, fs[path], raw, need);
    TakeIsLeak(Run(map[], first), raw, tried, page, Copies(fs, p, mapping));
    LeakIsLasting(Run(map[], first), second, tried, page, Copies(fs, p, mapping));
    how := InInterp(image, main, first, second, tried, true);
    ops := first + second + [ReleaseOp(main, true)];
    ProgramRestoresExactly(how, map[], ops, fs, path, page, native, mapping);
  }

  /** Giving up on a program and its interpreter always leaves nothing of either, once releases go
      through, exactly when the two files are safe: a condition on their images alone. */
  lemma ProgramRestoresAlwaysExactly(fs: FileSystem, path: seq<byte>, page: u64, native: u16, mapping: bool, image: Image)
    requires IsPow2(page) && Begins(fs, path, page, native, image)
    ensures (forall how, s, ops :: GaveUp(how, s, ops, fs, path, page, native, mapping) && Released(how, ops) ==> Run(s, ops) == s)
            <==> SafeProgram(fs, path, page, native, mapping, image)
  {
    hide WellFormed, SafeToFail, Accepts, ImageOf, InterpPath, PairLeaks, GaveUp, Released, Run, Readable, IsPow2;
    ImageWellFormed(fs, path, page, native, image);
    if SafeProgram(fs, path, page, native, mapping, image) {
      forall how, s, ops | GaveUp(how, s, ops, fs, path, page, native, mapping) && Released(how, ops) ensures Run(s, ops) == s {
        SafeProgramRestores(how, s, ops, fs, path, page, native, mapping, image);
      }
    } else if !SafeToFail(image, page, Copies(fs, path, mapping)) {
      var raw, ops := UnsafeLeaks(image, page, Copies(fs, path, mapping));
      MainGivesUp(map[], ops, fs, path, page, native, mapping, image);
    } else {
      var p := InterpPath(image, fs[path].src).value;
      var tried :| IsInterp(fs, p, page, native, tried) && !PairSafe(image, tried, page, Copies(fs, path, mapping), Copies(fs, p, mapping));
      var plan, raw :| PairLeaks(image, tried, page, Copies(fs, path, mapping), Copies(fs, p, mapping), plan, raw);
      var how, ops := PairLeaksRun(fs, path, page, native, mapping, image, tried, plan, raw);
    }
  }

  lemma MainGivesUp(s: Space, ops: seq<Op>, fs: FileSystem, path: seq<byte>, page: u64, native: u16, mapping: bool, image: Image)
    requires Begins(fs, path, page, native, image) && FailedLoad(s, ops, image, page, Copies(fs, path, mapping)) && !WasRefused(ops)
    ensures GaveUp(InMain(image), s, ops, fs, path, page, native, mapping) && Released(InMain(image), ops)
  {
  }

  lemma ImageWellFormed(fs: FileSystem, path: seq<byte>, page: u64, native: u16, image: Image)
    requires IsPow2(page) && IsImageOf(fs, path, page, native, image)
    ensures WellFormed(image, page)
  {
    hide Accepts, ImageOf, WellFormed;
    AcceptedIsWellFormed(fs[path].src, page, native);
  }

  // ------------------------------------------------------ an accepted witness

  lemma SmallestAlign(image: Image, page: u64)
    requires image.loads == [0] && image.phdrs == [SmallestLoad()]
    ensures InTable(image.phdrs, image.loads) && SegAlign(image, page) == page
  {
    assert MaxAlign(image, page, 1) == MaxAlign(image, page, 0);
  }

  lemma WellFormedPage(image: Image, page: u64)
    requires WellFormed(image, page)
    ensures page > 0
  {
  }

  lemma SmallestSpan(image: Image, page: u64)
    requires WellFormed(image, page) && image.loads == [0] && image.phdrs == [SmallestLoad()] && page < 0x1_0000_0000
    ensures VaSpan(image, page) == Ok((0, Up(120, page))) && 0 < Up(120, page) < 0x2_0000_0000
    ensures AlignDown(Up(120, page), page) == Up(120, page) && Up(Up(120, page), page) == Up(120, page)
  {
    hide IsPow2;
    WellFormedPage(image, page);
    UpBounds(120, page);
    UpOfMultiple(Up(120, page), page);
    AlignBounds(0, page);
  }

  /** With its entry point at the top of the address space the smallest program is not safe. */
  lemma TopEntryUnsafe(image: Image, page: u64, copied: bool)
    requires WellFormed(image, page) && page < 0x1_0000_0000
    requires image.loads == [0] && image.phdrs == [SmallestLoad()]
    requires image.ehdr.etype == ET_DYN && image.ehdr.entry == U64_LIMIT - 1
    ensures !SafeToFail(image, page, copied)
  {
    hide WellFormed, VaSpan, SegAlign, Up, AlignDown;
    SmallestSpan(image, page);
    SmallestAlign(image, page);
  }

  lemma SmallestImage(src: Source, mid: seq<byte>, end: seq<byte>, page: u64, native: u16, entry: u64, image: Image)
    requires IsPow2(page) && Wrote(src, SmallestEhdr(native, entry), [SmallestLoad()], mid, end, [])
    requires image == FromTable(SmallestEhdr(native, entry), [SmallestLoad()])
    ensures Accepts(src, page, native) && image == ImageOf(src) && WellFormed(image, page)
    ensures image.loads == [0] && image.phdrs == [SmallestLoad()]
    ensures image.ehdr.etype == ET_DYN && image.ehdr.entry == entry
  {
    hide Accepts, ImageOf, WellFormed, SortedLoads, EhdrBytes, TableBytes;
    SmallestIsAccepted(src, mid, end, page, native, entry);
    ParseOfWritten(src, SmallestEhdr(native, entry), [SmallestLoad()], mid, end, [], page, native);
    AcceptedIsWellFormed(src, page, native);
    OneSorted([SmallestLoad()]);
  }

  lemma OneSorted(t: seq<Phdr>)
    requires |t| == 1 && t[0].ptype == PT_LOAD
    ensures SortedLoads(t) == [0]
  {
    hide SortLoads, LoadIndices;
    OneIndex(t);
    SameElements(SortedLoads(t), [0]);
  }

  /** The leak is real on both paths: a file that the parser accepts, on every machine and for every page
      size below 4 GiB, and a place where loading it fails and loses the reservation. */
  lemma PlanCanLeak(native: u16, page: u64, copied: bool) returns (src: Source, image: Image, raw: u64, ops: seq<Op>)
    requires IsPow2(page) && page < 0x1_0000_0000
    ensures src.Valid() && Accepts(src, page, native) && image == ImageOf(src) && |ops| == 1 && ops[0].addr == raw
    ensures PlanLeak(map[], ops, image, page, copied) && FailedLoad(map[], ops, image, page, copied) && Run(map[], ops) != map[]
  {
    hide Accepts, ImageOf, WellFormed, SafeToFail, PlanLeak, FailedLoad, FromTable;
    var mid, end;
    src, mid, end := WriteFile(SmallestEhdr(native, U64_LIMIT - 1), [SmallestLoad()]);
    image := FromTable(SmallestEhdr(native, U64_LIMIT - 1), [SmallestLoad()]);
    SmallestImage(src, mid, end, page, native, U64_LIMIT - 1, image);
    TopEntryUnsafe(image, page, copied);
    raw, ops := UnsafeLeaks(image, page, copied);
  }
}
