/** An executable and its program interpreter: two loads, one rollback, and the auxiliary values the
    pair implies. */
module Program {
  import opened Words
  import opened Elf
  import opened Layout
  import opened AddressSpace
  import opened VirtualMemory
  import opened MappedOps
  import opened Loader
  import opened CopyLoader
  import opened LoadTheorems

  datatype Opened = Opened(src: Source, fd: Option<int>)

  type FileSystem = map<seq<byte>, Opened>

  datatype LoadedProgram = LoadedProgram(image: Image, main: Loaded, interp: Option<(Image, Loaded)>,
                                         interpPath: Option<seq<byte>>)
  {
    /** Where execution begins: the interpreter when there is one. */
    function Entry(): u64 { if interp.Some? then interp.value.1.plan.entry else main.plan.entry }

    /** AT_BASE: the interpreter's load bias. */
    function InterpBase(): u64 { if interp.Some? then interp.value.1.plan.bias else 0 }
  }

  /** Every descriptor maps the file it was opened with. */
  predicate Consistent(fs: FileSystem, vm: Vm)
  {
    forall p :: p in fs ==> fs[p].src.Valid()
                            && (fs[p].fd.Some? ==> vm.FileOf(fs[p].fd.value) == fs[p].src.bytes)
  }

  method Open(fs: FileSystem, path: seq<byte>, vm: Vm) returns (r: Result<Opened, Errno>)
    modifies vm`faults
    ensures r.Ok? ==> path in fs && r.value == fs[path] && vm.faults == old(vm.faults)
    ensures r.Err? ==> vm.faults > old(vm.faults) || (path !in fs && r.error == ENOENT)
  {
    var broken: bool := *;
    if path !in fs { return Err(ENOENT); }
    if broken {
      vm.faults := vm.faults + 1;
      return Err(EIO);
    }
    r := Ok(fs[path]);
  }

  // -------------------------------------------------- loads next to other loads

  /** A failed load leaves what was mapped before it mapped and unchanged. */
  lemma FailedKeeps(s: Space, ops: seq<Op>, image: Image, page: u64, copied: bool, a: int)
    requires FailedLoad(s, ops, image, page, copied) && a in s
    ensures Look(Run(s, ops), a) == Look(s, a)
  {
    hide LeakGuard, WellFormed, AlignedPlace;
    RunLook(s, ops, a);
    if Aborted(s, ops) {
      var body, last := ops[1..|ops| - 1], ops[|ops| - 1];
      assert ops == [ops[0]] + body + [last];
      TakeKeepsRest(s, ops[0], body, last, a);
      FrameOutside(body, ops[0].addr, ops[0].addr + ops[0].Len(), a, Look(s, a));
    } else if ops != [] {
      RunOne(s, ops[0]);
      assert ops == [ops[0]];
    }
  }

  /** Two spans share no address. */
  ghost predicate Apart(p: LoadPlan, q: LoadPlan)
  {
    forall a {:trigger InReserve(p, a)} :: InReserve(p, a) ==> !InReserve(q, a)
  }

  predicate InReserve(p: LoadPlan, a: int) { p.reserveAddr <= a < ReserveEnd(p) }

  /** A second load takes free addresses only, so it lies apart from a range that is held, and leaves
      an image there as it is. */
  lemma SecondLoadApart(s: Space, ops: seq<Op>, plan: LoadPlan, image: Image, page: u64, other: LoadPlan, bytes: seq<byte>)
    requires Contained(s, ops, plan.reserveAddr, ReserveEnd(plan))
    requires Sound(image, page, other) && Held(s, other.reserveAddr, ReserveEnd(other))
    requires ImageInMemory(s, image, other.bias, page, bytes)
    ensures Apart(other, plan)
    ensures ImageInMemory(Run(s, ops), image, other.bias, page, bytes)
    ensures Held(Run(s, ops), other.reserveAddr, ReserveEnd(other))
  {
    forall a | InReserve(other, a) ensures !InReserve(plan, a) { assert a in s; }
    ContainedFrame(s, ops, plan.reserveAddr, ReserveEnd(plan), |ops|);
    assert ops[..|ops|] == ops;
    forall a | other.reserveAddr <= a < ReserveEnd(other)
      ensures Look(s, a) == Look(Run(s, ops), a) && a in Run(s, ops)
    {
      assert InReserve(other, a);
    }
    ImageIsLocal(s, Run(s, ops), image, page, other, bytes);
  }

  // --------------------------------------------------------------- load_interp

  /** There is no file at `p` or the parser rejects it, and `e` says so: ENOTSUP is kept for an ELF file
      this loader will not run. */
  ghost predicate NoImage(fs: FileSystem, p: seq<byte>, page: u64, native: u16, e: Errno)
  {
    if p !in fs then e == ENOENT
    else fs[p].src.Valid() && page > 0 && !Accepts(fs[p].src, page, native)
         && e == if IsElf(fs[p].src) && Foreign(fs[p].src, page, native) then ENOTSUP else ENOEXEC
  }

  /** The image at `p` as the file system has it. */
  ghost predicate IsImageOf(fs: FileSystem, p: seq<byte>, page: u64, native: u16, image: Image)
  {
    p in fs && fs[p].src.Valid() && page > 0 && Accepts(fs[p].src, page, native) && image == ImageOf(fs[p].src)
  }

  /** Open and parse. */
  method OpenImage(fs: FileSystem, path: seq<byte>, vm: Vm, native: u16) returns (r: Result<(Opened, Image), Errno>)
    requires vm.Valid() && forall p :: p in fs ==> fs[p].src.Valid()
    modifies vm`faults
    ensures r.Ok? ==> path in fs && r.value.0 == fs[path] && IsImageOf(fs, path, vm.page, native, r.value.1)
                      && WellFormed(r.value.1, vm.page) && vm.faults == old(vm.faults)
    ensures r.Err? ==> vm.faults > old(vm.faults) || NoImage(fs, path, vm.page, native, r.error)
  {
    hide Accepts, ImageOf, WellFormed, Foreign, IsElf;
    var file := Open(fs, path, vm);
    if file.Err? { return Err(file.error); }
    // A read of the headers may fail for reasons of the source's own; the file is then rejected.
    var broken: bool := *;
    if broken {
      vm.faults := vm.faults + 1;
      return Err(ENOEXEC);
    }
    var parsed := Parse(file.value.src, vm.page, native);
    if parsed.Err? { return Err(if parsed.error.Unsupported? then ENOTSUP else ENOEXEC); }
    AcceptedIsWellFormed(file.value.src, vm.page, native);
    r := Ok((file.value, parsed.value));
  }

  /** No place that `load` may be given on its path makes the plan of the image fail. */
  predicate PlansOn(image: Image, page: u64, copied: bool)
    requires WellFormed(image, page) && VaSpan(image, page).Ok?
  {
    if copied then PlansAligned(image, page) else PlansEverywhere(image, page)
  }

  lemma PlansOnSuffices(image: Image, page: u64, copied: bool, op: Op)
    requires WellFormed(image, page) && VaSpan(image, page).Ok? && PlansOn(image, page, copied)
    requires TookFor(op, image, page, copied)
    ensures !LeakGuard(image, page, op.addr)
  {
    hide WellFormed, PlanRefuses, PlansEverywhere, PlansAligned, AlignedPlace;
    if LeakGuard(image, page, op.addr) {
      if copied { PlansAlignedSuffices(image, page, op.addr); } else { PlansEverywhereSuffices(image, page, op.addr); }
    }
  }

  /** What makes an image load wherever nothing is declined: a reservation length, and either its own
      pages free for a fixed image that is mapped, or a plan that fails nowhere and, for copying, a file
      that is long enough. */
  ghost predicate Loadable(s: Space, image: Image, page: u64, copied: bool, src: Source)
  {
    WellFormed(image, page) && ReservationLen(image, page).Ok?
    && if image.ehdr.etype == 3 then PlansOn(image, page, copied) && (copied ==> Readable(image, src))
       else !copied && var (lo, hi) := VaSpan(image, page).value; Vacant(s, lo, hi)
  }

  lemma LoadableIsNotBlamed(s: Space, ops: seq<Op>, image: Image, page: u64, copied: bool, src: Source)
    requires Loadable(s, image, page, copied, src)
    ensures !LoadBlame(s, ops, image, page, copied, src, false)
  {
    hide WellFormed, PlanRefuses, PlansOn, Readable, Vacant, AlignedPlace;
    if PlanLeak(s, ops, image, page, copied) { PlansOnSuffices(image, page, copied, ops[0]); }
  }

  /** `load` of an opened file, its descriptor mapping the same bytes. */
  method LoadOpened(image: Image, file: Opened, vm: Vm) returns (r: Result<Loaded, Errno>, ghost ops: seq<Op>)
    requires vm.Valid() && WellFormed(image, vm.page)
    requires file.fd.Some? ==> vm.FileOf(file.fd.value) == file.src.bytes
    modifies vm
    ensures Issued(old(vm.space), old(vm.trace), vm.space, vm.trace, ops)
    ensures r.Ok? ==> SuccessfulLoad(old(vm.space), ops, image, vm.page, r.value, file.src, file.fd, file.src.bytes)
                      && r.value.onHeap == !(vm.canMapFiles && file.fd.Some?)
    ensures r.Err? ==> FailedLoad(old(vm.space), ops, image, vm.page, !(vm.canMapFiles && file.fd.Some?))
    ensures r.Ok? ==> vm.faults >= old(vm.faults)
    ensures r.Err? ==> LoadBlame(old(vm.space), ops, image, vm.page, !(vm.canMapFiles && file.fd.Some?), file.src,
                                 vm.faults > old(vm.faults))
  {
    hide WellFormed, FailedLoad, CopiedLoad, MappedLoad, LoadBlame;
    r, ops := Load(image, file.src, file.fd, vm);
  }

  /** The file at `p` is loaded by copying. */
  predicate Copies(fs: FileSystem, p: seq<byte>, mapping: bool) { !(mapping && p in fs && fs[p].fd.Some?) }

  /** The file at `p` is an interpreter `load_interp` will load. */
  ghost predicate IsInterp(fs: FileSystem, p: seq<byte>, page: u64, native: u16, image: Image)
  {
    IsImageOf(fs, p, page, native, image) && image.ehdr.etype == ET_DYN && image.interp.None?
  }

  /** The interpreter at `p` was not loaded: nothing was begun, or its own load failed. */
  ghost predicate InterpTried(fs: FileSystem, p: seq<byte>, s: Space, ops: seq<Op>, tried: Image, page: u64, native: u16, mapping: bool)
  {
    ops == [] || (IsInterp(fs, p, page, native, tried) && FailedLoad(s, ops, tried, page, Copies(fs, p, mapping)))
  }

  /** Why `load_interp` failed with nothing declined: there is no image, it is not position independent
      or wants an interpreter itself, or its own load is to blame. */
  ghost predicate InterpCause(fs: FileSystem, p: seq<byte>, s: Space, ops: seq<Op>, tried: Image, page: u64, native: u16, mapping: bool, e: Errno)
  {
    (ops == [] && NoImage(fs, p, page, native, e))
    || (ops == [] && e == ENOEXEC && IsImageOf(fs, p, page, native, tried) && (tried.ehdr.etype != 3 || tried.interp.Some?))
    || (IsInterp(fs, p, page, native, tried) && LoadBlame(s, ops, tried, page, Copies(fs, p, mapping), fs[p].src, false))
  }

  /** `load_interp`: refuses anything that is not position independent or wants an interpreter. */
  method LoadInterp(path: seq<byte>, fs: FileSystem, vm: Vm, native: u16)
    returns (r: Result<(Image, Loaded), Errno>, ghost ops: seq<Op>, ghost tried: Image)
    requires vm.Valid() && Consistent(fs, vm)
    modifies vm
    ensures Issued(old(vm.space), old(vm.trace), vm.space, vm.trace, ops)
    ensures r.Ok? ==> path in fs && IsImageOf(fs, path, vm.page, native, r.value.0)
                      && r.value.0.ehdr.etype == ET_DYN && r.value.0.interp.None?
                      && SuccessfulLoad(old(vm.space), ops, r.value.0, vm.page, r.value.1, fs[path].src, fs[path].fd, fs[path].src.bytes)
    ensures r.Err? ==> InterpTried(fs, path, old(vm.space), ops, tried, vm.page, native, vm.canMapFiles)
    ensures r.Err? ==> vm.faults > old(vm.faults)
                       || InterpCause(fs, path, old(vm.space), ops, tried, vm.page, native, vm.canMapFiles, r.error)
  {
    hide IsImageOf, WellFormed, FailedLoad, SuccessfulLoad, NoImage, LoadBlame;
    ops, tried := [], *;
    var file := OpenImage(fs, path, vm, native);
    if file.Err? { r := Err(file.error); return; }
    var image := file.value.1;
    tried := image;
    if image.ehdr.etype != ET_DYN || image.interp.Some? { r := Err(ENOEXEC); return; }
    var loaded;
    loaded, ops := LoadOpened(image, file.value.0, vm);
    r := if loaded.Ok? then Ok((image, loaded.value)) else Err(loaded.error);
  }

  // -------------------------------------------------------------- load_program

  /** Program and interpreter are in memory together. */
  ghost predicate InMemory(t: Space, lp: LoadedProgram, fs: FileSystem, path: seq<byte>, page: u64, native: u16)
  {
    IsImageOf(fs, path, page, native, lp.image) && Planned(lp.image, page, lp.main.plan) && !lp.image.execStack
    && ImageInMemory(t, lp.image, lp.main.plan.bias, page, fs[path].src.bytes)
    && Held(t, lp.main.plan.reserveAddr, ReserveEnd(lp.main.plan))
    && lp.interp.Some? == lp.image.interp.Some? == lp.interpPath.Some?
    && (lp.interp.Some? ==>
          var (image, l) := lp.interp.value;
          InterpPath(lp.image, fs[path].src) == Ok(lp.interpPath.value)
          && IsImageOf(fs, lp.interpPath.value, page, native, image) && Planned(image, page, l.plan)
          && image.ehdr.etype == ET_DYN && image.interp.None?
          && ImageInMemory(t, image, l.plan.bias, page, fs[lp.interpPath.value].src.bytes)
          && Held(t, l.plan.reserveAddr, ReserveEnd(l.plan))
          && Apart(lp.main.plan, l.plan))
  }

  /** The releases of an unload, interpreter first; `a` and `b` say which of them go through. */
  function UnloadOps(lp: LoadedProgram, a: bool, b: bool): seq<Op>
  {
    (if lp.interp.Some? then [ReleaseOp(lp.interp.value.1, a)] else []) + [ReleaseOp(lp.main, b)]
  }

  lemma ReleaseKeepsApart(t: Space, l: Loaded, other: LoadPlan, ok: bool)
    requires Held(t, other.reserveAddr, ReserveEnd(other)) && Apart(other, l.plan)
    ensures Held(Apply(t, ReleaseOp(l, ok)), other.reserveAddr, ReserveEnd(other))
  {
    forall a | other.reserveAddr <= a < ReserveEnd(other) ensures a in Apply(t, ReleaseOp(l, ok)) {
      assert InReserve(other, a);
      assert Look(Apply(t, ReleaseOp(l, ok)), a) == CellAfter(ReleaseOp(l, ok), a, Look(t, a));
    }
  }

  /** `LoadedProgram::unload`: interpreter, then program. */
  method UnloadProgram(lp: LoadedProgram, vm: Vm) returns (a: bool, b: bool)
    requires Held(vm.space, lp.main.plan.reserveAddr, ReserveEnd(lp.main.plan))
    requires lp.interp.Some? ==> var l := lp.interp.value.1;
                                 Held(vm.space, l.plan.reserveAddr, ReserveEnd(l.plan)) && Apart(lp.main.plan, l.plan)
    modifies vm
    ensures Issued(old(vm.space), old(vm.trace), vm.space, vm.trace, UnloadOps(lp, a, b))
  {
    ghost var s0, t0 := vm.space, vm.trace;
    a := true;
    if lp.interp.Some? {
      var l := lp.interp.value.1;
      forall ok: bool { ReleaseKeepsApart(vm.space, l, lp.main.plan, ok); }
      a := Unload(l, vm);
      RunOne(s0, ReleaseOp(l, a));
    }
    ghost var s1 := vm.space;
    b := Unload(lp.main, vm);
    RunOne(s1, ReleaseOp(lp.main, b));
    RunConcat(s0, UnloadOps(lp, a, b)[..|UnloadOps(lp, a, b)| - 1], [ReleaseOp(lp.main, b)]);
  }

  lemma UnloadRuns(t: Space, lp: LoadedProgram)
    ensures Run(t, UnloadOps(lp, true, true)) ==
            Apply(if lp.interp.Some? then Apply(t, ReleaseOp(lp.interp.value.1, true)) else t, ReleaseOp(lp.main, true))
  {
    if lp.interp.Some? {
      RunStep(t, [ReleaseOp(lp.interp.value.1, true)], ReleaseOp(lp.main, true));
      RunOne(t, ReleaseOp(lp.interp.value.1, true));
    } else {
      RunStep(t, [], ReleaseOp(lp.main, true));
    }
  }

  // ----------------------------------------------------- giving up on a program

  /** How far `load_program` got: no load was begun; the program's own load failed; or the program was
      loaded by `first`, the interpreter's load failed after `second`, and the program was released. */
  datatype GivenUp =
    | BeforeLoading
    | InMain(image: Image)
    | InInterp(image: Image, main: Loaded, first: seq<Op>, second: seq<Op>, tried: Image, released: bool)

  /** The run of a failed `load_program`, tied to the files it opened and to what was tried on each. */
  ghost predicate GaveUp(how: GivenUp, s: Space, ops: seq<Op>, fs: FileSystem, path: seq<byte>, page: u64, native: u16, mapping: bool)
  {
    match how
    case BeforeLoading => ops == []
    case InMain(image) =>
      Begins(fs, path, page, native, image) && FailedLoad(s, ops, image, page, Copies(fs, path, mapping))
    case InInterp(image, main, first, second, tried, released) =>
      Begins(fs, path, page, native, image) && image.interp.Some?
      && SuccessfulLoad(s, first, image, page, main, fs[path].src, fs[path].fd, fs[path].src.bytes)
      && main.onHeap == Copies(fs, path, mapping)
      && InterpTried(fs, InterpPath(image, fs[path].src).value, Run(s, first), second, tried, page, native, mapping)
      && ops == first + second + [ReleaseOp(main, released)]
  }

  /** The program's load is begun: it wants no executable stack, and names its interpreter if any. */
  ghost predicate Begins(fs: FileSystem, path: seq<byte>, page: u64, native: u16, image: Image)
  {
    IsImageOf(fs, path, page, native, image) && !image.execStack
    && (image.interp.Some? ==> InterpPath(image, fs[path].src).Ok?)
  }

  /** What a failed `load_program` has to meet to leave nothing of either image. */
  ghost predicate NothingLeft(how: GivenUp, ops: seq<Op>, page: u64)
  {
    match how
    case BeforeLoading => true
    case InMain(image) => LeavesNothing(ops, image, page)
    case InInterp(_, main, _, second, tried, released) =>
      (released || main.onHeap || main.plan.reserveLen == 0) && LeavesNothing(second, tried, page)
  }

  /** Releasing the program after a clean interpreter failure restores the space exactly when the
      release goes through or there was nothing to release. */
  lemma ReleaseRestores(s: Space, t: Space, main: Loaded, ok: bool)
    requires Apply(t, ReleaseOp(main, true)) == s
    requires Held(t, main.plan.reserveAddr, ReserveEnd(main.plan)) && Vacant(s, main.plan.reserveAddr, ReserveEnd(main.plan))
    ensures Apply(t, ReleaseOp(main, ok)) == s <==> ok || main.onHeap || main.plan.reserveLen == 0
  {
    if !ok && !main.onHeap {
      SpacesEqual(Apply(t, ReleaseOp(main, ok)), t);
      if main.plan.reserveLen == 0 {
        NothingTaken(t, ReleaseOp(main, true));
      } else {
        assert main.plan.reserveAddr in t && main.plan.reserveAddr !in s;
      }
    }
  }

  /** Whatever the interpreter's load left stays when the program is released. */
  lemma LeftoverStays(s: Space, t: Space, u: Space, main: Loaded, ok: bool, a: int)
    requires Apply(t, ReleaseOp(main, true)) == s && Held(t, main.plan.reserveAddr, ReserveEnd(main.plan))
    requires a !in t && a in u
    ensures Apply(u, ReleaseOp(main, ok)) != s
  {
    assert !(main.plan.reserveAddr <= a < ReserveEnd(main.plan));
    assert Look(Apply(u, ReleaseOp(main, ok)), a) == Look(u, a);
    assert Look(s, a) == CellAfter(ReleaseOp(main, true), a, Look(t, a));
  }

  lemma InterpRestoresExactly(s: Space, t: Space, main: Loaded, second: seq<Op>, tried: Image, released: bool, page: u64, copied: bool)
    requires Apply(t, ReleaseOp(main, true)) == s && FailedLoad(t, second, tried, page, copied)
    requires Held(t, main.plan.reserveAddr, ReserveEnd(main.plan)) && Vacant(s, main.plan.reserveAddr, ReserveEnd(main.plan))
    ensures Apply(Run(t, second), ReleaseOp(main, released)) == s <==>
            (released || main.onHeap || main.plan.reserveLen == 0) && LeavesNothing(second, tried, page)
  {
    hide FailedLoad, LeavesNothing, ReleaseOp, Held, Vacant, Apply, Run;
    if LeavesNothing(second, tried, page) {
      FailureRestores(t, second, tried, page, copied);
      ReleaseRestores(s, t, main, released);
    } else {
      var a := FailureLeaves(t, second, tried, page, copied);
      LeftoverStays(s, t, Run(t, second), main, released, a);
    }
  }

  /** Rollback of a program and its interpreter: giving up leaves the address space as it was exactly
      when each release went through and each image was placed where its plan succeeds. */
  lemma ProgramRestoresExactly(how: GivenUp, s: Space, ops: seq<Op>, fs: FileSystem, path: seq<byte>, page: u64, native: u16, mapping: bool)
    requires GaveUp(how, s, ops, fs, path, page, native, mapping)
    ensures Run(s, ops) == s <==> NothingLeft(how, ops, page)
  {
    hide FailedLoad, LeavesNothing, SuccessfulLoad, Accepts, ImageOf, InterpPath, ReleaseOp;
    match how
    case BeforeLoading =>
    case InMain(image) => FailureRestoresExactly(s, ops, image, page, Copies(fs, path, mapping));
    case InInterp(image, main, first, second, tried, released) =>
      var file, t := fs[path], Run(s, first);
      MainLoaded(s, first, image, page, main, file);
      var copied := Copies(fs, InterpPath(image, file.src).value, mapping);
      NoRunFails(t, tried, page, copied);
      InterpRestoresExactly(s, t, main, second, tried, released, page, copied);
      RunStep(s, first + second, ReleaseOp(main, released));
      RunConcat(s, first, second);
  }

  lemma NoRunFails(s: Space, image: Image, page: u64, copied: bool)
    ensures FailedLoad(s, [], image, page, copied)
  {
  }

  /** What the first load gives the second. */
  lemma MainLoaded(s: Space, ops: seq<Op>, image: Image, page: u64, l: Loaded, file: Opened)
    requires SuccessfulLoad(s, ops, image, page, l, file.src, file.fd, file.src.bytes)
    ensures Planned(image, page, l.plan) && Sound(image, page, l.plan) && WellFormed(image, page)
    ensures Vacant(s, l.plan.reserveAddr, ReserveEnd(l.plan))
    ensures Held(Run(s, ops), l.plan.reserveAddr, ReserveEnd(l.plan))
    ensures ImageInMemory(Run(s, ops), image, l.plan.bias, page, file.src.bytes)
    ensures Apply(Run(s, ops), ReleaseOp(l, true)) == s
  {
    hide SuccessfulLoad;
    LoadContained(s, ops, image, page, l, file.src, file.fd, file.src.bytes);
    LoadedImage(s, ops, image, page, l, file.src, file.fd, file.src.bytes);
    UnloadUndoesLoad(s, ops, image, page, l, file.src, file.fd, file.src.bytes);
    ContainedFrame(s, ops, l.plan.reserveAddr, ReserveEnd(l.plan), |ops|);
    assert ops[..|ops|] == ops;
  }

  /** The interpreter load on top of a loaded program: on success both images are in memory, on
      failure the program is unloaded as well. */
  method AddInterp(image: Image, main: Loaded, file: Opened, ip: seq<byte>, fs: FileSystem, vm: Vm, native: u16,
                   ghost s0: Space, ghost ops1: seq<Op>)
    returns (r: Result<(Image, Loaded), Errno>, ghost ops2: seq<Op>, ghost tried: Image, ghost released: bool)
    requires vm.Valid() && Consistent(fs, vm)
    requires SuccessfulLoad(s0, ops1, image, vm.page, main, file.src, file.fd, file.src.bytes)
    requires vm.space == Run(s0, ops1)
    modifies vm
    ensures Issued(old(vm.space), old(vm.trace), vm.space, vm.trace, if r.Ok? then ops2 else ops2 + [ReleaseOp(main, released)])
    ensures Planned(image, vm.page, main.plan)
    ensures r.Ok? ==> IsImageOf(fs, ip, vm.page, native, r.value.0) && Planned(r.value.0, vm.page, r.value.1.plan)
                      && r.value.0.ehdr.etype == ET_DYN && r.value.0.interp.None?
                      && ImageInMemory(vm.space, r.value.0, r.value.1.plan.bias, vm.page, fs[ip].src.bytes)
                      && ImageInMemory(vm.space, image, main.plan.bias, vm.page, file.src.bytes)
                      && Held(vm.space, main.plan.reserveAddr, ReserveEnd(main.plan))
                      && Held(vm.space, r.value.1.plan.reserveAddr, ReserveEnd(r.value.1.plan))
                      && Apart(main.plan, r.value.1.plan)
                      && Apply(Apply(vm.space, ReleaseOp(r.value.1, true)), ReleaseOp(main, true)) == s0
    ensures r.Err? ==> InterpTried(fs, ip, old(vm.space), ops2, tried, vm.page, native, vm.canMapFiles)
    ensures r.Err? ==> vm.faults > old(vm.faults)
                       || InterpCause(fs, ip, old(vm.space), ops2, tried, vm.page, native, vm.canMapFiles, r.error)
  {
    hide InterpCause, SuccessfulLoad, Sound, Planned, WellFormed, ImageInMemory, IsImageOf, FailedLoad, Apart, Contained, ReleaseOp;
    ghost var s1, t1 := vm.space, vm.trace;
    released := false;
    MainLoaded(s0, ops1, image, vm.page, main, file);
    r, ops2, tried := LoadInterp(ip, fs, vm, native);
    if r.Ok? {
      MainLoaded(s1, ops2, r.value.0, vm.page, r.value.1, fs[ip]);
      LoadContained(s1, ops2, r.value.0, vm.page, r.value.1, fs[ip].src, fs[ip].fd, fs[ip].src.bytes);
      SecondLoadApart(s1, ops2, r.value.1.plan, image, vm.page, main.plan, file.src.bytes);
      return;
    }
    forall a | main.plan.reserveAddr <= a < ReserveEnd(main.plan) ensures a in vm.space {
      assert a in s1;
      if ops2 != [] { FailedKeeps(s1, ops2, tried, vm.page, Copies(fs, ip, vm.canMapFiles), a); }
      assert Look(vm.space, a) == Look(s1, a);
    }
    var ok := Unload(main, vm);
    released := ok;
    RunStep(s1, ops2, ReleaseOp(main, ok));
  }

  /** Why `load_program` failed with nothing declined. Before any load: there is no image, it asks for an
      executable stack, or its interpreter's path cannot be had. In the program's own load or the
      interpreter's: what the load of that image met. */
  ghost predicate ProgramCause(how: GivenUp, s: Space, ops: seq<Op>, fs: FileSystem, path: seq<byte>, page: u64, native: u16, mapping: bool, e: Errno)
  {
    match how
    case BeforeLoading =>
      NoImage(fs, path, page, native, e)
      || exists image :: IsImageOf(fs, path, page, native, image)
                         && ((image.execStack && e == ENOTSUP)
                             || (!image.execStack && image.interp.Some? && InterpPath(image, fs[path].src) == Err(e)))
    case InMain(image) =>
      path in fs && LoadBlame(s, ops, image, page, Copies(fs, path, mapping), fs[path].src, false)
    case InInterp(image, _, first, second, tried, _) =>
      path in fs && InterpPath(image, fs[path].src).Ok?
      && InterpCause(fs, InterpPath(image, fs[path].src).value, Run(s, first), second, tried, page, native, mapping, e)
  }

  /** The program, and its interpreter if it names one, are files that load wherever nothing is declined. */
  ghost predicate ProgramLoads(s: Space, fs: FileSystem, path: seq<byte>, page: u64, native: u16, mapping: bool, image: Image, interp: Image)
  {
    IsImageOf(fs, path, page, native, image) && !image.execStack
    && Loadable(s, image, page, Copies(fs, path, mapping), fs[path].src)
    && (image.interp.Some? ==>
          InterpPath(image, fs[path].src).Ok?
          && var ip := InterpPath(image, fs[path].src).value;
             IsInterp(fs, ip, page, native, interp) && Loadable(s, interp, page, Copies(fs, ip, mapping), fs[ip].src))
  }

  /** Completeness: such a program has no cause to fail, so it is loaded unless the system declines
      something. A fixed program only needs its own pages free. */
  lemma NoCauseToFail(how: GivenUp, s: Space, ops: seq<Op>, fs: FileSystem, path: seq<byte>, page: u64, native: u16, mapping: bool,
                      image: Image, interp: Image, e: Errno)
    requires GaveUp(how, s, ops, fs, path, page, native, mapping)
    requires ProgramLoads(s, fs, path, page, native, mapping, image, interp)
    ensures !ProgramCause(how, s, ops, fs, path, page, native, mapping, e)
  {
    hide WellFormed, Loadable, LoadBlame, FailedLoad, SuccessfulLoad, Accepts, ImageOf, InterpPath, InterpTried, ReleaseOp, InterpCause, Run;
    match how
    case BeforeLoading =>
    case InMain(_) =>
      LoadableIsNotBlamed(s, ops, image, page, Copies(fs, path, mapping), fs[path].src);
    case InInterp(_, _, first, second, tried, _) =>
      NoInterpCause(s, Run(s, first), second, fs, InterpPath(image, fs[path].src).value, page, native, mapping, interp, tried, e);
  }

  lemma NoInterpCause(s: Space, t: Space, ops: seq<Op>, fs: FileSystem, ip: seq<byte>, page: u64, native: u16, mapping: bool,
                      interp: Image, tried: Image, e: Errno)
    requires IsInterp(fs, ip, page, native, interp) && Loadable(s, interp, page, Copies(fs, ip, mapping), fs[ip].src)
    ensures !InterpCause(fs, ip, t, ops, tried, page, native, mapping, e)
  {
    hide WellFormed, Loadable, LoadBlame, Accepts, ImageOf;
    LoadableAnywhere(s, t, interp, page, Copies(fs, ip, mapping), fs[ip].src);
    LoadableIsNotBlamed(t, ops, interp, page, Copies(fs, ip, mapping), fs[ip].src);
  }

  lemma LoadableAnywhere(s: Space, t: Space, image: Image, page: u64, copied: bool, src: Source)
    requires Loadable(s, image, page, copied, src) && image.ehdr.etype == 3
    ensures Loadable(t, image, page, copied, src)
  {
  }

  /** `load_program`. On success program and interpreter are in memory together. On failure `how` says
      what was tried, and the address space is as before exactly when that leaves nothing. */
  method LoadProgram(path: seq<byte>, fs: FileSystem, vm: Vm, native: u16)
    returns (r: Result<LoadedProgram, Errno>, ghost ops: seq<Op>, ghost how: GivenUp)
    requires vm.Valid() && Consistent(fs, vm)
    modifies vm
    ensures Issued(old(vm.space), old(vm.trace), vm.space, vm.trace, ops)
    ensures r.Ok? ==> InMemory(vm.space, r.value, fs, path, vm.page, native)
                      && Run(vm.space, UnloadOps(r.value, true, true)) == old(vm.space)
    ensures r.Err? ==> GaveUp(how, old(vm.space), ops, fs, path, vm.page, native, vm.canMapFiles)
                       && (vm.space == old(vm.space) <==> NothingLeft(how, ops, vm.page))
    ensures r.Err? ==> vm.faults > old(vm.faults)
                       || ProgramCause(how, old(vm.space), ops, fs, path, vm.page, native, vm.canMapFiles, r.error)
  {
    hide NoImage, LoadBlame, InterpCause, NothingLeft, InterpTried, ReleaseOp;
    hide SuccessfulLoad, Sound, Planned, WellFormed, ImageInMemory, IsImageOf, FailedLoad, Apart, InterpPath;
    ops, how := [], BeforeLoading;
    ProgramRestoresExactly(how, vm.space, ops, fs, path, vm.page, native, vm.canMapFiles);
    ghost var s0, t0 := vm.space, vm.trace;
    var opening := OpenImage(fs, path, vm, native);
    if opening.Err? { r := Err(opening.error); return; }
    var (file, image) := opening.value;
    if image.execStack { r := Err(ENOTSUP); return; }
    var ip := None;
    if image.interp.Some? {
      // Reading the path may fail like any other read.
      var broken: bool := *;
      if broken {
        vm.faults := vm.faults + 1;
        r := Err(EIO);
        return;
      }
      var p := InterpPath(image, file.src);
      if p.Err? { r := Err(p.error); return; }
      ip := Some(p.value);
    }
    var main;
    main, ops := LoadOpened(image, file, vm);
    if main.Err? {
      how := InMain(image);
      ProgramRestoresExactly(how, s0, ops, fs, path, vm.page, native, vm.canMapFiles);
      r := Err(main.error);
      return;
    }
    if ip.None? {
      MainLoaded(s0, ops, image, vm.page, main.value, file);
      r := Ok(LoadedProgram(image, main.value, None, None));
      UnloadRuns(vm.space, r.value);
      return;
    }
    var interp; ghost var more, tried, released;
    interp, more, tried, released := AddInterp(image, main.value, file, ip.value, fs, vm, native, s0, ops);
    if interp.Err? {
      IssuedThen(s0, t0, ops, more + [ReleaseOp(main.value, released)], vm.space, vm.trace);
      how := InInterp(image, main.value, ops, more, tried, released);
      assert ops + (more + [ReleaseOp(main.value, released)]) == ops + more + [ReleaseOp(main.value, released)];
      ops := ops + more + [ReleaseOp(main.value, released)];
      ProgramRestoresExactly(how, s0, ops, fs, path, vm.page, native, vm.canMapFiles);
      r := Err(interp.error);
      return;
    }
    IssuedThen(s0, t0, ops, more, vm.space, vm.trace);
    ops := ops + more;
    r := Ok(LoadedProgram(image, main.value, Some(interp.value), ip));
    UnloadRuns(vm.space, r.value);
  }

  /** Where execution begins, and what AT_ENTRY and AT_BASE are made of: link addresses plus biases. */
  lemma EntryPoint(t: Space, lp: LoadedProgram, fs: FileSystem, path: seq<byte>, page: u64, native: u16)
    requires InMemory(t, lp, fs, path, page, native)
    ensures lp.main.plan.entry == lp.image.ehdr.entry + lp.main.plan.bias
    ensures lp.image.ehdr.etype != 3 ==> lp.main.plan.bias == 0
    ensures lp.interp.None? ==> lp.InterpBase() == 0 && lp.Entry() == lp.image.ehdr.entry + lp.main.plan.bias
    ensures lp.interp.Some? ==> lp.Entry() == lp.interp.value.0.ehdr.entry + lp.InterpBase()
  {
    hide ImageInMemory, IsImageOf, Apart, InterpPath, Sound, PlanOf, PlanPre;
    PlannedEntry(lp.image, page, lp.main.plan);
    if lp.interp.Some? { PlannedEntry(lp.interp.value.0, page, lp.interp.value.1.plan); }
  }

  lemma PlannedEntry(image: Image, page: u64, plan: LoadPlan)
    requires Planned(image, page, plan)
    ensures plan.entry == image.ehdr.entry + plan.bias && (image.ehdr.etype != 3 ==> plan.bias == 0)
  {
    hide Sound, PlanOf, PlanPre;
    PlanFields(image, page, PlacementOf(image, plan.reserveAddr), plan);
  }

  /** Every interpreter byte linked at `v` sits at AT_BASE + v, whatever its first `p_vaddr`. */
  lemma InterpAtBase(t: Space, lp: LoadedProgram, fs: FileSystem, path: seq<byte>, page: u64, native: u16, k: nat, v: int)
    requires InMemory(t, lp, fs, path, page, native) && lp.interp.Some?
    requires k < |lp.interp.value.0.loads| && lp.interp.value.0.loads[k] < |lp.interp.value.0.phdrs|
    requires var ph := lp.interp.value.0.Load(k); ph.vaddr <= v < ph.vaddr + ph.memsz
    ensures lp.interpPath.Some? && lp.interpPath.value in fs && lp.InterpBase() + v in t
            && t[lp.InterpBase() + v].val == LinkedByte(lp.interp.value.0.Load(k), fs[lp.interpPath.value].src.bytes, v)
  {
    hide Accepts, ImageOf, Apart, InterpPath, Planned, WellFormed, ImageInMemory, Held;
    var (image, l) := lp.interp.value;
    PlannedWellFormed(image, page, l.plan);
    LinkedInMemory(t, image, l.plan.bias, page, fs[lp.interpPath.value].src.bytes, k, v);
  }
}
