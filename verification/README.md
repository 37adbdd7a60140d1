# A model of the ELF loader

This project models the loading pipeline of a unikernel's ELF loader and proves what the pipeline
promises: arbitrary file bytes become a validated image (`elf.rs`), a mapping plan (`layout.rs`), a
sequence of address-space operations (`loader.rs`), a program and interpreter pair (`program.rs`) and an
initial process stack (`auxv.rs`). The repository's own model of an address space (`FakeVm` in
`testutil.rs`) and the short-read loop of `sys.rs` are modelled too.

`dafny verify dfyconfig.toml` checks everything.

## How it is built

| files | content |
|---|---|
| `Words.dfy` | 64-bit words, alignment, the bit mask behind `align_down`, little-endian words |
| `Elf.dfy`, `ElfWriter.dfy`, `HeaderOrder.dfy` | the parser, what it accepts, its inverse, and how far the order of the table matters |
| `Acceptance.dfy` | acceptance, rejection and the parsed image said again from the bytes of the file, in literals and plain arithmetic |
| `Layout.dfy` | the planner and its unchecked arithmetic |
| `AddressSpace.dfy`, `VirtualMemory.dfy` | a flat address space, the operations on it, and the `Vm` interface as a class whose every operation may fail |
| `Blocks.dfy`, `MappedOps.dfy`, `CopiedOps.dfy` | the operations each path issues, as a function of the plan, and their effect on one address |
| `Loader.dfy`, `CopyLoader.dfy` | the two executors, release and rollback |
| `LoadTheorems.dfy`, `Interleaving.dfy`, `Icache.dfy` | what finished, interrupted and interleaved loads mean |
| `PhdrAddress.dfy` | what AT_PHDR points at, exactly |
| `Program.dfy`, `Rollback.dfy`, `Startup.dfy` | program plus interpreter, when giving up leaves nothing, and what start-up code finds through the auxiliary vector |
| `InitialStack.dfy`, `StackReader.dfy` | the stack builder and the reader of a libc |
| `FileSource.dfy` | `pread` with short reads |
| `IntervalMap.dfy`, `FakeLoad.dfy`, `FakeCopy.dfy` | `FakeVm`, the interval map, and the two loaders on it |

A `u64` is a subset type, so every stored or passed 64-bit value carries a proof that the arithmetic behind
it did not wrap. Remainders are a recursive function `Rem`, equal to `%` by `Words.RemIs`, which keeps
non-linear arithmetic inside `Words.dfy`. The executors are imperative methods on a class `Vm`, proved to issue exactly (on success)
or a prefix of (on failure) an operation sequence computed from the plan; the theorems about memory are
lemmas about running such sequences, one address at a time.

Facts the source leaves open and that are settled here by following the code:

- When `plan` fails after the reservation or the block was taken, nothing releases it
  (`rust/src/loader.rs:137`, `rust/src/loader.rs:248`). `Layout.PlanFailsExactly` gives the guard of `plan` at a
  place, `Layout.PlansEverywhereExactly` and for aligned blocks `Layout.PlansAlignedExactly` the condition on the
  image under which no place makes it fail.
  `Loader.FailureRestoresExactly` and `Program.ProgramRestoresExactly` say exactly when giving up restores the
  address space, `Rollback.RestoresAlwaysExactly` and `Rollback.ProgramRestoresAlwaysExactly` for which images it
  always does, and `Rollback.PlanCanLeak` shows an accepted file for which it does not.
- The comment at `rust/src/layout.rs:253-254` says PT_PHDR is trusted only inside a PT_LOAD; the code accepts it
  anywhere in `[base, end)`. `Layout.PhdrSegmentExactly` says exactly when the answer lies in a load and
  `PhdrAddress.PhdrCanMissLoads` shows an accepted file for which it does not. A PT_PHDR whose biased address
  overflows gives no address at all, without trying the loads: `Layout.PhdrMissingExactly`,
  `PhdrAddress.PhdrCanOverflow`.
- Permuting the program header table is harmless only while different loads have different addresses, PT_PHDR
  entries are all one and PT_GNU_STACK entries agree: `HeaderOrder.ImageOrderExactly`. An empty page-aligned load
  can share an address: `HeaderOrder.OrderCanMatter` shows two files.
- `FakeVm::protect` re-protects whole regions. `IntervalMap.ProtectExactly` says exactly when that is
  per-page protection and `IntervalMap.ProtectSpills` shows a case where it is not. The mapped path never meets
  one (`FakeLoad.FakeFillSegment`). The copy path does: its block is one region, so the protection pass leaves the
  last segment's protection everywhere. `FakeCopy.FakeLoadCopied` says for exactly which images the regions are
  still the flat space, and `FakeCopy.CopyCanSpill` shows an accepted file for which they are not. A segment
  without a page stops that pass at an assertion.
- The bounds check of `AppStack::write` saturates; `InitialStack.SaturatedCheckExactly` says exactly when that
  misleads it, `InitialStack.SaturationCanMislead` shows an input; `build_stack` never reaches it.
- An empty read at an offset past the end succeeds from a descriptor and fails from a slice
  (`rust/src/sys.rs:291-309`, `rust/src/elf.rs:156-165`); no caller makes one.

## Model

| member | source | states |
|---|---|---|
| Words.MaskIsAlignDown | rust/src/elf.rs:524-527 | clearing the low bits of a word with the mask `a - 1` is rounding down to a multiple and keeping them is the remainder, for every power of two |
| Words.UpIsLeast | rust/src/elf.rs:529-532 | rounding up gives the least multiple at or above the value |
| Words.AlignUpFits | rust/src/elf.rs:529-532 | `align_up` does not fail when some multiple of the alignment at or above the value fits in 64 bits |
| Words.LeRoundTrip | rust/src/elf.rs:128-140 | a word encoded little-endian and decoded again is the same word |
| Words.ToLeByte | rust/src/elf.rs:128-140 | byte `i` of an encoded word is its `i`-th digit in base 256, the lowest first |
| Elf.Parse | rust/src/elf.rs:279-433 | succeeds if and only if the file meets the declarative acceptance predicate, and then returns the image those bytes describe; otherwise the rejection tells what is no ELF file, what this loader will not run and what is broken |
| Acceptance.AcceptsExactly | rust/src/elf.rs:279-433 | that predicate holds if and only if the literal header bytes, the little-endian fields written out as sums and the plain arithmetic on every entry hold: file part no larger than memory, alignment zero or a power of two, ends inside 64 bits and a known size, address and offset alike within a page, PT_INTERP of 1 to 4096 bytes, and the page-rounded end of every load at or below every later one |
| Acceptance.RejectsExactly | rust/src/elf.rs:215-236 | the two kinds of rejection that are not malformed, on the bytes: no ELF64 identification; or a foreign ABI, machine or type, an extended header count, or a second PT_INTERP as the first fault of the table |
| Acceptance.ImageIsPlain | rust/src/elf.rs:364-433 | the parsed image field by field from the bytes: the loads are exactly the entries of type 1 in ascending address, PT_INTERP and PT_PHDR the last of their kind, and an executable stack is asked for by bit 0 of the last PT_GNU_STACK entry |
| Elf.FlagBits | rust/src/elf.rs:108-116 | the execute, write and read questions are bits 0, 1 and 2 of the flag word |
| Elf.ReadTable | rust/src/elf.rs:338-362 | succeeds exactly when the table does not overflow, lies in a file of known size and every entry can be read; then it is the table |
| Elf.Classify | rust/src/elf.rs:364-402 | accepts exactly the tables whose loads are valid and that have at most one plausible PT_INTERP, calls the others unsupported exactly when the first refused entry is a second PT_INTERP, and keeps the loads in table order and the last entry of each other type |
| Elf.CheckOverlap | rust/src/elf.rs:413-421 | the two-part overlap test of the code passes exactly when each load ends, page-rounded, at or below the next one's start |
| Elf.SeparatedPairwise | rust/src/elf.rs:413-421 | comparing neighbours of the sorted loads separates every pair |
| Elf.TableIsWellFormed | rust/src/elf.rs:364-421 | the checks on the table establish every invariant the planner relies on, and with a known size each file part lies in the file |
| Elf.AcceptedIsWellFormed | rust/src/elf.rs:279-433 | the same, for every accepted file |
| Elf.SpanCovers | rust/src/elf.rs:461-467 | `va_span` is page-aligned and covers the page-rounded range of every load, not just the first and last |
| Elf.LoadAlign | rust/src/elf.rs:472-481 | the loop computes the running maximum |
| Elf.MaxAlignIsStrongest | rust/src/elf.rs:472-481 | the result is a power of two at or above the page, asked for by some load unless it is the page, and no load asks for more |
| Elf.InterpPath | rust/src/elf.rs:436-457 | succeeds exactly when PT_INTERP can be read, does not start with a NUL and contains one; then it is the NUL-free prefix that NUL ends |
| ElfWriter.PhdrRoundTrip | rust/src/elf.rs:197-216 | a program header written field by field and parsed again is the same header |
| ElfWriter.EhdrRoundTrip | rust/src/elf.rs:171-195 | so is the executable header, whatever its section fields hold |
| ElfWriter.ParseOfWritten | rust/src/testutil.rs:254-304 | a file built from headers is accepted if and only if those headers pass the checks, and its image is exactly the one they describe: parsing inverts building |
| ElfWriter.SmallestIsAccepted | rust/src/elf.rs:279-433 | for every machine and page size there is an accepted file, two headers that load themselves |
| HeaderOrder.SortIsStable | rust/src/elf.rs:408-412 | the sorted loads are a permutation of the loads, ascending by address and in table order where addresses are equal |
| HeaderOrder.SortedIsUnique | rust/src/elf.rs:408-412 | entries told apart by address have one ascending arrangement |
| HeaderOrder.OrderIsFreeExactly | rust/src/elf.rs:404-421 | every permutation of an accepted table is accepted and gives the planner the same loads, if and only if no two different loads share an address |
| HeaderOrder.OrderDoesNotMatter | rust/src/elf.rs:372-421 | when every load owns a page, permuting any table changes neither acceptance nor the loads the planner sees |
| HeaderOrder.ImageOrderExactly | rust/src/elf.rs:364-432 | every permutation of an accepted table is accepted and gives the same loads, PT_INTERP, PT_PHDR and stack request, if and only if different loads have different addresses, PT_PHDR entries are all one and PT_GNU_STACK entries agree |
| HeaderOrder.OrderCanMatter | rust/src/elf.rs:412-421 | two files that differ in the order of an empty page-aligned load and a load at its address; one is accepted and the other not |
| HeaderOrder.PlanIgnoresOrder | rust/src/layout.rs:147-241 | a permuted table asks for the same reservation, and its plan succeeds or fails alike and is the same up to the `idx` labels |
| Layout.SegmentBounds | rust/src/layout.rs:183-217 | the bounds that keep every unchecked addition and subtraction of one segment inside 64 bits, `p_offset - fdelta` included |
| Layout.PlanSegment | rust/src/layout.rs:183-226 | the loop body, with its arithmetic on 64-bit words, gives the file, zero and anonymous pieces; its checked operations never fail |
| Layout.Plan | rust/src/layout.rs:147-241 | `plan` returns the specified plan or error on every valid placement; the next rows say what that is without naming it |
| Layout.ProtOfFlags | rust/src/layout.rs:32-44 | a header's protection is bit 2 of its flag word to read, bit 1 to write and bit 0 to execute, for every flag word |
| Layout.SuitsExactly | rust/src/layout.rs:139-141 | the multiples of `seg_align` are exactly the page boundaries that are multiples of every load's alignment, or of 2 MiB where a load asks for more |
| Layout.BaseIsLeast | rust/src/layout.rs:161-167 | the base of a plan is the first such address at or above the reservation's start, and the reservation is exactly the span plus the least positive such address less a page |
| Layout.SpanIsTight | rust/src/layout.rs:147-173 | the span starts in the first load's first page and ends with the last load's last; at the link address the bias is zero and the reservation is the span |
| Layout.ReservationExactly | rust/src/layout.rs:131-137 | there is a reservation length if and only if rounding up the last load's end and adding the slack stay inside 64 bits, and which one it is |
| Layout.PlanRefusesExactly | rust/src/layout.rs:161-166 | the guard refuses a place if and only if the first suitable address there lies below the image's first page or the entry point moved with it leaves 64 bits |
| Layout.PlanFailsExactly | rust/src/layout.rs:161-166 | `plan` fails if and only if a base has to be chosen and the aligned base lies below the lowest link address or the biased entry overflows; aligning itself never overflows |
| Layout.PlansEverywhereExactly | rust/src/layout.rs:161-229 | no reservation the system may choose makes `plan` fail, if and only if the image is linked at zero and its entry point lies below the first multiple of its alignment past its end |
| Layout.PlansAlignedExactly | rust/src/layout.rs:161-229 | no aligned block does, if and only if it is linked at zero and entered below one alignment step past its rounded-up end |
| Layout.PlanIsSound | rust/src/layout.rs:147-241 | every successful plan of an accepted image keeps its segments inside the reservation and page-disjoint, and ends below 2^64 |
| Layout.RangeOf | rust/src/layout.rs:82-95 | `range()` is exactly the page-rounded range of a segment that owns a page, and empty at zero otherwise |
| Layout.PlansDifferByAShift | rust/src/layout.rs:161-227 | two successful plans of one image differ by one page-multiple shift of addresses and in nothing else |
| Layout.PhdrInLoadsSound | rust/src/layout.rs:260-269 | the PT_LOAD fallback answers through the first load whose file part holds the table's first byte |
| Layout.PhdrMissingExactly | rust/src/layout.rs:251-270 | there is no AT_PHDR if and only if PT_PHDR overflows, or neither it nor any load has the table |
| Layout.PhdrTakenExactly | rust/src/layout.rs:251-259 | PT_PHDR is answered if and only if its link address lies between the first load's first page and the last load's last |
| Layout.PhdrSegmentExactly | rust/src/layout.rs:251-259 | the answer taken from PT_PHDR lies in the pages of a load if and only if its link address does, and such a PT_PHDR is always answered |
| AddressSpace.StaysHeld | rust/src/loader.rs:34-47 | a run without releases keeps every mapped address mapped |
| VirtualMemory.Vm.Map | rust/src/loader.rs:18-36 | a mapping that is not exact uses free addresses only, an exact one replaces what is there, a refusal changes nothing, and passing over a free hint counts as declining it |
| VirtualMemory.Vm.AllocAligned | rust/src/loader.rs:45-45 | a block is aligned, free before, writable after, with arbitrary contents |
| MappedOps.SegOpsCell | rust/src/loader.rs:158-206 | what the map, zero, map and protect steps of one segment leave at each of its addresses: linked byte, header protection, backing |
| MappedOps.SegOpsLegal | rust/src/loader.rs:158-206 | on held memory each of those steps is enabled when its turn comes; the tail is writable when it is cleared |
| MappedOps.FillLegal | rust/src/loader.rs:150-221 | the same for the whole fill of any sound plan |
| MappedOps.FilledCell | rust/src/loader.rs:150-221 | no other segment and no later step disturbs an address of a segment |
| CopiedOps.ChunkCell | rust/src/loader.rs:276-282 | however the 64 KiB loop cuts the file part, each address ends with its own file byte |
| CopiedOps.ChunkAt | rust/src/loader.rs:276-282 | chunk `i` is 64 KiB of the file part from `i` times 64 KiB on, or what is left of it, at the same distance from the segment's address |
| CopiedOps.CopiedCell | rust/src/loader.rs:272-308 | after the copy and the protection pass each linked address holds its linked byte, with the header protection unless that was refused |
| CopiedOps.CopyLegal | rust/src/loader.rs:272-291 | every store of the copy hits writable memory of the block |
| Loader.FillSegment | rust/src/loader.rs:158-206 | issues the segment's operations, all of them on success and a prefix on failure, which only a declined operation causes |
| Loader.FillMapped | rust/src/loader.rs:150-221 | the same for the whole fill, the instruction-cache pass included |
| Loader.Unload | rust/src/loader.rs:58-69 | releases the reservation or block as a whole; a refused unmap changes nothing and is recorded |
| Loader.TakeLinkAddress | rust/src/loader.rs:121-135 | a fixed image gets its own free address or nothing: a hint that lands elsewhere is given back and displaces nothing; with nothing declined that happens only when something lay in its pages |
| Loader.AbortRestores | rust/src/loader.rs:143-146 | whatever prefix of the fill was issued, releasing the reservation restores the address space exactly |
| Loader.FailureRestoresExactly | rust/src/loader.rs:121-147 | a failing load leaves the address space as it was if and only if it took nothing, or its release was not refused and the guard of `plan` passes where the system placed the image |
| Rollback.RestoresAlwaysExactly | rust/src/loader.rs:121-147 | on each path, every failing load whose release goes through restores the space, if and only if the image is fixed, has nothing to reserve or plans wherever that path may put it |
| Rollback.PlanCanLeak | rust/src/loader.rs:137-137 | an accepted position-independent file whose entry point is the last address, and on each path a place where loading it loses the reservation |
| Rollback.ProgramRestoresAlwaysExactly | rust/src/program.rs:129-192 | giving up on a program and interpreter always leaves nothing once releases go through, if and only if the program is safe to fail and no place for it leaves the interpreter a place where its plan fails |
| Rollback.SafeProgramExactly | rust/src/program.rs:129-192 | for a position-independent program beside whose reservation the interpreter's fits, that condition holds if and only if both images plan wherever their paths may put them |
| Loader.LoadMapped | rust/src/loader.rs:106-148 | success is a complete mapped load of the image's own plan on addresses that were free; failure is nothing, an aborted run or the plan leak, and has a cause: a declined operation, before anything is taken no reservation length, something in the link pages of a fixed image, or the plan's guard at the place taken |
| CopyLoader.CopyChunks | rust/src/loader.rs:276-282 | the read and write loop issues the chunked writes, a prefix on failure |
| CopyLoader.FillCopied | rust/src/loader.rs:261-309 | copy, synchronise, protect on success; a prefix of the copy on failure |
| CopyLoader.LoadCopied | rust/src/loader.rs:229-259 | success is a complete copied load on a free, aligned block of a position-independent image whose file parts can all be read; failure as for the mapped path on such a block, its causes including a fixed image and an unreadable part |
| CopyLoader.Load | rust/src/loader.rs:78-94 | maps exactly when files can be mapped and there is a descriptor, with the outcome of the chosen path and no failure without a cause |
| LoadTheorems.LoadedFile | rust/src/loader.rs:150-309 | for every accepted file of known size and any placement, a successful load by either path puts each load's file bytes at link address plus bias and zeroes from there to its page-rounded end |
| LoadTheorems.PlacedRight | rust/src/loader.rs:119-137 | a loaded position-independent image sits at the first address of its reservation that suits every load, a fixed one at its own address with bias zero |
| LoadTheorems.ReadableExactly | rust/src/loader.rs:276-282 | copying can read the file if and only if every file part lies in it, which every accepted file of known size meets |
| LoadTheorems.MappedImage | rust/src/loader.rs:150-221 | the memory image of the mapped path, for any image and file size |
| LoadTheorems.MappedElsewhere | rust/src/loader.rs:106-148 | every other address of the reservation is an inaccessible zero, and nothing outside it changes |
| LoadTheorems.MappedProtections | rust/src/layout.rs:32-44 | every page of a segment has exactly the protection the bits of its flag word ask for, every gap or slack page is still inaccessible |
| LoadTheorems.MappedWriteXorExec | rust/src/loader.rs:158-206 | no page of the final mapped image is writable and executable unless some header asks for both |
| LoadTheorems.CopiedProtections | rust/src/loader.rs:298-307 | every page of a segment of the copied block has the protection its flag word asks for unless that was refused; refused pages and gaps stay readable and writable |
| LoadTheorems.CopiedWriteXorExec | rust/src/loader.rs:298-307 | no page of the final block is writable and executable unless some header asks for both, whatever was refused |
| LoadTheorems.CopiedImage | rust/src/loader.rs:261-309 | the memory image of the copy path |
| LoadTheorems.PathsAgree | rust/src/loader.rs:106-309 | relative to their biases the two paths leave the same bytes over the page-rounded memory of every segment |
| LoadTheorems.ContainedFrame | rust/src/loader.rs:95-148 | in every intermediate state of a load all of the reservation is mapped and nothing outside it has changed |
| LoadTheorems.UnloadUndoesLoad | rust/src/loader.rs:58-69 | a successful load by either path followed by its release is the identity on the address space; a block is freed and a mapping unmapped |
| LoadTheorems.PhdrPointsAtTable | rust/src/layout.rs:251-274 | AT_PHDR is PT_PHDR's address and lies in `[base, end)` when that entry is covered; otherwise memory there holds the file from `e_phoff` on, to the end of that segment's file part |
| PhdrAddress.SegmentPhdrExactly | rust/src/layout.rs:251-259 | by either path, AT_PHDR taken from PT_PHDR inside a load points at the table if and only if the bytes linked there are the table's |
| PhdrAddress.MappedReadsExactly | rust/src/loader.rs:150-221 | after a mapped load a byte can be read at an address of the image if and only if some readable load has it there; gaps cannot be read |
| PhdrAddress.MappedPhdrExactly | rust/src/layout.rs:251-259 | so a table can be read at PT_PHDR's address if and only if at each byte some readable load has the table's |
| PhdrAddress.PhdrCanMissLoads | rust/src/layout.rs:253-259 | an accepted file that can be planned and whose AT_PHDR, in every plan, lies between its loads |
| PhdrAddress.PhdrCanOverflow | rust/src/layout.rs:255-255 | an accepted file with the table in a load and no AT_PHDR at any non-zero bias |
| Interleaving.Undisturbed | rust/src/loader.rs:95-105 | under every interleaving with others who map wherever there is room, the reservation holds what the loader alone would put there and the rest what the others alone would |
| Interleaving.LegalAmongOthers | rust/src/loader.rs:95-105 | the loader's steps stay enabled under every interleaving, so each store hits its own writable memory |
| Interleaving.InterleavedImage | rust/src/loader.rs:95-148 | a load among others leaves the same image as a load alone, and the others' memory untouched |
| Interleaving.InterleavedRollback | rust/src/loader.rs:143-146 | giving up among others leaves exactly what the others alone would have made |
| Interleaving.MappedLoadLegal | rust/src/loader.rs:106-221 | a mapped load is a legal run: every write and zero hits held, writable memory |
| Interleaving.CopiedLoadLegal | rust/src/loader.rs:229-309 | so is a copied load |
| Icache.MappedPublishes | rust/src/loader.rs:208-217 | every byte the mapped path clears in an executable segment is synchronised afterwards and not stored to again |
| Icache.CopiedPublishes | rust/src/loader.rs:272-296 | so is every byte the copy path writes or clears there |
| Program.LoadProgram | rust/src/program.rs:129-192 | success: both images in memory at once by their own plans on disjoint reservations, and unloading restores the space; failure: the run is tied to the files and images that were tried, the space is as before if and only if that leaves nothing, and unless the system declined something the run met a cause: before any load no image (ENOENT, ENOTSUP or ENOEXEC by kind), an executable stack or no interpreter path; in a load what the load of that image met |
| Program.NoCauseToFail | rust/src/program.rs:129-192 | a program has no such cause, and so is loaded unless something is declined, when it is accepted and wants no executable stack, it and its interpreter have reservation lengths, each is position independent with a plan that fails nowhere (and readable, if copied), or the program is fixed, mapped and its own pages are free |
| Program.ProgramRestoresExactly | rust/src/program.rs:165-183 | giving up leaves the address space as it was if and only if each release went through and the image that failed was placed where its plan succeeds |
| Program.EntryPoint | rust/src/program.rs:41-57 | execution begins at the interpreter's entry point plus its bias, or without one at the program's own; AT_ENTRY is always the program's entry plus its bias |
| Program.LoadInterp | rust/src/program.rs:194-221 | only a position-independent image without an interpreter of its own is loaded, and failure needs a declined operation, a file that is no such image, or what the load of the image met |
| Program.AddInterp | rust/src/program.rs:165-183 | the second load leaves the first image intact and apart; its failure is that of the interpreter named, and is followed by the release of the first |
| Program.SecondLoadApart | rust/src/program.rs:165-183 | a load on free addresses never meets a range that is held, and leaves the image there as it is |
| Program.UnloadProgram | rust/src/program.rs:91-96 | issues the interpreter's release, then the program's, whether or not the first goes through |
| Program.InterpAtBase | rust/src/program.rs:48-57 | every interpreter byte linked at `v` sits at AT_BASE plus `v`, whatever the first `p_vaddr` |
| InitialStack.CheckArgEnvSize | rust/src/auxv.rs:142-159 | passes exactly when bytes, terminators and pointers are within the budget; the overflow checks agree with the unbounded sum |
| InitialStack.PolicyExactly | rust/src/auxv.rs:142-159 | the budget is met if and only if all string bytes and nine more for each string are at most 131072, or four times that is at most the stack size |
| InitialStack.StackMem.Write | rust/src/sys.rs:374-389 | lets through exactly what lies inside the stack or misleads the saturating check, and in the first case changes only what it names |
| InitialStack.SaturatedCheckExactly | rust/src/sys.rs:377-377 | the saturating bounds check is right if and only if the range does not leave 64 bits under a stack that reaches the last address |
| InitialStack.SaturationCanMislead | rust/src/sys.rs:377-377 | two bytes at the last address pass it |
| InitialStack.Pusher.PushCstr | rust/src/auxv.rs:182-188 | succeeds exactly when string and terminator fit, and leaves both at the new stack pointer |
| InitialStack.PushStrings | rust/src/auxv.rs:227-239 | pushes in reverse and reverses the addresses: address `i` holds string `i` |
| InitialStack.BuildStack | rust/src/auxv.rs:198-318 | succeeds if and only if the size policy passes and the closed-form pointer is not below the bottom; then it is 16-aligned, the lowest byte written, and the whole block is laid out from it; no run writes outside the stack |
| InitialStack.FinalSpExactly | rust/src/auxv.rs:207-290 | the stack pointer as plain sums: names, 16 random bytes on a multiple of 16, all strings with terminators, eight bytes a pointer and sixteen an auxiliary entry, down to a multiple of 16 |
| StackReader.DecodeLaid | rust/src/auxv.rs:332-361 | decoding a finished stack from `sp` gives every argument and environment string up to its first NUL, and the auxiliary vector |
| StackReader.RoundTrip | rust/src/auxv.rs:332-361 | for NUL-free inputs the round trip is exact, and AT_RANDOM, AT_PLATFORM and AT_EXECFN point at intact copies |
| StackReader.AuxKeysDistinct | rust/src/auxv.rs:241-276 | no key of the auxiliary vector appears twice |
| Startup.AuxValues | rust/src/auxv.rs:241-276 | what a look-up finds under every key: AT_PHDR, AT_PHENT and AT_PHNUM all or none, page size, base, flags 0, entry, uid twice, gid twice, secure, clock tick and both capability words as given, the three copied blobs, the optional keys as given, and no other key |
| Startup.StackDescribes | rust/src/testutil.rs:732-750 | the same of the vector decoded from the bytes of any finished stack, with intact copies where AT_RANDOM, AT_PLATFORM and AT_EXECFN point |
| Startup.StartupDecodes | rust/src/program.rs:59-89 | start-up code that decodes the stack of a loaded program finds AT_ENTRY equal to `e_entry` plus the bias, AT_BASE the interpreter's bias, AT_PHDR the address of the table with AT_PHENT `e_phentsize` and AT_PHNUM `e_phnum`, and page size, ids, capabilities, names and random bytes those of the environment, with clock tick 100 and secure 0 |
| Startup.StartupFindsInterp | rust/src/program.rs:59-89 | through AT_BASE it finds every interpreter byte, and the interpreter's entry point where execution begins |
| Startup.StartupFindsHeaders | rust/src/program.rs:59-89 | through AT_PHDR it finds the table whenever the answer comes from a load, with or without a PT_PHDR, and no AT_PHDR exactly in the two cases above |
| Startup.StartupTrustsPhdr | rust/src/program.rs:59-89 | when the answer comes from a PT_PHDR inside a load it finds the table if and only if the bytes linked there are the table's, and so whenever PT_PHDR names the place where the load has it |
| FileSource.File.ReadExactAt | rust/src/sys.rs:290-309 | terminates for every sequence of short reads and either fills the buffer with the file's bytes or fails; unless some `pread` failed it fails exactly as the slice source does |
| IntervalMap.FakeVm.Punch | rust/src/testutil.rs:441-477 | removes exactly the range and keeps contents, protection and file offset of every other address |
| IntervalMap.FakeVm.FirstFit | rust/src/testutil.rs:479-491 | returns a range at or above the base that meets no region, and no smaller one there would do |
| IntervalMap.FitsIsFree | rust/src/testutil.rs:479-491 | such a range is free in the flat view |
| IntervalMap.OverlapIsTaken | rust/src/testutil.rs:479-491 | and a range that meets a region is not |
| IntervalMap.FakeVm.Lookup | rust/src/testutil.rs:409-438 | the predecessor lookup agrees with the flat map at every address |
| IntervalMap.FakeVm.Map | rust/src/testutil.rs:509-558 | keeps the refinement, honours a hint exactly when it is free and uses the least free range otherwise; an assertion or slice stops it on an unaligned length or address, an unknown descriptor or an offset past the end of the file, never on its own choice among page-aligned regions |
| IntervalMap.FakeVm.Unmap | rust/src/testutil.rs:560-565 | keeps the refinement |
| IntervalMap.FakeVm.AllocAligned | rust/src/testutil.rs:627-646 | the next aligned block of the heap; keeps the refinement when the range was free |
| IntervalMap.FakeVm.FreeAligned | rust/src/testutil.rs:648-652 | keeps the refinement |
| IntervalMap.FakeVm.Write | rust/src/testutil.rs:584-600 | keeps the refinement: a store into one region is the flat store |
| IntervalMap.FakeVm.Zero | rust/src/testutil.rs:602-617 | keeps the refinement |
| IntervalMap.FakeVm.Protect | rust/src/testutil.rs:567-582 | its assertion stops it if and only if no region is met; otherwise it keeps the refinement if and only if each region it meets lies inside the range or has that protection already |
| IntervalMap.ProtectExactly | rust/src/testutil.rs:567-582 | the same about the regions alone |
| IntervalMap.ProtectSpills | rust/src/testutil.rs:577-579 | protecting the first page of a two-page region changes the second |
| IntervalMap.ValidIsSpace | rust/src/testutil.rs:500-620 | while the refinement holds the regions are the flat address space that the operations make of an empty one |
| FakeLoad.FakeFillSegment | rust/src/loader.rs:158-206 | the mapped loader's steps for one segment keep the refinement on the interval map, the re-protection of whole regions included; it is stopped if and only if the file ends before the segment's pages begin |
| FakeLoad.FakeLoadMapped | rust/src/loader.rs:106-221 | from the first-fit or hinted reservation on, a mapped load on the interval map is a complete mapped load of the flat space, so every theorem about those holds of what is looked up there; it is stopped only where the reservation leaves 64 bits or the file ends before the pages of a load, and fails only for the loader's own reasons |
| FakeLoad.FakeHoldsImage | rust/src/loader.rs:392-415 | a lookup of any linked address then finds the linked byte |
| FakeCopy.FakeProtectPass | rust/src/loader.rs:298-307 | the protection pass on the interval map is stopped by an assertion if and only if some load owns no page |
| FakeCopy.PassIsFlatExactly | rust/src/testutil.rs:567-582 | on one region holding the block, the pass gives the flat space if and only if all loads ask for one protection and it is read-write or their pages fill the block |
| FakeCopy.GapExactly | rust/src/layout.rs:131-145 | an aligned block has a page of no load, unless its alignment is the page and the loads touch |
| FakeCopy.FakeLoadCopied | rust/src/loader.rs:229-309 | a copied load on the interval map is a complete copied load of the flat space; the regions end with that space's bytes and backing always, and with its protections if and only if the image has one protection as above; it fails only for the loader's own reasons |
| FakeCopy.FakeHoldsCopy | rust/src/loader.rs:511-519 | so a lookup of any linked address finds the linked byte, whatever the protections |
| FakeCopy.CopyCanSpill | rust/src/loader.rs:298-307 | an accepted file whose copied text ends readable and writable on the interval map where the flat space has it readable and executable |

## Left out

- glue/shim.c, rust/src/rt.rs and the foreign calls of rust/src/sys.rs: they appear only as the contracts of `Vm`, `File` and `StackMem`.
- rust/src/app.rs and rust/src/binfmt.rs: thread creation and command-line glue around the modelled functions.
- rust/src/log.rs, rust/src/util.rs, rust/src/err.rs and all log messages, the entry-point warning included: they decide nothing.
- autogen, vdso, scripts and build files: not part of loading.
- Allocation failure (`try_reserve`) in the parser, the planner, the copy buffer and the stack builder: not decided by this code; every other failure is modelled.
- Program.LoadProgram: once a load has begun, which errno a failure carries is not modelled; before that it is.
- PT_TLS, PT_GNU_RELRO and header fields nothing downstream reads: recorded by the source, unused by loading.
- Protection bits are three booleans, so the numeric PROT_ and PF_ constants are modelled by what they mean.
- File mappings read zero past the end of the file; demand paging and the fault such an access can raise are not modelled.
- The filler pattern, overlays and size rounding of the test image builder: `ElfWriter.Wrote` allows any bytes after the table.
- Real caches: the instruction-cache theorems are about the order of operations in the trace.
- Hardware capabilities and the signal stack size are parameters of `AuxvOf`.
- Startup checks of the caller (`name` strings, executable bits of files): they do not reach the loader.
- VirtualMemory.Vm.Map: declines arguments that are not page-aligned, empty or out of range; which error the system gives is not modelled.
- LoadTheorems.MappedWriteXorExec: speaks of the final state only, because the code opens a write window while it clears a tail; `LoadTheorems.CopiedWriteXorExec` is its counterpart for the copy path.
- Program.OpenImage: an I/O fault while headers or the interpreter path are read is a failed call as a whole, not a fault of one particular read.
- IntervalMap.FakeVm.Map: asks for a positive length; an empty region is not modelled, so the loaders on the interval map ask for an image that spans a page.
- IntervalMap.FakeVm.AllocAligned: promises the flat view only when the range was free, because the source inserts the block without looking.
- InitialStack.StackMem.Write: promises nothing about memory where saturation misleads the check, because the source then writes past the last address.
- FileSource.File.ReadExactAt: an I/O fault is a failed `pread`; its error number is not kept.
- IntervalMap.FakeVm.Write: requires the range to lie in one writable region, which the source asserts.
