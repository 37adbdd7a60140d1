/** The bounds-checked ELF64 reader: what `Image::parse` accepts and what an accepted image guarantees. */
module Elf {
  import opened Words

  type u32 = x: int | 0 <= x < 0x1_0000_0000
  type u16 = x: int | 0 <= x < 0x1_0000

  const EHDR_SIZE := 64
  const PHDR_SIZE := 56
  const ET_EXEC: u16 := 2
  const ET_DYN: u16 := 3
  const PHNUM_MAX: u16 := 1024
  const PN_XNUM: u16 := 0xffff
  const INTERP_MAX: u64 := 4096
  const PT_LOAD: u32 := 1
  const PT_INTERP: u32 := 3
  const PT_PHDR: u32 := 6
  const PT_GNU_STACK: u32 := 0x6474_e551

  datatype Ehdr = Ehdr(ident: seq<byte>, etype: u16, machine: u16, version: u32,
                       entry: u64, phoff: u64, phentsize: u16, phnum: u16)

  datatype Phdr = Phdr(ptype: u32, flags: u32, offset: u64, vaddr: u64, paddr: u64,
                       filesz: u64, memsz: u64, align: u64)
  {
    // PF_X is bit 0, PF_W bit 1 and PF_R bit 2.
    predicate IsExec() { flags % 2 == 1 }
    predicate IsWrite() { (flags / 2) % 2 == 1 }
    predicate IsRead() { (flags / 4) % 2 == 1 }
  }

  /** The three questions about a header are its three low flag bits. */
  lemma FlagBits(ph: Phdr)
    ensures ph.IsExec() <==> BitAnd(ph.flags, 1) != 0
    ensures ph.IsWrite() <==> BitAnd(ph.flags, 2) != 0
    ensures ph.IsRead() <==> BitAnd(ph.flags, 4) != 0
  {
    LowBits(ph.flags);
  }

  datatype Reject = NotElf | Unsupported | Malformed

  /** `loads` holds the indices of the PT_LOAD entries in ascending `vaddr`. */
  datatype Image = Image(ehdr: Ehdr, phdrs: seq<Phdr>, loads: seq<nat>,
                         interp: Option<Phdr>, phdrSeg: Option<Phdr>, execStack: bool)
  {
    function Load(k: nat): Phdr
      requires k < |loads| && loads[k] < |phdrs|
    {
      phdrs[loads[k]]
    }
  }

  /** A random-access image source; `sizeKnown` is false when the file system cannot say. */
  datatype Source = Source(bytes: seq<byte>, sizeKnown: bool)
  {
    predicate Valid() { |bytes| < U64_LIMIT }

    function Size(): Option<u64>
      requires Valid()
    {
      if sizeKnown then Some(|bytes|) else None
    }

    predicate CanRead(off: int, n: int) { 0 <= off && 0 <= n && off + n <= |bytes| }
  }

  // ------------------------------------------------------------ field readers

  function U16Le(b: seq<byte>, off: nat): u16
    requires off + 2 <= |b|
  {
    FromLeBound(b[off..off + 2]); Pow256Values(); FromLe(b[off..off + 2])
  }

  function U32Le(b: seq<byte>, off: nat): u32
    requires off + 4 <= |b|
  {
    FromLeBound(b[off..off + 4]); Pow256Values(); FromLe(b[off..off + 4])
  }

  function U64Le(b: seq<byte>, off: nat): u64
    requires off + 8 <= |b|
  {
    FromLeBound(b[off..off + 8]); Pow256Values(); FromLe(b[off..off + 8])
  }

  function DecodeEhdr(raw: seq<byte>): Ehdr
    requires |raw| >= EHDR_SIZE
  {
    Ehdr(raw[..16], U16Le(raw, 16), U16Le(raw, 18), U32Le(raw, 20),
         U64Le(raw, 24), U64Le(raw, 32), U16Le(raw, 54), U16Le(raw, 56))
  }

  function DecodePhdr(raw: seq<byte>): Phdr
    requires |raw| == PHDR_SIZE
  {
    Phdr(U32Le(raw, 0), U32Le(raw, 4), U64Le(raw, 8), U64Le(raw, 16),
         U64Le(raw, 24), U64Le(raw, 32), U64Le(raw, 40), U64Le(raw, 48))
  }

  // ------------------------------------------------------- what parse accepts

  predicate IdentOk(ident: seq<byte>)
  {
    |ident| == 16 && ident[..4] == [0x7f, 0x45, 0x4c, 0x46]
    && ident[4] == 2 && ident[5] == 1 && ident[6] == 1
  }

  predicate HeaderOk(e: Ehdr, native: u16)
  {
    IdentOk(e.ident)
    && e.ident[7] in [0, 3, 64]
    && e.machine == native
    && (e.etype == ET_DYN || e.etype == ET_EXEC)
    && e.version == 1
    && 0 < e.phnum <= PHNUM_MAX
    && PHDR_SIZE <= e.phentsize
  }

  function EntryOffset(e: Ehdr, i: nat): int { e.phoff + i * e.phentsize }

  /** The program header table does not overflow, lies in the file when its size is known, and
      every entry can be read. */
  predicate TableOk(src: Source, e: Ehdr)
    requires src.Valid()
  {
    EntryOffset(e, e.phnum) < U64_LIMIT
    && (src.sizeKnown ==> EntryOffset(e, e.phnum) <= |src.bytes|)
    && forall i {:trigger EntryOffset(e, i)} :: 0 <= i < e.phnum ==> src.CanRead(EntryOffset(e, i), PHDR_SIZE)
  }

  function PhdrAt(src: Source, e: Ehdr, i: nat): Phdr
    requires src.CanRead(EntryOffset(e, i), PHDR_SIZE)
  {
    DecodePhdr(src.bytes[EntryOffset(e, i)..EntryOffset(e, i) + PHDR_SIZE])
  }

  function Table(src: Source, e: Ehdr): seq<Phdr>
    requires src.Valid() && TableOk(src, e)
  {
    seq(e.phnum, i requires 0 <= i < e.phnum => PhdrAt(src, e, i))
  }

  predicate ValidLoad(ph: Phdr, page: u64, size: Option<u64>)
    requires page > 0
  {
    ph.filesz <= ph.memsz
    && (ph.align == 0 || IsPow2(ph.align))
    && ph.vaddr + ph.memsz < U64_LIMIT
    && ph.offset + ph.filesz < U64_LIMIT
    && (size.Some? ==> ph.offset + ph.filesz <= size.value)
    && (ph.filesz != 0 ==> Rem(ph.vaddr, page) == Rem(ph.offset, page))
  }

  predicate ValidInterp(ph: Phdr, size: Option<u64>)
  {
    0 < ph.filesz <= INTERP_MAX && (size.Some? ==> ph.offset + ph.filesz <= size.value)
  }

  /** Indices below `n` of the PT_LOAD entries, in table order. */
  function LoadIndices(phdrs: seq<Phdr>, n: nat): (r: seq<nat>)
    requires n <= |phdrs|
    ensures forall k :: 0 <= k < |r| ==> r[k] < n && phdrs[r[k]].ptype == PT_LOAD
    ensures forall j, k :: 0 <= j < k < |r| ==> r[j] < r[k]
    ensures forall i :: 0 <= i < n && phdrs[i].ptype == PT_LOAD ==> i in r
  {
    if n == 0 then []
    else if phdrs[n - 1].ptype == PT_LOAD then LoadIndices(phdrs, n - 1) + [n - 1]
    else LoadIndices(phdrs, n - 1)
  }

  /** The last entry of type `t` below `n`: later entries override earlier ones. */
  function LastOf(phdrs: seq<Phdr>, n: nat, t: u32): Option<Phdr>
    requires n <= |phdrs|
  {
    if n == 0 then None
    else if phdrs[n - 1].ptype == t then Some(phdrs[n - 1])
    else LastOf(phdrs, n - 1, t)
  }

  predicate WantsExecStack(gnuStack: Option<Phdr>) { gnuStack.Some? && gnuStack.value.IsExec() }

  predicate InTable(phdrs: seq<Phdr>, idx: seq<nat>) { forall k :: 0 <= k < |idx| ==> idx[k] < |phdrs| }

  /** Insert `x` after every entry whose address is not greater: the stable order. */
  function InsertLoad(phdrs: seq<Phdr>, sorted: seq<nat>, x: nat): (r: seq<nat>)
    requires InTable(phdrs, sorted) && x < |phdrs|
    ensures InTable(phdrs, r) && multiset(r) == multiset(sorted) + multiset{x}
  {
    if sorted == [] then [x]
    else
      var n := |sorted| - 1;
      assert sorted == sorted[..n] + [sorted[n]];
      if phdrs[sorted[n]].vaddr <= phdrs[x].vaddr then sorted + [x]
      else InsertLoad(phdrs, sorted[..n], x) + [sorted[n]]
  }

  /** `loads.sort_by_key(p_vaddr)`, a stable sort. */
  function SortLoads(phdrs: seq<Phdr>, idx: seq<nat>): (r: seq<nat>)
    requires InTable(phdrs, idx)
    ensures InTable(phdrs, r) && multiset(r) == multiset(idx)
  {
    if idx == [] then []
    else
      var n := |idx| - 1;
      assert idx == idx[..n] + [idx[n]];
      InsertLoad(phdrs, SortLoads(phdrs, idx[..n]), idx[n])
  }

  function SortedLoads(phdrs: seq<Phdr>): (r: seq<nat>)
    ensures InTable(phdrs, r)
  {
    SortLoads(phdrs, LoadIndices(phdrs, |phdrs|))
  }

  function MemEnd(ph: Phdr): int { ph.vaddr + ph.memsz }

  /** Entry `k` ends, rounded up to a page, at or below the start of the next entry. */
  predicate SeparatedAt(phdrs: seq<Phdr>, loads: seq<nat>, k: nat, page: u64)
    requires page > 0 && InTable(phdrs, loads) && k + 1 < |loads|
  {
    Up(MemEnd(phdrs[loads[k]]), page) <= phdrs[loads[k + 1]].vaddr
  }

  predicate EntryOk(ph: Phdr, page: u64, size: Option<u64>)
    requires page > 0
  {
    (ph.ptype == PT_LOAD ==> ValidLoad(ph, page, size)) && (ph.ptype == PT_INTERP ==> ValidInterp(ph, size))
  }

  /** At most one of the first `n` entries has type `t`. */
  predicate AtMostOne(phdrs: seq<Phdr>, n: nat, t: u32)
    requires n <= |phdrs|
  {
    forall i, j :: 0 <= i < j < n && phdrs[i].ptype == t ==> phdrs[j].ptype != t
  }

  /** The checks made entry by entry: valid loads, at most one plausible PT_INTERP. */
  predicate EntriesOk(phdrs: seq<Phdr>, n: nat, page: u64, size: Option<u64>)
    requires page > 0 && n <= |phdrs|
  {
    (forall i :: 0 <= i < n ==> EntryOk(phdrs[i], page, size)) && AtMostOne(phdrs, n, PT_INTERP)
  }

  predicate AcceptsTable(phdrs: seq<Phdr>, page: u64, size: Option<u64>)
    requires page > 0
  {
    var loads := SortedLoads(phdrs);
    EntriesOk(phdrs, |phdrs|, page, size)
    && loads != []
    && (forall k :: 0 <= k < |loads| - 1 ==> SeparatedAt(phdrs, loads, k, page))
  }

  predicate Accepts(src: Source, page: u64, native: u16)
    requires src.Valid() && page > 0
  {
    |src.bytes| >= EHDR_SIZE
    && var e := DecodeEhdr(src.bytes[..EHDR_SIZE]);
       HeaderOk(e, native) && TableOk(src, e) && AcceptsTable(Table(src, e), page, src.Size())
  }

  // ------------------------------------------------- what kind of rejection

  /** An ELF header this loader will not run: ABI, machine, type, or an extended header count. */
  predicate ForeignHeader(e: Ehdr, native: u16)
  {
    IdentOk(e.ident)
    && (e.ident[7] !in [0, 3, 64] || e.machine != native || (e.etype != ET_DYN && e.etype != ET_EXEC)
        || (e.version == 1 && e.phnum == PN_XNUM))
  }

  /** The first entry that is refused is a second PT_INTERP. */
  predicate RepeatsInterp(phdrs: seq<Phdr>, page: u64, size: Option<u64>)
    requires page > 0
  {
    exists i :: 0 <= i < |phdrs| && SecondInterp(phdrs, i) && EntriesOk(phdrs, i, page, size)
  }

  predicate SecondInterp(phdrs: seq<Phdr>, i: nat)
    requires i < |phdrs|
  {
    phdrs[i].ptype == PT_INTERP && exists j :: 0 <= j < i && phdrs[j].ptype == PT_INTERP
  }

  predicate IsElf(src: Source)
  {
    |src.bytes| >= EHDR_SIZE && IdentOk(DecodeEhdr(src.bytes[..EHDR_SIZE]).ident)
  }

  /** An ELF file this loader will not run, as opposed to one that is broken. */
  predicate Foreign(src: Source, page: u64, native: u16)
    requires src.Valid() && page > 0
  {
    |src.bytes| >= EHDR_SIZE
    && var e := DecodeEhdr(src.bytes[..EHDR_SIZE]);
       ForeignHeader(e, native)
       || (HeaderOk(e, native) && TableOk(src, e) && RepeatsInterp(Table(src, e), page, src.Size()))
  }

  function FromTable(e: Ehdr, t: seq<Phdr>): Image
  {
    Image(e, t, SortedLoads(t), LastOf(t, |t|, PT_INTERP), LastOf(t, |t|, PT_PHDR),
          WantsExecStack(LastOf(t, |t|, PT_GNU_STACK)))
  }

  function ImageOf(src: Source): Image
    requires src.Valid() && |src.bytes| >= EHDR_SIZE && TableOk(src, DecodeEhdr(src.bytes[..EHDR_SIZE]))
  {
    var e := DecodeEhdr(src.bytes[..EHDR_SIZE]);
    FromTable(e, Table(src, e))
  }

  // -------------------------------------------------------------- the parser

  /** `read_exact_at` of an in-memory source. */
  function ReadExact(src: Source, off: int, n: nat): Option<seq<byte>>
  {
    if src.CanRead(off, n) then Some(src.bytes[off..off + n]) else None
  }

  /** Reads the table entry by entry; fails as soon as one cannot be read. */
  method ReadTable(src: Source, e: Ehdr) returns (r: Option<seq<Phdr>>)
    requires src.Valid()
    ensures r.Some? <==> TableOk(src, e)
    ensures r.Some? ==> r.value == Table(src, e)
  {
    if EntryOffset(e, e.phnum) >= U64_LIMIT { return None; }
    if src.sizeKnown && EntryOffset(e, e.phnum) > |src.bytes| { return None; }
    var phdrs := [];
    for i := 0 to e.phnum
      invariant |phdrs| == i
      invariant forall k :: 0 <= k < i ==> src.CanRead(EntryOffset(e, k), PHDR_SIZE) && phdrs[k] == PhdrAt(src, e, k)
    {
      var ent := ReadExact(src, EntryOffset(e, i), PHDR_SIZE);
      if ent.None? {
        return None;
      }
      phdrs := phdrs + [DecodePhdr(ent.value)];
    }
    r := Some(phdrs);
  }

  /** The overlap scan over neighbours of the sorted loads, as the code writes it. */
  method CheckOverlap(phdrs: seq<Phdr>, loads: seq<nat>, page: u64) returns (ok: bool)
    requires IsPow2(page) && InTable(phdrs, loads)
    requires forall k :: 0 <= k < |loads| ==> MemEnd(phdrs[loads[k]]) < U64_LIMIT
    ensures ok <==> forall k :: 0 <= k < |loads| - 1 ==> SeparatedAt(phdrs, loads, k, page)
  {
    var k := 0;
    while k + 1 < |loads|
      invariant 0 <= k && k <= |loads| && (k == |loads| ==> k == 0)
      invariant forall j :: 0 <= j < k ==> SeparatedAt(phdrs, loads, j, page)
    {
      var a, b := phdrs[loads[k]], phdrs[loads[k + 1]];
      UpBounds(MemEnd(a), page);
      var aEnd := AlignUp(MemEnd(a), page);
      if aEnd.None? {
        if SeparatedAt(phdrs, loads, k, page) { AlignUpFits(MemEnd(a), Up(MemEnd(a), page), page); }
        assert !SeparatedAt(phdrs, loads, k, page);
        return false;
      }
      AlignBounds(b.vaddr, page);
      assert AlignDown(aEnd.value, page) == aEnd.value;
      if b.vaddr < aEnd.value && AlignDown(b.vaddr, page) < AlignDown(aEnd.value, page) {
        assert !SeparatedAt(phdrs, loads, k, page);
        return false;
      }
      k := k + 1;
    }
    ok := true;
  }

  lemma {:induction false} LastOfNone(phdrs: seq<Phdr>, n: nat, t: u32)
    requires n <= |phdrs|
    ensures LastOf(phdrs, n, t).None? <==> forall i :: 0 <= i < n ==> phdrs[i].ptype != t
  {
    if n > 0 { LastOfNone(phdrs, n - 1, t); }
  }

  /** One more entry is fine when it is valid itself and does not repeat PT_INTERP. */
  lemma EntriesOkStep(phdrs: seq<Phdr>, n: nat, page: u64, size: Option<u64>)
    requires page > 0 && n < |phdrs|
    ensures EntriesOk(phdrs, n + 1, page, size) <==>
            EntriesOk(phdrs, n, page, size) && EntryOk(phdrs[n], page, size)
            && (phdrs[n].ptype == PT_INTERP ==> LastOf(phdrs, n, PT_INTERP).None?)
  {
    LastOfNone(phdrs, n, PT_INTERP);
    assert AtMostOne(phdrs, n + 1, PT_INTERP) <==>
           AtMostOne(phdrs, n, PT_INTERP)
           && (phdrs[n].ptype == PT_INTERP ==> forall i :: 0 <= i < n ==> phdrs[i].ptype != PT_INTERP);
  }

  lemma EntriesOkPrefix(phdrs: seq<Phdr>, m: nat, n: nat, page: u64, size: Option<u64>)
    requires page > 0 && m <= n <= |phdrs| && EntriesOk(phdrs, n, page, size)
    ensures EntriesOk(phdrs, m, page, size)
  {
  }

  /** A table whose entries are fine up to one that is refused repeats PT_INTERP exactly there. */
  lemma FirstRefused(phdrs: seq<Phdr>, n: nat, page: u64, size: Option<u64>)
    requires page > 0 && n < |phdrs| && EntriesOk(phdrs, n, page, size) && !EntriesOk(phdrs, n + 1, page, size)
    ensures !EntriesOk(phdrs, |phdrs|, page, size)
    ensures RepeatsInterp(phdrs, page, size) <==> SecondInterp(phdrs, n)
  {
    if EntriesOk(phdrs, |phdrs|, page, size) { EntriesOkPrefix(phdrs, n + 1, |phdrs|, page, size); }
    forall i | 0 <= i < |phdrs| && EntriesOk(phdrs, i, page, size) ensures i <= n {
      if i > n { EntriesOkPrefix(phdrs, n + 1, i, page, size); }
    }
    OnlyOneInterp(phdrs, n, page, size);
  }

  lemma OnlyOneInterp(phdrs: seq<Phdr>, n: nat, page: u64, size: Option<u64>)
    requires page > 0 && n <= |phdrs| && EntriesOk(phdrs, n, page, size)
    ensures forall i :: 0 <= i < n ==> !SecondInterp(phdrs, i)
  {
  }

  /** The classification loop: validates each entry and records the ones a loader needs. A second
      PT_INTERP is unsupported, any other refused entry malformed. */
  method Classify(phdrs: seq<Phdr>, page: u64, size: Option<u64>)
    returns (bad: Option<Reject>, loads: seq<nat>, interp: Option<Phdr>, phdrSeg: Option<Phdr>, execStack: bool)
    requires page > 0
    ensures bad.None? <==> EntriesOk(phdrs, |phdrs|, page, size)
    ensures bad.Some? ==> bad.value == if RepeatsInterp(phdrs, page, size) then Unsupported else Malformed
    ensures bad.None? ==> loads == LoadIndices(phdrs, |phdrs|)
    ensures bad.None? ==> interp == LastOf(phdrs, |phdrs|, PT_INTERP) && phdrSeg == LastOf(phdrs, |phdrs|, PT_PHDR)
    ensures bad.None? ==> execStack == WantsExecStack(LastOf(phdrs, |phdrs|, PT_GNU_STACK))
  {
    bad, loads, interp, phdrSeg, execStack := None, [], None, None, false;
    for i := 0 to |phdrs|
      invariant loads == LoadIndices(phdrs, i)
      invariant interp == LastOf(phdrs, i, PT_INTERP) && phdrSeg == LastOf(phdrs, i, PT_PHDR)
      invariant execStack == WantsExecStack(LastOf(phdrs, i, PT_GNU_STACK))
      invariant EntriesOk(phdrs, i, page, size)
    {
      var ph := phdrs[i];
      EntriesOkStep(phdrs, i, page, size);
      LastOfNone(phdrs, i, PT_INTERP);
      if ph.ptype == PT_INTERP && interp.Some? {
        FirstRefused(phdrs, i, page, size);
        bad := Some(Unsupported);
        return;
      }
      if !EntryOk(ph, page, size) {
        FirstRefused(phdrs, i, page, size);
        bad := Some(Malformed);
        return;
      }
      loads := if ph.ptype == PT_LOAD then loads + [i] else loads;
      interp := if ph.ptype == PT_INTERP then Some(ph) else interp;
      phdrSeg := if ph.ptype == PT_PHDR then Some(ph) else phdrSeg;
      execStack := if ph.ptype == PT_GNU_STACK then ph.IsExec() else execStack;
    }
  }

  /** The executable header and its identification checks. */
  method ReadHeader(src: Source, native: u16) returns (r: Result<Ehdr, Reject>)
    ensures r.Ok? <==> |src.bytes| >= EHDR_SIZE && HeaderOk(DecodeEhdr(src.bytes[..EHDR_SIZE]), native)
    ensures r.Ok? ==> r.value == DecodeEhdr(src.bytes[..EHDR_SIZE])
    ensures r.Err? ==> (r.error.NotElf? <==> !IsElf(src))
    ensures r.Err? ==> (r.error.Unsupported? <==> IsElf(src) && ForeignHeader(DecodeEhdr(src.bytes[..EHDR_SIZE]), native))
  {
    var raw := ReadExact(src, 0, EHDR_SIZE);
    if raw.None? { return Err(NotElf); }
    var e := DecodeEhdr(raw.value);
    if !IdentOk(e.ident) { return Err(NotElf); }
    if e.ident[7] !in [0, 3, 64] || e.machine != native || (e.etype != ET_DYN && e.etype != ET_EXEC) {
      return Err(Unsupported);
    }
    if e.version != 1 { return Err(Malformed); }
    if e.phnum == PN_XNUM { return Err(Unsupported); }
    if e.phnum == 0 || e.phnum > PHNUM_MAX || e.phentsize < PHDR_SIZE {
      return Err(Malformed);
    }
    r := Ok(e);
  }

  lemma NoRepeat(phdrs: seq<Phdr>, page: u64, size: Option<u64>)
    requires page > 0 && EntriesOk(phdrs, |phdrs|, page, size)
    ensures !RepeatsInterp(phdrs, page, size)
  {
  }

  /** Classification, stable sort and overlap scan. */
  method AcceptTable(e: Ehdr, phdrs: seq<Phdr>, page: u64, size: Option<u64>) returns (r: Result<Image, Reject>)
    requires IsPow2(page)
    ensures r.Ok? <==> AcceptsTable(phdrs, page, size)
    ensures r.Ok? ==> r.value == FromTable(e, phdrs)
    ensures r.Err? ==> r.error == if RepeatsInterp(phdrs, page, size) then Unsupported else Malformed
  {
    var bad, loads, interp, phdrSeg, execStack := Classify(phdrs, page, size);
    if bad.Some? { return Err(bad.value); }
    NoRepeat(phdrs, page, size);
    SameElements(SortedLoads(phdrs), loads);
    if loads == [] { return Err(Malformed); }
    loads := SortLoads(phdrs, loads);
    var ok := CheckOverlap(phdrs, loads, page);
    if !ok { return Err(Malformed); }
    r := Ok(Image(e, phdrs, loads, interp, phdrSeg, execStack));
  }

  /** `Image::parse`: accepts exactly the images `Accepts` describes, and returns their decoded form.
      A rejection tells what is no ELF file from what this loader will not run and from what is broken. */
  method Parse(src: Source, page: u64, native: u16) returns (r: Result<Image, Reject>)
    requires src.Valid() && IsPow2(page)
    ensures r.Ok? <==> Accepts(src, page, native)
    ensures r.Ok? ==> r.value == ImageOf(src)
    ensures r.Err? ==> r.error == if !IsElf(src) then NotElf else if Foreign(src, page, native) then Unsupported else Malformed
  {
    var header := ReadHeader(src, native);
    if header.Err? { return Err(header.error); }
    var table := ReadTable(src, header.value);
    if table.None? { return Err(Malformed); }
    r := AcceptTable(header.value, table.value, page, src.Size());
  }

  lemma SameElements<T>(s: seq<T>, t: seq<T>)
    requires multiset(s) == multiset(t)
    ensures |s| == |t|
    ensures forall k :: 0 <= k < |s| ==> s[k] in t
  {
    assert |multiset(s)| == |s| && |multiset(t)| == |t|;
    forall k | 0 <= k < |s| ensures s[k] in t {
      assert s[k] in multiset(s);
    }
  }

  // ------------------------------------------- what an accepted image promises

  /** Everything later stages rely on: at least one load, each valid, and the page-rounded end of
      every load at or below the start of every later one. */
  predicate WellFormed(image: Image, page: u64)
  {
    IsPow2(page) && image.loads != [] && InTable(image.phdrs, image.loads)
    && (forall k :: 0 <= k < |image.loads| ==> ValidLoad(image.Load(k), page, None))
    && (forall i, j :: 0 <= i < j < |image.loads| ==> Up(MemEnd(image.Load(i)), page) <= image.Load(j).vaddr)
  }

  lemma {:induction false} SeparatedPairwise(phdrs: seq<Phdr>, loads: seq<nat>, page: u64, i: nat, j: nat)
    requires page > 0 && InTable(phdrs, loads) && i < j < |loads|
    requires forall k :: 0 <= k < |loads| - 1 ==> SeparatedAt(phdrs, loads, k, page)
    ensures Up(MemEnd(phdrs[loads[i]]), page) <= phdrs[loads[j]].vaddr
    decreases j
  {
    assert SeparatedAt(phdrs, loads, j - 1, page);
    if i < j - 1 {
      SeparatedPairwise(phdrs, loads, page, i, j - 1);
      UpBounds(MemEnd(phdrs[loads[j - 1]]), page);
    }
  }

  /** The checks on the table establish the invariants of the later stages, and with a known size
      every segment's file part lies inside the file. */
  lemma TableIsWellFormed(e: Ehdr, t: seq<Phdr>, page: u64, size: Option<u64>)
    requires IsPow2(page) && AcceptsTable(t, page, size)
    ensures WellFormed(FromTable(e, t), page)
    ensures size.Some? ==> forall k :: 0 <= k < |FromTable(e, t).loads| ==>
              FromTable(e, t).Load(k).offset + FromTable(e, t).Load(k).filesz <= size.value
  {
    var image := FromTable(e, t);
    SameElements(image.loads, LoadIndices(t, |t|));
    forall i, j | 0 <= i < j < |image.loads|
      ensures Up(MemEnd(image.Load(i)), page) <= image.Load(j).vaddr
    {
      SeparatedPairwise(t, image.loads, page, i, j);
    }
  }

  lemma AcceptedIsWellFormed(src: Source, page: u64, native: u16)
    requires src.Valid() && IsPow2(page) && Accepts(src, page, native)
    ensures WellFormed(ImageOf(src), page)
    ensures src.sizeKnown ==> forall k :: 0 <= k < |ImageOf(src).loads| ==>
              ImageOf(src).Load(k).offset + ImageOf(src).Load(k).filesz <= |src.bytes|
  {
    var e := DecodeEhdr(src.bytes[..EHDR_SIZE]);
    TableIsWellFormed(e, Table(src, e), page, src.Size());
  }

  // ------------------------------------------------- span, alignment, interp

  /** Lowest and highest page-aligned link address of the image. */
  function VaSpan(image: Image, page: u64): Result<(u64, u64), Errno>
    requires WellFormed(image, page)
  {
    var first, last := image.Load(0), image.Load(|image.loads| - 1);
    AlignBounds(first.vaddr, page);
    match AlignUp(MemEnd(last), page)
    case None => Err(ENOEXEC)
    case Some(hi) => Ok((AlignDown(first.vaddr, page), hi))
  }

  /** Every load lies, page-rounded, inside the span. */
  lemma SpanCovers(image: Image, page: u64, k: nat)
    requires WellFormed(image, page) && VaSpan(image, page).Ok? && k < |image.loads|
    ensures var (lo, hi) := VaSpan(image, page).value;
            Rem(lo, page) == 0 && Rem(hi, page) == 0 && lo <= hi
            && lo <= AlignDown(image.Load(k).vaddr, page) && Up(MemEnd(image.Load(k)), page) <= hi
  {
    hide Rem, Up, AlignDown;
    var n := |image.loads| - 1;
    var first, last, ph := image.Load(0), image.Load(n), image.Load(k);
    AlignBounds(first.vaddr, page);
    AlignBounds(ph.vaddr, page);
    UpBounds(MemEnd(first), page);
    UpBounds(MemEnd(ph), page);
    UpBounds(MemEnd(last), page);
    DownIsGreatest(ph.vaddr, AlignDown(first.vaddr, page), page);
  }

  /** The running maximum of `load_align` over the first `n` loads. */
  function MaxAlign(image: Image, page: u64, n: nat): u64
    requires InTable(image.phdrs, image.loads) && n <= |image.loads|
  {
    if n == 0 then page
    else
      var a, pa := MaxAlign(image, page, n - 1), image.Load(n - 1).align;
      if pa > a && IsPow2(pa) then pa else a
  }

  method LoadAlign(image: Image, page: u64) returns (a: u64)
    requires InTable(image.phdrs, image.loads)
    ensures a == MaxAlign(image, page, |image.loads|)
  {
    a := page;
    for k := 0 to |image.loads|
      invariant a == MaxAlign(image, page, k)
    {
      var pa := image.Load(k).align;
      if pa > a && IsPow2(pa) {
        a := pa;
      }
    }
  }

  /** `load_align` is a power of two at or above the page, asked for by some load unless it is the
      page itself, and no load asks for a stronger one. */
  lemma {:induction false} MaxAlignIsStrongest(image: Image, page: u64, n: nat)
    requires WellFormed(image, page) && n <= |image.loads|
    ensures var a := MaxAlign(image, page, n);
            IsPow2(a) && a >= page
            && (a == page || exists k :: 0 <= k < n && image.Load(k).align == a)
            && forall k :: 0 <= k < n ==> image.Load(k).align <= a
  {
    if n > 0 { MaxAlignIsStrongest(image, page, n - 1); }
  }

  function FirstNul(b: seq<byte>): (k: nat)
    ensures k <= |b| && (forall i :: 0 <= i < k ==> b[i] != 0) && (k < |b| ==> b[k] == 0)
  {
    if b == [] || b[0] == 0 then 0 else 1 + FirstNul(b[1..])
  }

  lemma NulEndsPrefix(b: seq<byte>, off: nat, len: nat, n: nat)
    requires off + len <= |b| && n < len && b[off..off + len][n] == 0
    ensures b[off..off + len][..n] + [0] <= b[off..]
  {
    var x := b[off..off + len][..n] + [0];
    forall i | 0 <= i < |x| ensures x[i] == b[off..][i] {
      if i < n { assert x[i] == b[off..off + len][i]; }
    }
    assert x == b[off..][..n + 1];
  }

  /** The PT_INTERP path: exactly the non-empty NUL-free prefix that a NUL terminates inside the
      segment, and an error when there is none. */
  function InterpPath(image: Image, src: Source): (r: Result<seq<byte>, Errno>)
    ensures r.Ok? <==> image.interp.Some?
                       && var ph := image.interp.value;
                          src.CanRead(ph.offset, ph.filesz)
                          && var seg := src.bytes[ph.offset..ph.offset + ph.filesz];
                             seg != [] && seg[0] != 0 && 0 in seg
    ensures r.Ok? ==> image.interp.Some? && r.value != [] && 0 !in r.value
                      && |r.value| < image.interp.value.filesz
                      && src.CanRead(image.interp.value.offset, image.interp.value.filesz)
                      && r.value + [0] <= src.bytes[image.interp.value.offset..]
  {
    if image.interp.None? then Err(EINVAL)
    else
      var ph := image.interp.value;
      match ReadExact(src, ph.offset, ph.filesz)
      case None => Err(ENOEXEC)
      case Some(buf) =>
        var n := FirstNul(buf);
        if n == 0 || n == |buf| then Err(ENOEXEC)
        else
          NulEndsPrefix(src.bytes, ph.offset, ph.filesz, n);
          Ok(buf[..n])
  }
}
