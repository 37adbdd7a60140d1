/** Writing an ELF64 file the way the repository's image builder does, and reading it back. */
module ElfWriter {
  import opened Words
  import opened Elf

  /** The eight fields of a program header, in file order. */
  function PhdrBytes(ph: Phdr): (b: seq<byte>)
    ensures |b| == PHDR_SIZE
  {
    ToLe(ph.ptype, 4) + ToLe(ph.flags, 4) + ToLe(ph.offset, 8) + ToLe(ph.vaddr, 8)
    + ToLe(ph.paddr, 8) + ToLe(ph.filesz, 8) + ToLe(ph.memsz, 8) + ToLe(ph.align, 8)
  }

  /** The executable header. `mid` holds `e_shoff`, `e_flags` and `e_ehsize`, `end` the section header
      fields; no reader in this model looks at them. */
  function EhdrBytes(e: Ehdr, mid: seq<byte>, end: seq<byte>): (b: seq<byte>)
    requires |e.ident| == 16 && |mid| == 14 && |end| == 6
    ensures |b| == EHDR_SIZE
  {
    e.ident + ToLe(e.etype, 2) + ToLe(e.machine, 2) + ToLe(e.version, 4) + ToLe(e.entry, 8) + ToLe(e.phoff, 8)
    + mid + ToLe(e.phentsize, 2) + ToLe(e.phnum, 2) + end
  }

  function TableBytes(t: seq<Phdr>): (b: seq<byte>)
    ensures |b| == PHDR_SIZE * |t|
  {
    if t == [] then [] else TableBytes(t[..|t| - 1]) + PhdrBytes(t[|t| - 1])
  }

  // ------------------------------------------------------------- reading back

  lemma FieldReads(v: int, n: nat)
    requires n in {2, 4, 8} && 0 <= v < Pow256(n)
    ensures FromLe(ToLe(v, n)) == v
  {
    LeRoundTrip(v, n);
  }

  lemma PhdrSlices(ph: Phdr, b: seq<byte>)
    requires b == PhdrBytes(ph)
    ensures b[0..4] == ToLe(ph.ptype, 4) && b[4..8] == ToLe(ph.flags, 4) && b[8..16] == ToLe(ph.offset, 8)
    ensures b[16..24] == ToLe(ph.vaddr, 8) && b[24..32] == ToLe(ph.paddr, 8) && b[32..40] == ToLe(ph.filesz, 8)
    ensures b[40..48] == ToLe(ph.memsz, 8) && b[48..56] == ToLe(ph.align, 8)
  {
    hide ToLe;
    assert b[48..56] == b[48..];
  }

  lemma PhdrRoundTrip(ph: Phdr)
    ensures DecodePhdr(PhdrBytes(ph)) == ph
  {
    hide ToLe, FromLe, PhdrBytes, Pow256;
    Pow256Values();
    PhdrSlices(ph, PhdrBytes(ph));
    FieldReads(ph.ptype, 4);
    FieldReads(ph.flags, 4);
    FieldReads(ph.offset, 8);
    FieldReads(ph.vaddr, 8);
    FieldReads(ph.paddr, 8);
    FieldReads(ph.filesz, 8);
    FieldReads(ph.memsz, 8);
    FieldReads(ph.align, 8);
  }

  lemma EhdrSlices(e: Ehdr, mid: seq<byte>, end: seq<byte>, b: seq<byte>)
    requires |e.ident| == 16 && |mid| == 14 && |end| == 6 && b == EhdrBytes(e, mid, end)
    ensures b[..16] == e.ident && b[16..18] == ToLe(e.etype, 2) && b[18..20] == ToLe(e.machine, 2)
    ensures b[20..24] == ToLe(e.version, 4) && b[24..32] == ToLe(e.entry, 8) && b[32..40] == ToLe(e.phoff, 8)
    ensures b[54..56] == ToLe(e.phentsize, 2) && b[56..58] == ToLe(e.phnum, 2)
  {
    hide ToLe;
  }

  lemma EhdrRoundTrip(e: Ehdr, mid: seq<byte>, end: seq<byte>)
    requires |e.ident| == 16 && |mid| == 14 && |end| == 6
    ensures DecodeEhdr(EhdrBytes(e, mid, end)) == e
  {
    hide ToLe, FromLe, EhdrBytes, Pow256;
    Pow256Values();
    EhdrSlices(e, mid, end, EhdrBytes(e, mid, end));
    FieldReads(e.etype, 2);
    FieldReads(e.machine, 2);
    FieldReads(e.version, 4);
    FieldReads(e.entry, 8);
    FieldReads(e.phoff, 8);
    FieldReads(e.phentsize, 2);
    FieldReads(e.phnum, 2);
  }

  lemma {:induction false} TableSlice(t: seq<Phdr>, i: nat)
    requires i < |t|
    ensures TableBytes(t)[PHDR_SIZE * i..PHDR_SIZE * i + PHDR_SIZE] == PhdrBytes(t[i])
    decreases |t|
  {
    hide PhdrBytes;
    var n := |t| - 1;
    var front := TableBytes(t[..n]);
    assert TableBytes(t) == front + PhdrBytes(t[n]);
    if i < n {
      TableSlice(t[..n], i);
      assert PHDR_SIZE * i + PHDR_SIZE <= |front|;
      assert TableBytes(t)[PHDR_SIZE * i..PHDR_SIZE * i + PHDR_SIZE] == front[PHDR_SIZE * i..PHDR_SIZE * i + PHDR_SIZE];
    }
  }

  // -------------------------------------------------------------- whole files

  /** A file: the executable header, the table right after it, and anything else. */
  ghost predicate Wrote(src: Source, e: Ehdr, t: seq<Phdr>, mid: seq<byte>, end: seq<byte>, rest: seq<byte>)
  {
    |e.ident| == 16 && |mid| == 14 && |end| == 6
    && e.phoff == EHDR_SIZE && e.phentsize == PHDR_SIZE && e.phnum == |t|
    && src.Valid() && src.bytes == EhdrBytes(e, mid, end) + (TableBytes(t) + rest)
  }

  lemma WroteEntry(src: Source, e: Ehdr, t: seq<Phdr>, mid: seq<byte>, end: seq<byte>, rest: seq<byte>, i: nat)
    requires Wrote(src, e, t, mid, end, rest) && i < |t|
    ensures src.CanRead(EntryOffset(e, i), PHDR_SIZE) && PhdrAt(src, e, i) == t[i]
  {
    hide EhdrBytes, TableBytes, PhdrBytes, DecodePhdr;
    var at := PHDR_SIZE * i;
    TableSlice(t, i);
    PhdrRoundTrip(t[i]);
    assert EntryOffset(e, i) == EHDR_SIZE + at && at + PHDR_SIZE <= |TableBytes(t)|;
    assert src.bytes[EHDR_SIZE + at..EHDR_SIZE + at + PHDR_SIZE] == TableBytes(t)[at..at + PHDR_SIZE];
  }

  lemma WroteTable(src: Source, e: Ehdr, t: seq<Phdr>, mid: seq<byte>, end: seq<byte>, rest: seq<byte>)
    requires Wrote(src, e, t, mid, end, rest)
    ensures TableOk(src, e) && Table(src, e) == t
  {
    hide EhdrBytes, TableBytes, PhdrAt;
    forall i | 0 <= i < e.phnum ensures src.CanRead(EntryOffset(e, i), PHDR_SIZE) && PhdrAt(src, e, i) == t[i] {
      WroteEntry(src, e, t, mid, end, rest, i);
    }
    assert EntryOffset(e, e.phnum) == EHDR_SIZE + PHDR_SIZE * |t|;
  }

  /** What is written is what is parsed: a file made of these headers is accepted exactly when the
      headers themselves pass, and its image is the one they describe. */
  lemma ParseOfWritten(src: Source, e: Ehdr, t: seq<Phdr>, mid: seq<byte>, end: seq<byte>, rest: seq<byte>,
                       page: u64, native: u16)
    requires Wrote(src, e, t, mid, end, rest) && page > 0
    ensures Accepts(src, page, native) <==> HeaderOk(e, native) && AcceptsTable(t, page, src.Size())
    ensures |src.bytes| >= EHDR_SIZE && TableOk(src, DecodeEhdr(src.bytes[..EHDR_SIZE])) && ImageOf(src) == FromTable(e, t)
  {
    hide EhdrBytes, TableBytes, DecodeEhdr, TableOk, Table, HeaderOk, AcceptsTable, FromTable;
    EhdrRoundTrip(e, mid, end);
    WroteTable(src, e, t, mid, end, rest);
    assert src.bytes[..EHDR_SIZE] == EhdrBytes(e, mid, end);
  }

  lemma OneIndex(t: seq<Phdr>)
    requires |t| == 1 && t[0].ptype == PT_LOAD
    ensures LoadIndices(t, |t|) == [0]
  {
    assert LoadIndices(t, 1) == LoadIndices(t, 0) + [0];
  }

  /** A table of one valid load is accepted. */
  lemma OneLoadAccepted(t: seq<Phdr>, page: u64, size: Option<u64>)
    requires page > 0 && |t| == 1 && t[0].ptype == PT_LOAD && ValidLoad(t[0], page, size)
    ensures AcceptsTable(t, page, size)
  {
    hide ValidLoad, LoadIndices, SortLoads;
    OneIndex(t);
    SameElements(SortedLoads(t), LoadIndices(t, |t|));
  }

  /** The smallest program: a position-independent image of two headers that loads itself, with any
      entry point. */
  function SmallestEhdr(native: u16, entry: u64): Ehdr
  {
    Ehdr([0x7f, 0x45, 0x4c, 0x46, 2, 1, 1, 0, 0, 0, 0, 0, 0, 0, 0, 0], ET_DYN, native, 1, entry, EHDR_SIZE, PHDR_SIZE, 1)
  }

  function SmallestLoad(): Phdr { Phdr(PT_LOAD, 5, 0, 0, 0, 120, 120, 0) }

  lemma SmallestHeaders(native: u16, entry: u64, page: u64, size: Option<u64>)
    requires page > 0 && (size.Some? ==> size.value >= 120)
    ensures HeaderOk(SmallestEhdr(native, entry), native) && ValidLoad(SmallestLoad(), page, size)
  {
    hide IsPow2;
    var ident := SmallestEhdr(native, entry).ident;
    assert ident[..4] == [0x7f, 0x45, 0x4c, 0x46];
  }

  /** Acceptance is not empty: on every machine and page size the smallest program is accepted. */
  lemma SmallestIsAccepted(src: Source, mid: seq<byte>, end: seq<byte>, page: u64, native: u16, entry: u64)
    requires page > 0 && Wrote(src, SmallestEhdr(native, entry), [SmallestLoad()], mid, end, [])
    ensures Accepts(src, page, native)
  {
    hide AcceptsTable, Accepts, HeaderOk, ValidLoad, EhdrBytes, TableBytes, SmallestEhdr;
    SmallestHeaders(native, entry, page, src.Size());
    OneLoadAccepted([SmallestLoad()], page, src.Size());
    ParseOfWritten(src, SmallestEhdr(native, entry), [SmallestLoad()], mid, end, [], page, native);
  }

  /** There is a file for every header and table of the right shape. */
  lemma WriteFile(e: Ehdr, t: seq<Phdr>) returns (src: Source, mid: seq<byte>, end: seq<byte>)
    requires |e.ident| == 16 && e.phoff == EHDR_SIZE && e.phentsize == PHDR_SIZE && e.phnum == |t|
    ensures Wrote(src, e, t, mid, end, []) && src.sizeKnown
  {
    hide EhdrBytes, TableBytes;
    mid, end := seq(14, _ => 0), seq(6, _ => 0);
    src := Source(EhdrBytes(e, mid, end) + (TableBytes(t) + []), true);
  }
}
