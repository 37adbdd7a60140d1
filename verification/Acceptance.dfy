/** What the parser accepts, said again from the bytes of the file: literal header bytes, little-endian
    fields written out as sums, and plain arithmetic on the entries. The parser's own predicates are
    shown to say exactly this, for every file. */
module Acceptance {
  import opened Words
  import opened Elf
  import opened HeaderOrder

  // ------------------------------------------------------------ fields as sums

  function Le16(b: seq<byte>, o: nat): (v: nat)
    requires o + 2 <= |b|
    ensures v < 0x1_0000
  {
    var lo: int, hi: int := b[o], b[o + 1];
    lo + 0x100 * hi
  }

  function Le32(b: seq<byte>, o: nat): (v: nat)
    requires o + 4 <= |b|
    ensures v < 0x1_0000_0000
  {
    Le16(b, o) + 0x1_0000 * Le16(b, o + 2)
  }

  function Le64(b: seq<byte>, o: nat): (v: nat)
    requires o + 8 <= |b|
    ensures v < U64_LIMIT
  {
    Le32(b, o) + 0x1_0000_0000 * Le32(b, o + 4)
  }

  /** The first byte is the lowest. */
  lemma FromLeTwo(s: seq<byte>)
    requires |s| == 2
    ensures FromLe(s) == (s[0] as int) + 0x100 * (s[1] as int)
  {
    assert s[1..] == [s[1]];
    assert FromLe(s[1..][1..]) == 0;
  }

  lemma {:induction false} FromLeSplit(x: seq<byte>, y: seq<byte>)
    ensures FromLe(x + y) == FromLe(x) + Pow256(|x|) * FromLe(y)
  {
    if x == [] {
      assert x + y == y;
    } else {
      FromLeSplit(x[1..], y);
      assert (x + y)[1..] == x[1..] + y && (x + y)[0] == x[0];
      assert 256 * (Pow256(|x| - 1) * FromLe(y)) == Pow256(|x|) * FromLe(y);
    }
  }

  lemma Reads16(b: seq<byte>, o: nat)
    requires o + 2 <= |b|
    ensures FromLe(b[o..o + 2]) == Le16(b, o)
  {
    FromLeTwo(b[o..o + 2]);
  }

  lemma Reads32(b: seq<byte>, o: nat)
    requires o + 4 <= |b|
    ensures FromLe(b[o..o + 4]) == Le32(b, o)
  {
    hide FromLe, Le16;
    assert b[o..o + 4] == b[o..o + 2] + b[o + 2..o + 4];
    FromLeSplit(b[o..o + 2], b[o + 2..o + 4]);
    Pow256Values();
    Reads16(b, o);
    Reads16(b, o + 2);
  }

  lemma Reads64(b: seq<byte>, o: nat)
    requires o + 8 <= |b|
    ensures FromLe(b[o..o + 8]) == Le64(b, o)
  {
    hide FromLe, Le32;
    assert b[o..o + 8] == b[o..o + 4] + b[o + 4..o + 8];
    FromLeSplit(b[o..o + 4], b[o + 4..o + 8]);
    Pow256Values();
    Reads32(b, o);
    Reads32(b, o + 4);
  }

  lemma SliceOfSlice(b: seq<byte>, s: nat, n: nat, o: nat, m: nat)
    requires s + n <= |b| && o + m <= n
    ensures b[s..s + n][o..o + m] == b[s + o..s + o + m]
  {
    var x, y := b[s..s + n][o..o + m], b[s + o..s + o + m];
    forall i | 0 <= i < m ensures x[i] == y[i] { assert x[i] == b[s + (o + i)]; }
    assert x == y;
  }

  // ------------------------------------------------------------------- headers

  /** The program header whose 56 bytes start at `o`. */
  function PlainPhdr(b: seq<byte>, o: nat): Phdr
    requires o + 56 <= |b|
  {
    Phdr(Le32(b, o), Le32(b, o + 4), Le64(b, o + 8), Le64(b, o + 16),
         Le64(b, o + 24), Le64(b, o + 32), Le64(b, o + 40), Le64(b, o + 48))
  }

  lemma PhdrIsPlain(b: seq<byte>, o: nat)
    requires o + 56 <= |b|
    ensures DecodePhdr(b[o..o + 56]) == PlainPhdr(b, o)
  {
    hide FromLe, Le32, Le64;
    var raw := b[o..o + 56];
    SliceOfSlice(b, o, 56, 0, 4); Reads32(b, o);
    SliceOfSlice(b, o, 56, 4, 4); Reads32(b, o + 4);
    SliceOfSlice(b, o, 56, 8, 8); Reads64(b, o + 8);
    SliceOfSlice(b, o, 56, 16, 8); Reads64(b, o + 16);
    SliceOfSlice(b, o, 56, 24, 8); Reads64(b, o + 24);
    SliceOfSlice(b, o, 56, 32, 8); Reads64(b, o + 32);
    SliceOfSlice(b, o, 56, 40, 8); Reads64(b, o + 40);
    SliceOfSlice(b, o, 56, 48, 8); Reads64(b, o + 48);
  }

  lemma EhdrIsPlain(b: seq<byte>)
    requires |b| >= 64
    ensures var e := DecodeEhdr(b[..64]);
            e.ident == b[..16] && e.etype == Le16(b, 16) && e.machine == Le16(b, 18) && e.version == Le32(b, 20)
            && e.entry == Le64(b, 24) && e.phoff == Le64(b, 32) && e.phentsize == Le16(b, 54) && e.phnum == Le16(b, 56)
  {
    hide FromLe, Le16, Le32, Le64;
    assert b[..64] == b[0..64] && b[..64][..16] == b[..16];
    SliceOfSlice(b, 0, 64, 16, 2); Reads16(b, 16);
    SliceOfSlice(b, 0, 64, 18, 2); Reads16(b, 18);
    SliceOfSlice(b, 0, 64, 20, 4); Reads32(b, 20);
    SliceOfSlice(b, 0, 64, 24, 8); Reads64(b, 24);
    SliceOfSlice(b, 0, 64, 32, 8); Reads64(b, 32);
    SliceOfSlice(b, 0, 64, 54, 2); Reads16(b, 54);
    SliceOfSlice(b, 0, 64, 56, 2); Reads16(b, 56);
  }

  /** A 64-bit little-endian ELF file for this machine, executable or shared, with a plausible table. */
  predicate PlainHeader(b: seq<byte>, native: u16)
  {
    |b| >= 64
    && b[0] == 0x7f && b[1] == 0x45 && b[2] == 0x4c && b[3] == 0x46
    && b[4] == 2 && b[5] == 1 && b[6] == 1 && (b[7] == 0 || b[7] == 3 || b[7] == 64)
    && (Le16(b, 16) == 2 || Le16(b, 16) == 3) && Le16(b, 18) == native && Le32(b, 20) == 1
    && 56 <= Le16(b, 54) && 1 <= Le16(b, 56) <= 1024
  }

  lemma HeaderIsPlain(b: seq<byte>, native: u16)
    requires |b| >= 64
    ensures HeaderOk(DecodeEhdr(b[..64]), native) <==> PlainHeader(b, native)
  {
    hide Le16, Le32, Le64, DecodeEhdr;
    EhdrIsPlain(b);
    var id := b[..16];
    assert id[..4] == [b[0], b[1], b[2], b[3]];
  }

  // --------------------------------------------------------------------- table

  function EntryStart(b: seq<byte>, i: nat): nat
    requires |b| >= 64
  {
    var start: nat, size: nat := Le64(b, 32), Le16(b, 54);
    NotNegative(i, size);
    start + i * size
  }

  lemma NotNegative(i: nat, n: nat)
    ensures i * n >= 0
  {
  }

  /** The table ends inside 64 bits and inside a file of known size, and every entry can be read. */
  predicate PlainTableFits(b: seq<byte>, known: bool)
    requires |b| >= 64
  {
    EntryStart(b, Le16(b, 56)) < 0x1_0000_0000_0000_0000
    && (known ==> EntryStart(b, Le16(b, 56)) <= |b|)
    && forall i {:trigger EntryStart(b, i)} :: 0 <= i < Le16(b, 56) ==> EntryStart(b, i) + 56 <= |b|
  }

  function PlainTable(b: seq<byte>): seq<Phdr>
    requires |b| >= 64 && forall i {:trigger EntryStart(b, i)} :: 0 <= i < Le16(b, 56) ==> EntryStart(b, i) + 56 <= |b|
  {
    seq(Le16(b, 56), i requires 0 <= i < Le16(b, 56) => PlainPhdr(b, EntryStart(b, i)))
  }

  lemma TableIsPlain(src: Source, e: Ehdr)
    requires src.Valid() && |src.bytes| >= 64 && e == DecodeEhdr(src.bytes[..64])
    ensures TableOk(src, e) <==> PlainTableFits(src.bytes, src.sizeKnown)
    ensures TableOk(src, e) ==> Table(src, e) == PlainTable(src.bytes)
  {
    hide DecodeEhdr, DecodePhdr, Le16, Le32, Le64, PlainPhdr;
    var b := src.bytes;
    EhdrIsPlain(b);
    assert forall i: nat :: EntryOffset(e, i) == EntryStart(b, i);
    assert forall i :: 0 <= i < e.phnum ==> (src.CanRead(EntryOffset(e, i), PHDR_SIZE) <==> EntryStart(b, i) + 56 <= |b|);
    assert TableOk(src, e) ==> forall i {:trigger EntryStart(b, i)} :: 0 <= i < Le16(b, 56) ==> EntryStart(b, i) + 56 <= |b| by {
      if TableOk(src, e) {
        forall i | 0 <= i < Le16(b, 56) ensures EntryStart(b, i) + 56 <= |b| {
          assert src.CanRead(EntryOffset(e, i), PHDR_SIZE);
        }
      }
    }
    if TableOk(src, e) {
      forall i | 0 <= i < e.phnum ensures Table(src, e)[i] == PlainTable(b)[i] {
        PhdrIsPlain(b, EntryStart(b, i));
      }
    }
  }

  // ------------------------------------------------------------------- entries

  function TwoTo(k: nat): nat { if k == 0 then 1 else 2 * TwoTo(k - 1) }

  ghost predicate PowerOfTwo(n: int) { exists k: nat :: n == TwoTo(k) }

  lemma {:induction false} Pow2IsPower(n: int)
    requires IsPow2(n)
    ensures PowerOfTwo(n)
  {
    if n == 1 {
      assert n == TwoTo(0);
    } else {
      Pow2IsPower(n / 2);
      var k: nat :| n / 2 == TwoTo(k);
      assert n == TwoTo(k + 1);
    }
  }

  lemma {:induction false} PowerIsPow2(k: nat)
    ensures IsPow2(TwoTo(k))
  {
    if k > 0 {
      PowerIsPow2(k - 1);
      DoubleIsPow2(TwoTo(k - 1));
    }
  }

  lemma PowersAgree(n: int)
    ensures IsPow2(n) <==> PowerOfTwo(n)
  {
    if IsPow2(n) { Pow2IsPower(n); }
    if PowerOfTwo(n) {
      var k: nat :| n == TwoTo(k);
      PowerIsPow2(k);
    }
  }

  /** A loadable segment: no more file than memory, an alignment that is zero or a power of two, ends
      inside 64 bits, file part inside a file of known size, address and offset alike within a page. */
  ghost predicate PlainLoad(ph: Phdr, page: u64, size: Option<u64>)
    requires page > 0
  {
    ph.filesz <= ph.memsz
    && (ph.align == 0 || PowerOfTwo(ph.align))
    && ph.vaddr + ph.memsz < 0x1_0000_0000_0000_0000 && ph.offset + ph.filesz < 0x1_0000_0000_0000_0000
    && (size.Some? ==> ph.offset + ph.filesz <= size.value)
    && (ph.filesz != 0 ==> ph.vaddr % page == ph.offset % page)
  }

  lemma LoadIsPlain(ph: Phdr, page: u64, size: Option<u64>)
    requires page > 0
    ensures ValidLoad(ph, page, size) <==> PlainLoad(ph, page, size)
  {
    hide IsPow2, PowerOfTwo, Rem;
    PowersAgree(ph.align);
    RemIs(ph.vaddr, page);
    RemIs(ph.offset, page);
  }

  predicate PlainInterp(ph: Phdr, size: Option<u64>)
  {
    1 <= ph.filesz <= 4096 && (size.Some? ==> ph.offset + ph.filesz <= size.value)
  }

  /** The first page boundary at or above the end of a load. */
  function PageEnd(ph: Phdr, page: u64): int
    requires page > 0
  {
    (ph.vaddr + ph.memsz + (page - 1)) / page * page
  }

  lemma PageEndIs(ph: Phdr, page: u64)
    requires page > 0
    ensures PageEnd(ph, page) == Up(MemEnd(ph), page)
  {
    hide Rem;
    var y := ph.vaddr + ph.memsz + (page - 1);
    RemIs(y, page);
    assert y == page * (y / page) + y % page;
  }

  /** Entry `i` comes first in memory: a lower address, or the same one and earlier in the table. */
  predicate Earlier(t: seq<Phdr>, i: nat, j: nat)
    requires i < |t| && j < |t|
  {
    t[i].vaddr < t[j].vaddr || (t[i].vaddr == t[j].vaddr && i < j)
  }

  /** Loads and interpreter plausible, at most one interpreter, at least one load, and no load reaching
      past a page boundary into a later one. */
  ghost predicate PlainEntries(t: seq<Phdr>, page: u64, size: Option<u64>)
    requires page > 0
  {
    (forall i :: 0 <= i < |t| && t[i].ptype == 1 ==> PlainLoad(t[i], page, size))
    && (forall i :: 0 <= i < |t| && t[i].ptype == 3 ==> PlainInterp(t[i], size))
    && (forall i, j :: 0 <= i < j < |t| ==> !(t[i].ptype == 3 && t[j].ptype == 3))
    && (exists i :: 0 <= i < |t| && t[i].ptype == 1)
    && (forall i, j :: 0 <= i < |t| && 0 <= j < |t| && t[i].ptype == 1 && t[j].ptype == 1 && Earlier(t, i, j) ==>
                         PageEnd(t[i], page) <= t[j].vaddr)
  }

  lemma EarlierGoesFirst(t: seq<Phdr>, loads: seq<nat>, a: nat, b: nat)
    requires InTable(t, loads) && StableOrder(t, loads) && a < |loads| && b < |loads| && Earlier(t, loads[a], loads[b])
    ensures a < b
  {
    assert !Before(t, loads[b], loads[a]);
  }

  /** Comparing neighbours of the sorted loads compares every pair of loads. */
  lemma SeparationIsPlain(t: seq<Phdr>, page: u64)
    requires page > 0
    ensures (forall k :: 0 <= k < |SortedLoads(t)| - 1 ==> SeparatedAt(t, SortedLoads(t), k, page))
            <==> (forall i, j :: 0 <= i < |t| && 0 <= j < |t| && t[i].ptype == 1 && t[j].ptype == 1 && Earlier(t, i, j) ==>
                                   PageEnd(t[i], page) <= t[j].vaddr)
  {
    hide SortedLoads, Up, PageEnd, MemEnd, StableOrder;
    var loads := SortedLoads(t);
    SortedStable(t);
    if forall k :: 0 <= k < |loads| - 1 ==> SeparatedAt(t, loads, k, page) {
      forall i, j | 0 <= i < |t| && 0 <= j < |t| && t[i].ptype == 1 && t[j].ptype == 1 && Earlier(t, i, j)
        ensures PageEnd(t[i], page) <= t[j].vaddr
      {
        var a := PlaceOf(t, i);
        var b := PlaceOf(t, j);
        EarlierGoesFirst(t, loads, a, b);
        SeparatedPairwise(t, loads, page, a, b);
        PageEndIs(t[i], page);
      }
    }
    if forall i, j :: 0 <= i < |t| && 0 <= j < |t| && t[i].ptype == 1 && t[j].ptype == 1 && Earlier(t, i, j) ==>
                        PageEnd(t[i], page) <= t[j].vaddr {
      forall k | 0 <= k < |loads| - 1 ensures SeparatedAt(t, loads, k, page) {
        SortedAreLoads(t, k);
        SortedAreLoads(t, k + 1);
        NeighboursInOrder(t, loads, k);
        assert Earlier(t, loads[k], loads[k + 1]);
        PageEndIs(t[loads[k]], page);
      }
    }
  }

  lemma NeighboursInOrder(t: seq<Phdr>, loads: seq<nat>, k: nat)
    requires InTable(t, loads) && StableOrder(t, loads) && k + 1 < |loads|
    ensures Earlier(t, loads[k], loads[k + 1])
  {
  }

  lemma SortedStable(t: seq<Phdr>)
    ensures StableOrder(t, SortedLoads(t))
  {
    hide SortLoads, LoadIndices, StableOrder;
    SortIsStable(t, LoadIndices(t, |t|));
  }

  lemma SomeLoad(t: seq<Phdr>)
    ensures SortedLoads(t) != [] <==> exists i :: 0 <= i < |t| && t[i].ptype == 1
  {
    hide SortedLoads;
    if SortedLoads(t) != [] { SortedAreLoads(t, 0); }
    if i :| 0 <= i < |t| && t[i].ptype == 1 { var k := PlaceOf(t, i); }
  }

  lemma EntriesArePlain(t: seq<Phdr>, page: u64, size: Option<u64>)
    requires page > 0
    ensures AcceptsTable(t, page, size) <==> PlainEntries(t, page, size)
  {
    hide SortedLoads, SeparatedAt, PageEnd, ValidLoad, PlainLoad;
    SomeLoad(t);
    SeparationIsPlain(t, page);
    forall i | 0 <= i < |t| ensures ValidLoad(t[i], page, size) <==> PlainLoad(t[i], page, size) {
      LoadIsPlain(t[i], page, size);
    }
  }

  // ------------------------------------------------------------------ the file

  ghost predicate PlainAccepts(src: Source, page: u64, native: u16)
    requires src.Valid() && page > 0
  {
    PlainHeader(src.bytes, native) && PlainTableFits(src.bytes, src.sizeKnown)
    && PlainEntries(PlainTable(src.bytes), page, if src.sizeKnown then Some(|src.bytes|) else None)
  }

  /** Completeness and soundness of `parse` on the bytes: it accepts a file exactly when the plain
      conditions on header, table and entries hold. */
  lemma AcceptsExactly(src: Source, page: u64, native: u16)
    requires src.Valid() && page > 0
    ensures Accepts(src, page, native) <==> PlainAccepts(src, page, native)
  {
    hide DecodeEhdr, HeaderOk, TableOk, Table, AcceptsTable, PlainHeader, PlainTableFits, PlainEntries, PlainTable;
    if PlainHeader(src.bytes, native) { LongEnough(src.bytes, native); }
    if |src.bytes| >= 64 {
      var e := DecodeEhdr(src.bytes[..64]);
      HeaderIsPlain(src.bytes, native);
      TableIsPlain(src, e);
      if TableOk(src, e) { EntriesArePlain(Table(src, e), page, src.Size()); }
    }
  }

  lemma LongEnough(b: seq<byte>, native: u16)
    requires PlainHeader(b, native)
    ensures |b| >= 64
  {
  }

  // --------------------------------------------------------- kinds of rejection

  predicate PlainIdent(b: seq<byte>)
  {
    |b| >= 64 && b[0] == 0x7f && b[1] == 0x45 && b[2] == 0x4c && b[3] == 0x46 && b[4] == 2 && b[5] == 1 && b[6] == 1
  }

  /** Entries below `n` are plausible, and entry `n` is a second interpreter. */
  ghost predicate PlainRepeat(t: seq<Phdr>, n: nat, page: u64, size: Option<u64>)
    requires page > 0
  {
    n < |t| && t[n].ptype == 3 && (exists j :: 0 <= j < n && t[j].ptype == 3)
    && (forall i :: 0 <= i < n && t[i].ptype == 1 ==> PlainLoad(t[i], page, size))
    && (forall i :: 0 <= i < n && t[i].ptype == 3 ==> PlainInterp(t[i], size))
    && (forall i, j :: 0 <= i < j < n ==> !(t[i].ptype == 3 && t[j].ptype == 3))
  }

  ghost predicate PlainRepeats(t: seq<Phdr>, page: u64, size: Option<u64>)
    requires page > 0
  {
    exists n: nat :: PlainRepeat(t, n, page, size)
  }

  lemma RepeatIsPlain(t: seq<Phdr>, page: u64, size: Option<u64>)
    requires page > 0
    ensures RepeatsInterp(t, page, size) <==> PlainRepeats(t, page, size)
  {
    hide ValidLoad, PlainLoad;
    forall i | 0 <= i < |t| ensures ValidLoad(t[i], page, size) <==> PlainLoad(t[i], page, size) {
      LoadIsPlain(t[i], page, size);
    }
    forall n: nat | n < |t|
      ensures SecondInterp(t, n) && EntriesOk(t, n, page, size) <==> PlainRepeat(t, n, page, size)
    {
      assert SecondInterp(t, n) <==> t[n].ptype == 3 && exists j :: 0 <= j < n && t[j].ptype == 3;
    }
  }

  /** An ELF file for another ABI, machine or purpose, one with an extended header count, or one whose
      first fault is a second interpreter. */
  ghost predicate PlainForeign(src: Source, page: u64, native: u16)
    requires src.Valid() && page > 0
  {
    var b := src.bytes;
    PlainIdent(b)
    && (!(b[7] == 0 || b[7] == 3 || b[7] == 64) || !(Le16(b, 16) == 2 || Le16(b, 16) == 3) || Le16(b, 18) != native
        || (Le32(b, 20) == 1 && Le16(b, 56) == 0xffff)
        || (PlainHeader(b, native) && PlainTableFits(b, src.sizeKnown)
            && PlainRepeats(PlainTable(b), page, if src.sizeKnown then Some(|b|) else None)))
  }

  lemma IdentIsPlain(src: Source)
    ensures IsElf(src) <==> PlainIdent(src.bytes)
  {
    hide DecodeEhdr, Le16, Le32, Le64;
    if |src.bytes| >= 64 {
      EhdrIsPlain(src.bytes);
      var id := src.bytes[..16];
      assert id[..4] == [src.bytes[0], src.bytes[1], src.bytes[2], src.bytes[3]];
    }
  }

  lemma ForeignHeaderIsPlain(b: seq<byte>, native: u16)
    requires |b| >= 64
    ensures ForeignHeader(DecodeEhdr(b[..64]), native) <==>
            PlainIdent(b)
            && (!(b[7] == 0 || b[7] == 3 || b[7] == 64) || !(Le16(b, 16) == 2 || Le16(b, 16) == 3) || Le16(b, 18) != native
                || (Le32(b, 20) == 1 && Le16(b, 56) == 0xffff))
  {
    hide DecodeEhdr, Le16, Le32, Le64;
    EhdrIsPlain(b);
    var id := b[..16];
    assert id[..4] == [b[0], b[1], b[2], b[3]];
  }

  /** Which kind of rejection a file meets, on its bytes. */
  lemma RejectsExactly(src: Source, page: u64, native: u16)
    requires src.Valid() && page > 0
    ensures IsElf(src) <==> PlainIdent(src.bytes)
    ensures Foreign(src, page, native) <==> PlainForeign(src, page, native)
  {
    hide DecodeEhdr, HeaderOk, ForeignHeader, TableOk, Table, RepeatsInterp, IsElf, Le16, Le32;
    hide PlainHeader, PlainTableFits, PlainTable, PlainRepeats;
    IdentIsPlain(src);
    if |src.bytes| >= 64 {
      var e := DecodeEhdr(src.bytes[..64]);
      ForeignHeaderIsPlain(src.bytes, native);
      HeaderIsPlain(src.bytes, native);
      HeaderHasIdent(src.bytes, native);
      TableIsPlain(src, e);
      if TableOk(src, e) {
        RepeatIsPlain(Table(src, e), page, src.Size());
      }
    }
  }

  lemma HeaderHasIdent(b: seq<byte>, native: u16)
    ensures PlainHeader(b, native) ==> PlainIdent(b)
  {
  }

  // ----------------------------------------------------- what parsing hands on

  /** `loads` are exactly the entries of type 1, in ascending address, equal ones in table order. */
  predicate PlainLoads(t: seq<Phdr>, loads: seq<nat>)
  {
    (forall k :: 0 <= k < |loads| ==> loads[k] < |t| && t[loads[k]].ptype == 1)
    && (forall j, k :: 0 <= j < k < |loads| ==> Earlier(t, loads[j], loads[k]))
    && (forall i :: 0 <= i < |t| && t[i].ptype == 1 ==> i in loads)
  }

  lemma LoadsArePlain(t: seq<Phdr>)
    ensures PlainLoads(t, SortedLoads(t))
  {
    hide SortedLoads;
    var loads := SortedLoads(t);
    SortedStable(t);
    forall k | 0 <= k < |loads| ensures loads[k] < |t| && t[loads[k]].ptype == 1 { SortedAreLoads(t, k); }
    forall j, k | 0 <= j < k < |loads| ensures Earlier(t, loads[j], loads[k]) {
      assert Before(t, loads[j], loads[k]);
    }
    forall i | 0 <= i < |t| && t[i].ptype == 1 ensures i in loads { var k := PlaceOf(t, i); }
  }

  predicate LastEntry(t: seq<Phdr>, kind: u32, i: int)
  {
    0 <= i < |t| && t[i].ptype == kind && forall j :: i < j < |t| ==> t[j].ptype != kind
  }

  /** `found` is the last entry of its kind, absent when there is none. */
  ghost predicate PlainLast(t: seq<Phdr>, kind: u32, found: Option<Phdr>)
  {
    (found.None? <==> forall i :: 0 <= i < |t| ==> t[i].ptype != kind)
    && forall i :: LastEntry(t, kind, i) ==> found == Some(t[i])
  }

  lemma LastIsPlain(t: seq<Phdr>, kind: u32)
    ensures PlainLast(t, kind, LastOf(t, |t|, kind))
  {
    hide LastOf;
    LastOfNone(t, |t|, kind);
    forall i | LastEntry(t, kind, i) ensures LastOf(t, |t|, kind) == Some(t[i]) { LastAtIs(t, |t|, kind, i); }
  }

  /** An executable stack is asked for by bit 0 of the last PT_GNU_STACK entry and by nothing else. */
  lemma StackIsPlain(t: seq<Phdr>)
    ensures WantsExecStack(LastOf(t, |t|, PT_GNU_STACK)) <==>
            exists i :: LastEntry(t, 0x6474_e551, i) && BitAnd(t[i].flags, 1) != 0
  {
    hide LastOf, BitAnd;
    LastIsPlain(t, 0x6474_e551);
    var last := LastOf(t, |t|, PT_GNU_STACK);
    if last.Some? {
      LastOfIs(t, |t|, PT_GNU_STACK);
      var i :| LastAt(t, |t|, PT_GNU_STACK, i);
      assert LastEntry(t, 0x6474_e551, i);
      FlagBits(t[i]);
    }
  }

  /** What an accepted file becomes, field by field from its bytes. */
  lemma ImageIsPlain(src: Source)
    requires src.Valid() && |src.bytes| >= 64 && TableOk(src, DecodeEhdr(src.bytes[..64]))
    ensures PlainTableFits(src.bytes, src.sizeKnown)
    ensures var image, t := ImageOf(src), PlainTable(src.bytes);
            image.phdrs == t && PlainLoads(t, image.loads)
            && PlainLast(t, 3, image.interp) && PlainLast(t, 6, image.phdrSeg)
            && (image.execStack <==> exists i :: LastEntry(t, 0x6474_e551, i) && BitAnd(t[i].flags, 1) != 0)
    ensures var e, b := ImageOf(src).ehdr, src.bytes;
            e.etype == Le16(b, 16) && e.entry == Le64(b, 24) && e.phoff == Le64(b, 32)
            && e.phentsize == Le16(b, 54) && e.phnum == Le16(b, 56)
  {
    hide DecodeEhdr, TableOk, Table, PlainTable, PlainLoads, PlainLast, LastEntry, SortedLoads, LastOf, Le16, Le64, BitAnd;
    hide WantsExecStack, PlainTableFits;
    var e := DecodeEhdr(src.bytes[..64]);
    TableIsPlain(src, e);
    EhdrIsPlain(src.bytes);
    FitsReads(src.bytes, src.sizeKnown);
    var t := PlainTable(src.bytes);
    LoadsArePlain(t);
    LastIsPlain(t, 3);
    LastIsPlain(t, 6);
    StackIsPlain(t);
  }

  lemma FitsReads(b: seq<byte>, known: bool)
    requires |b| >= 64 && PlainTableFits(b, known)
    ensures forall i {:trigger EntryStart(b, i)} :: 0 <= i < Le16(b, 56) ==> EntryStart(b, i) + 56 <= |b|
  {
  }
}
