/** From a loaded program to what its start-up code reads: the auxiliary values of the pair, carried
    through the stack, still describe the memory the loader filled. */
module Startup {
  import opened Words
  import opened Elf
  import opened Layout
  import opened AddressSpace
  import opened Loader
  import opened LoadTheorems
  import opened PhdrAddress
  import opened Program
  import opened InitialStack
  import opened StackReader

  datatype Environment = Environment(pageSize: u64, platform: seq<byte>, execfn: seq<byte>, random: seq<byte>,
                                     uid: u64, gid: u64, hwcap: (u64, u64), sysinfoEhdr: Option<u64>,
                                     minSigStack: Option<u64>)

  /** `LoadedProgram::auxv`. */
  function AuxvOf(lp: LoadedProgram, env: Environment): AuxvSpec
    requires InTable(lp.image.phdrs, lp.image.loads)
  {
    AuxvSpec(PhdrAddr(lp.image, lp.main.plan), lp.image.ehdr.phentsize, lp.image.ehdr.phnum, lp.InterpBase(),
             lp.main.plan.entry, env.pageSize, env.uid, env.gid, env.hwcap.0, env.hwcap.1, 100, false,
             env.random, env.platform, env.execfn, env.sysinfoEhdr, env.minSigStack)
  }

  /** The first entry with `key`, as `auxv_value` finds it. */
  function Lookup(av: seq<(u64, u64)>, key: u64): Option<u64>
  {
    if av == [] then None else if av[0].0 == key then Some(av[0].1) else Lookup(av[1..], key)
  }

  lemma {:induction false} LookupAt(av: seq<(u64, u64)>, i: nat)
    requires i < |av| && forall j, k :: 0 <= j < k < |av| ==> av[j].0 != av[k].0
    ensures Lookup(av, av[i].0) == Some(av[i].1)
  {
    if i > 0 {
      assert av[0].0 != av[i].0 && av[1..][i - 1] == av[i];
      LookupAt(av[1..], i - 1);
    }
  }

  lemma {:induction false} LookupNone(av: seq<(u64, u64)>, key: u64)
    requires forall i :: 0 <= i < |av| ==> av[i].0 != key
    ensures Lookup(av, key) == None
  {
    if av != [] { LookupNone(av[1..], key); }
  }

  /** Entry `i` of the vector is what a look-up of its key finds. */
  lemma AuxLookup(aux: AuxvSpec, b: Blobs, i: nat)
    requires i < |AuxList(aux, b)|
    ensures Lookup(AuxList(aux, b), AuxList(aux, b)[i].0) == Some(AuxList(aux, b)[i].1)
  {
    hide AuxList;
    forall j, k | 0 <= j < k < |AuxList(aux, b)| ensures AuxList(aux, b)[j].0 != AuxList(aux, b)[k].0 {
      AuxKeysDistinct(aux, b, j, k);
    }
    LookupAt(AuxList(aux, b), i);
  }

  /** The header entries: present exactly when the headers are mapped. */
  lemma HeaderValues(aux: AuxvSpec, b: Blobs)
    ensures Lookup(AuxList(aux, b), 3) == aux.phdr
    ensures Lookup(AuxList(aux, b), 4) == if aux.phdr.Some? then Some(aux.phent) else None
    ensures Lookup(AuxList(aux, b), 5) == if aux.phdr.Some? then Some(aux.phnum) else None
  {
    hide FixedAux;
    var av := AuxList(aux, b);
    if aux.phdr.Some? {
      assert av[0] == (3, aux.phdr.value) && av[1] == (4, aux.phent) && av[2] == (5, aux.phnum);
      AuxLookup(aux, b, 0);
      AuxLookup(aux, b, 1);
      AuxLookup(aux, b, 2);
    } else {
      Absent(aux, b, 3);
      Absent(aux, b, 4);
      Absent(aux, b, 5);
    }
  }

  /** A key whose place no entry of this vector takes is not found. */
  lemma Absent(aux: AuxvSpec, b: Blobs, key: u64)
    requires forall i :: 0 <= i < |AuxList(aux, b)| ==> RankAt(aux, b, i) != Rank(key)
    ensures Lookup(AuxList(aux, b), key) == None
  {
    hide AuxList, Rank, RankAt;
    forall i | 0 <= i < |AuxList(aux, b)| ensures AuxList(aux, b)[i].0 != key { AuxRank(aux, b, i); }
    LookupNone(AuxList(aux, b), key);
  }

  lemma FixedLookup(aux: AuxvSpec, b: Blobs, i: nat)
    requires i < |FixedAux(aux, b)|
    ensures Lookup(AuxList(aux, b), FixedAux(aux, b)[i].0) == Some(FixedAux(aux, b)[i].1)
  {
    hide FixedAux, Lookup;
    var p := if aux.phdr.Some? then 3 else 0;
    assert AuxList(aux, b)[p + i] == FixedAux(aux, b)[i];
    AuxLookup(aux, b, p + i);
  }

  /** The entries that are always there. */
  lemma FixedValues(aux: AuxvSpec, b: Blobs)
    ensures var av := AuxList(aux, b);
            Lookup(av, 6) == Some(aux.pagesz) && Lookup(av, 7) == Some(aux.base) && Lookup(av, 8) == Some(0)
            && Lookup(av, 9) == Some(aux.entry) && Lookup(av, 11) == Lookup(av, 12) == Some(aux.uid)
            && Lookup(av, 13) == Lookup(av, 14) == Some(aux.gid) && Lookup(av, 23) == Some(if aux.secure then 1 else 0)
            && Lookup(av, 17) == Some(aux.clktck) && Lookup(av, 16) == Some(aux.hwcap)
            && Lookup(av, 26) == Some(aux.hwcap2) && Lookup(av, 25) == Some(b.random)
  {
    hide AuxList, Lookup;
    forall i | 0 <= i < |FixedAux(aux, b)|
      ensures Lookup(AuxList(aux, b), FixedAux(aux, b)[i].0) == Some(FixedAux(aux, b)[i].1)
    {
      FixedLookup(aux, b, i);
    }
    var f := FixedAux(aux, b);
    assert f[0].0 == 6 && f[1].0 == 7 && f[2].0 == 8 && f[3].0 == 9 && f[4].0 == 11 && f[5].0 == 12;
    assert f[6].0 == 13 && f[7].0 == 14 && f[8].0 == 23 && f[9].0 == 17 && f[10].0 == 16 && f[11].0 == 26 && f[12].0 == 25;
  }

  /** The entries after the fixed ones. */
  lemma TailValues(aux: AuxvSpec, b: Blobs)
    ensures Lookup(AuxList(aux, b), 15) == b.platform
    ensures Lookup(AuxList(aux, b), 31) == Some(b.execfn)
    ensures Lookup(AuxList(aux, b), 33) == aux.sysinfoEhdr
    ensures Lookup(AuxList(aux, b), 51) == aux.minsigstksz
  {
    hide Lookup;
    assert |FixedAux(aux, b)| == 13;
    hide FixedAux;
    var av, n := AuxList(aux, b), (if aux.phdr.Some? then 3 else 0) + 13;
    if b.platform.Some? {
      assert av[n] == (15, b.platform.value);
      AuxLookup(aux, b, n);
      n := n + 1;
    } else {
      Absent(aux, b, 15);
    }
    assert av[n] == (31, b.execfn);
    AuxLookup(aux, b, n);
    if aux.sysinfoEhdr.Some? {
      assert av[n + 1] == (33, aux.sysinfoEhdr.value);
      AuxLookup(aux, b, n + 1);
      n := n + 1;
    } else {
      Absent(aux, b, 33);
    }
    if aux.minsigstksz.Some? {
      assert av[n + 1] == (51, aux.minsigstksz.value);
      AuxLookup(aux, b, n + 1);
    } else {
      Absent(aux, b, 51);
    }
  }

  predicate KnownKey(key: u64)
  {
    3 <= key <= 9 || 11 <= key <= 17 || key == 23 || key == 25 || key == 26 || key == 31 || key == 33 || key == 51
  }

  lemma OtherKeys(aux: AuxvSpec, b: Blobs, key: u64)
    requires !KnownKey(key)
    ensures Lookup(AuxList(aux, b), key) == None
  {
    hide Lookup;
    LookupNone(AuxList(aux, b), key);
  }

  /** What start-up code finds under every key of a decoded vector: the headers (AT_PHDR, AT_PHENT,
      AT_PHNUM) all or none, every fixed entry, the optional ones as they were given, and nothing else. */
  ghost predicate Describes(av: seq<(u64, u64)>, aux: AuxvSpec, b: Blobs)
  {
    Lookup(av, 3) == aux.phdr
    && Lookup(av, 4) == (if aux.phdr.Some? then Some(aux.phent) else None)
    && Lookup(av, 5) == (if aux.phdr.Some? then Some(aux.phnum) else None)
    && Lookup(av, 6) == Some(aux.pagesz) && Lookup(av, 7) == Some(aux.base) && Lookup(av, 8) == Some(0)
    && Lookup(av, 9) == Some(aux.entry) && Lookup(av, 11) == Lookup(av, 12) == Some(aux.uid)
    && Lookup(av, 13) == Lookup(av, 14) == Some(aux.gid) && Lookup(av, 23) == Some(if aux.secure then 1 else 0)
    && Lookup(av, 16) == Some(aux.hwcap) && Lookup(av, 26) == Some(aux.hwcap2) && Lookup(av, 17) == Some(aux.clktck)
    && Lookup(av, 25) == Some(b.random) && Lookup(av, 15) == b.platform && Lookup(av, 31) == Some(b.execfn)
    && Lookup(av, 33) == aux.sysinfoEhdr && Lookup(av, 51) == aux.minsigstksz
    && forall key: u64 :: Lookup(av, key).Some? ==>
                            key in {3, 4, 5, 6, 7, 8, 9, 11, 12, 13, 14, 15, 16, 17, 23, 25, 26, 31, 33, 51}
  }

  lemma AuxValues(aux: AuxvSpec, b: Blobs)
    ensures Describes(AuxList(aux, b), aux, b)
  {
    hide AuxList, Lookup;
    HeaderValues(aux, b);
    FixedValues(aux, b);
    TailValues(aux, b);
    forall key: u64 | Lookup(AuxList(aux, b), key).Some?
      ensures key in {3, 4, 5, 6, 7, 8, 9, 11, 12, 13, 14, 15, 16, 17, 23, 25, 26, 31, 33, 51}
    {
      if !KnownKey(key) { OtherKeys(aux, b, key); }
    }
  }

  /** The same of the bytes of a finished stack, with intact copies where AT_RANDOM, AT_PLATFORM and
      AT_EXECFN point. */
  lemma StackDescribes(m: seq<byte>, sp: int, argv: Strings, envp: Strings, aux: AuxvSpec, at: Addresses)
    requires Laid(m, sp, argv, envp, aux, at)
    ensures Decode(m, sp).Some? && Describes(Decode(m, sp).value.auxv, aux, at.blobs)
    ensures BytesAt(m, at.blobs.random, aux.random) && ReadCstr(m, at.blobs.execfn) == Some(UpToNul(aux.execfn))
    ensures at.blobs.platform.Some? <==> aux.platform != []
    ensures aux.platform != [] ==> ReadCstr(m, at.blobs.platform.value) == Some(UpToNul(aux.platform))
  {
    hide Decode, AuxList, Describes, ReadCstr, UpToNul, StringsAt, WordsAt, PairWords, CStrAt;
    DecodeLaid(m, sp, argv, envp, aux, at);
    AuxValues(aux, at.blobs);
    CstrReads(m, at.blobs.execfn, aux.execfn);
    if aux.platform != [] { CstrReads(m, at.blobs.platform.value, aux.platform); }
  }

  /** Start-up code gets at the stack of a loaded program: what it decodes has the auxiliary values of
      the pair, AT_ENTRY being the program's own entry point moved by its bias, AT_BASE the
      interpreter's bias, the header entries those of the file, and the rest the environment's. */
  lemma StartupDecodes(m: seq<byte>, sp: int, argv: Strings, envp: Strings, at: Addresses, env: Environment,
                       t: Space, lp: LoadedProgram, fs: FileSystem, path: seq<byte>, page: u64, native: u16)
    requires InMemory(t, lp, fs, path, page, native) && InTable(lp.image.phdrs, lp.image.loads)
    requires Laid(m, sp, argv, envp, AuxvOf(lp, env), at)
    ensures Decode(m, sp).Some?
    ensures var auxv := Decode(m, sp).value.auxv;
            Lookup(auxv, 3) == PhdrAddr(lp.image, lp.main.plan)
            && Lookup(auxv, 7) == Some(lp.InterpBase())
            && Lookup(auxv, 9).Some? && Lookup(auxv, 9).value == lp.image.ehdr.entry + lp.main.plan.bias
    ensures var auxv := Decode(m, sp).value.auxv;
            Lookup(auxv, 4) == (if Lookup(auxv, 3).Some? then Some(lp.image.ehdr.phentsize) else None)
            && Lookup(auxv, 5) == (if Lookup(auxv, 3).Some? then Some(lp.image.ehdr.phnum) else None)
            && Lookup(auxv, 6) == Some(env.pageSize) && Lookup(auxv, 8) == Some(0)
            && Lookup(auxv, 11) == Lookup(auxv, 12) == Some(env.uid) && Lookup(auxv, 13) == Lookup(auxv, 14) == Some(env.gid)
            && Lookup(auxv, 16) == Some(env.hwcap.0) && Lookup(auxv, 26) == Some(env.hwcap.1)
            && Lookup(auxv, 17) == Some(100) && Lookup(auxv, 23) == Some(0)
            && Lookup(auxv, 33) == env.sysinfoEhdr && Lookup(auxv, 51) == env.minSigStack
    ensures var auxv := Decode(m, sp).value.auxv;
            Lookup(auxv, 25).Some? && BytesAt(m, Lookup(auxv, 25).value, env.random)
            && Lookup(auxv, 31).Some? && ReadCstr(m, Lookup(auxv, 31).value) == Some(UpToNul(env.execfn))
            && (Lookup(auxv, 15).Some? <==> env.platform != [])
            && (env.platform != [] ==> ReadCstr(m, Lookup(auxv, 15).value) == Some(UpToNul(env.platform)))
  {
    hide Laid, InMemory, Decode, AuxList, PhdrAddr, Lookup, ReadCstr, UpToNul, BytesAt;
    StackDescribes(m, sp, argv, envp, AuxvOf(lp, env), at);
    EntryPoint(t, lp, fs, path, page, native);
  }

  /** Byte `v` of the interpreter's load `k`, as its file has it, is at `base + v`. */
  ghost predicate InterpByteAt(t: Space, lp: LoadedProgram, fs: FileSystem, base: int, k: nat, v: int)
  {
    lp.interp.Some? && k < |lp.interp.value.0.loads| && lp.interp.value.0.loads[k] < |lp.interp.value.0.phdrs|
    && lp.interpPath.Some? && lp.interpPath.value in fs && base + v in t
    && t[base + v].val == LinkedByte(lp.interp.value.0.Load(k), fs[lp.interpPath.value].src.bytes, v)
  }

  /** End to end: through AT_BASE start-up code finds every byte of the interpreter at its link address
      plus that base; execution begins at the interpreter's entry point moved the same way. */
  lemma StartupFindsInterp(m: seq<byte>, sp: int, argv: Strings, envp: Strings, at: Addresses, env: Environment,
                           t: Space, lp: LoadedProgram, fs: FileSystem, path: seq<byte>, page: u64, native: u16, k: nat, v: int)
    requires InMemory(t, lp, fs, path, page, native) && InTable(lp.image.phdrs, lp.image.loads)
    requires Laid(m, sp, argv, envp, AuxvOf(lp, env), at)
    requires lp.interp.Some? && k < |lp.interp.value.0.loads| && lp.interp.value.0.loads[k] < |lp.interp.value.0.phdrs|
    requires var ph := lp.interp.value.0.Load(k); ph.vaddr <= v < ph.vaddr + ph.memsz
    ensures Decode(m, sp).Some? && Lookup(Decode(m, sp).value.auxv, 7).Some?
    ensures InterpByteAt(t, lp, fs, Lookup(Decode(m, sp).value.auxv, 7).value, k, v)
    ensures lp.Entry() == lp.interp.value.0.ehdr.entry + Lookup(Decode(m, sp).value.auxv, 7).value
  {
    hide Laid, Decode, InMemory, PhdrAddr, AuxvOf, LinkedByte;
    StartupDecodes(m, sp, argv, envp, at, env, t, lp, fs, path, page, native);
    EntryPoint(t, lp, fs, path, page, native);
    InterpAtBase(t, lp, fs, path, page, native, k, v);
  }

  /** Through AT_PHDR start-up code finds the program header table whenever the answer comes from a
      PT_LOAD; there is no answer exactly when PT_PHDR overflows or nothing has the table. */
  lemma StartupFindsHeaders(m: seq<byte>, sp: int, argv: Strings, envp: Strings, at: Addresses, env: Environment,
                            t: Space, lp: LoadedProgram, fs: FileSystem, path: seq<byte>, page: u64, native: u16) returns (k: nat)
    requires InMemory(t, lp, fs, path, page, native) && InTable(lp.image.phdrs, lp.image.loads)
    requires Laid(m, sp, argv, envp, AuxvOf(lp, env), at)
    ensures Decode(m, sp).Some?
    ensures var found := Lookup(Decode(m, sp).value.auxv, 3);
            (found.None? <==> PhdrOverflows(lp.image, lp.main.plan.bias)
                              || (!PhdrFromSegment(lp.image, lp.main.plan) && !TableInLoads(lp.image)))
            && (found.Some? && !PhdrFromSegment(lp.image, lp.main.plan) ==>
                  k < |lp.image.loads| && HoldsTable(lp.image, k) && path in fs
                  && FileAt(t, found.value, lp.image.Load(k).offset + lp.image.Load(k).filesz - lp.image.ehdr.phoff,
                            fs[path].src.bytes, lp.image.ehdr.phoff))
  {
    hide Laid, Decode, Planned, ImageInMemory, Accepts, ImageOf, InterpPath, Apart, Held, Sound, WellFormed, FileAt, TableInLoads;
    k := 0;
    StartupDecodes(m, sp, argv, envp, at, env, t, lp, fs, path, page, native);
    PlannedWellFormed(lp.image, page, lp.main.plan);
    PhdrMissingExactly(lp.image, page, lp.main.plan);
    hide PhdrAddr;
    if PhdrAddr(lp.image, lp.main.plan).Some? {
      k := PhdrPointsAtTable(t, lp.image, page, lp.main.plan, fs[path].src.bytes);
    }
  }

  /** When the answer comes from PT_PHDR and load `k` holds the `n` bytes there, start-up code finds the
      table exactly when the bytes linked at that address are the table's; so it does when PT_PHDR
      names the place where the load has the table. */
  lemma StartupTrustsPhdr(m: seq<byte>, sp: int, argv: Strings, envp: Strings, at: Addresses, env: Environment,
                          t: Space, lp: LoadedProgram, fs: FileSystem, path: seq<byte>, page: u64, native: u16, k: nat, n: int)
    requires InMemory(t, lp, fs, path, page, native) && InTable(lp.image.phdrs, lp.image.loads)
    requires Laid(m, sp, argv, envp, AuxvOf(lp, env), at)
    requires lp.image.phdrSeg.Some? && k < |lp.image.loads| && page > 0 && n > 0
    requires lp.image.Load(k).vaddr <= lp.image.phdrSeg.value.vaddr
    requires lp.image.phdrSeg.value.vaddr + n <= Up(MemEnd(lp.image.Load(k)), page)
    ensures Decode(m, sp).Some? && Lookup(Decode(m, sp).value.auxv, 3).Some? && path in fs
    ensures FileAt(t, Lookup(Decode(m, sp).value.auxv, 3).value, n, fs[path].src.bytes, lp.image.ehdr.phoff) <==>
            LinkedTable(lp.image.Load(k), fs[path].src.bytes, lp.image.phdrSeg.value.vaddr, n, lp.image.ehdr.phoff)
    ensures var ph, v := lp.image.Load(k), lp.image.phdrSeg.value.vaddr;
            v + n <= ph.vaddr + ph.filesz && ph.offset + (v - ph.vaddr) == lp.image.ehdr.phoff ==>
              FileAt(t, Lookup(Decode(m, sp).value.auxv, 3).value, n, fs[path].src.bytes, lp.image.ehdr.phoff)
  {
    hide Laid, Decode, Planned, ImageInMemory, Accepts, ImageOf, InterpPath, Apart, Held, Sound, WellFormed, FileAt;
    hide LinkedTable, PhdrAddr, Up;
    StartupDecodes(m, sp, argv, envp, at, env, t, lp, fs, path, page, native);
    PlannedWellFormed(lp.image, page, lp.main.plan);
    SegmentPhdrExactly(t, lp.image, page, lp.main.plan, fs[path].src.bytes, k, n);
    var ph, v := lp.image.Load(k), lp.image.phdrSeg.value.vaddr;
    if v + n <= ph.vaddr + ph.filesz && ph.offset + (v - ph.vaddr) == lp.image.ehdr.phoff {
      HonestPhdr(ph, fs[path].src.bytes, v, n, lp.image.ehdr.phoff);
    }
  }
}
