/** The initial process stack: argument and environment strings, pointers and the auxiliary vector,
    written downwards from the top of a thread's stack. */
module InitialStack {
  import opened Words

  const ARG_MAX: int := 4096 * 32

  datatype AuxvSpec = AuxvSpec(phdr: Option<u64>, phent: u64, phnum: u64, base: u64, entry: u64, pagesz: u64,
                               uid: u64, gid: u64, hwcap: u64, hwcap2: u64, clktck: u64, secure: bool,
                               random: seq<byte>, platform: seq<byte>, execfn: seq<byte>,
                               sysinfoEhdr: Option<u64>, minsigstksz: Option<u64>)

  datatype StackLayout = StackLayout(sp: u64, argcAt: u64, lowWater: u64)

  type Strings = seq<seq<byte>>

  /** What a slice can be: at most `isize::MAX` bytes. */
  predicate Sliceable(s: seq<byte>) { |s| < 0x8000_0000_0000_0000 }

  // -------------------------------------------------------------- size policy

  /** What the policy counts for each string: its bytes, its NUL and its pointer. */
  function ArgSize(strs: Strings): (n: nat)
    ensures n >= 9 * |strs|
  {
    if strs == [] then 0 else ArgSize(strs[..|strs| - 1]) + |strs[|strs| - 1]| + 1 + 8
  }

  predicate PolicyOk(argv: Strings, envp: Strings, stackSize: int)
  {
    ArgSize(argv) + ArgSize(envp) <= (if ARG_MAX >= stackSize / 4 then ARG_MAX else stackSize / 4)
  }

  /** Adds up one list; `None` when the running sum would leave 64 bits. */
  method AddSizes(strs: Strings, start: u64) returns (r: Option<u64>)
    requires forall s :: s in strs ==> Sliceable(s)
    ensures r == if start + ArgSize(strs) < U64_LIMIT then Some(start + ArgSize(strs)) else None
  {
    var len: u64 := start;
    for i := 0 to |strs|
      invariant len == start + ArgSize(strs[..i])
    {
      assert strs[..i + 1][..i] == strs[..i];
      var s := strs[i];
      if len + (|s| + 1) >= U64_LIMIT || len + (|s| + 1) + 8 >= U64_LIMIT {
        ArgSizePrefix(strs, i + 1);
        return None;
      }
      len := len + (|s| + 1) + 8;
    }
    assert strs[..|strs|] == strs;
    r := Some(len);
  }

  lemma {:induction false} ArgSizePrefix(strs: Strings, i: nat)
    requires i <= |strs|
    ensures ArgSize(strs[..i]) <= ArgSize(strs)
    decreases |strs|
  {
    if i == |strs| {
      assert strs[..i] == strs;
    } else {
      var init := strs[..|strs| - 1];
      assert init[..i] == strs[..i];
      ArgSizePrefix(init, i);
    }
  }

  /** `check_arg_env_size`: passes exactly when the counted size is within the budget. */
  method CheckArgEnvSize(argv: Strings, envp: Strings, stackSize: u64) returns (r: Result<u64, Errno>)
    requires forall s :: s in argv ==> Sliceable(s)
    requires forall s :: s in envp ==> Sliceable(s)
    ensures r.Ok? <==> PolicyOk(argv, envp, stackSize)
    ensures r.Ok? ==> r.value == ArgSize(argv) + ArgSize(envp)
    ensures r.Err? ==> r.error == E2BIG
  {
    var a := AddSizes(argv, 0);
    if a.None? { return Err(E2BIG); }
    var b := AddSizes(envp, a.value);
    if b.None? { return Err(E2BIG); }
    var budget := if ARG_MAX >= stackSize / 4 then ARG_MAX else stackSize / 4;
    if b.value > budget { return Err(E2BIG); }
    r := Ok(b.value);
  }

  // ------------------------------------------------------------ stack memory

  /** `data` sits at `addr`. */
  predicate BytesAt(m: seq<byte>, addr: int, data: seq<byte>)
  {
    0 <= addr && addr + |data| <= |m| && m[addr..addr + |data|] == data
  }

  predicate CStrAt(m: seq<byte>, addr: int, s: seq<byte>) { BytesAt(m, addr, s + [0]) }

  predicate WordAt(m: seq<byte>, addr: int, v: u64) { BytesAt(m, addr, ToLe(v, 8)) }

  /** `m'` is `m` except in `[lo, hi)`. */
  predicate SameOutside(m: seq<byte>, m': seq<byte>, lo: int, hi: int)
  {
    |m| == |m'| && forall a :: 0 <= a < |m| && !(lo <= a < hi) ==> m'[a] == m[a]
  }

  lemma BytesKept(m: seq<byte>, m': seq<byte>, lo: int, hi: int, addr: int, data: seq<byte>)
    requires SameOutside(m, m', lo, hi) && BytesAt(m, addr, data) && (addr + |data| <= lo || hi <= addr)
    ensures BytesAt(m', addr, data)
  {
    assert m'[addr..addr + |data|] == m[addr..addr + |data|];
  }

  /** `u64::saturating_add`. */
  function SaturatingAdd(a: u64, n: nat): u64 { if a + n < U64_LIMIT then a + n else U64_LIMIT - 1 }

  /** The range leaves 64 bits and the stack reaches the last address. */
  predicate SaturationMisleads(lo: u64, hi: u64, addr: u64, n: nat)
  {
    hi == U64_LIMIT - 1 && lo <= addr && addr + n >= U64_LIMIT
  }

  /** The bounds check of `AppStack::write` says whether the range lies in the stack, exactly when
      saturation does not mislead it. */
  lemma SaturatedCheckExactly(lo: u64, hi: u64, addr: u64, n: nat)
    ensures (!(addr < lo || SaturatingAdd(addr, n) > hi) <==> lo <= addr && addr + n <= hi)
            <==> !SaturationMisleads(lo, hi, addr, n)
  {
  }

  /** It can: two bytes at the last address of a stack that reaches it pass the check. */
  lemma SaturationCanMislead(addr: u64)
    requires addr == U64_LIMIT - 1
    ensures SaturationMisleads(0, addr, addr, 2) && SaturatingAdd(addr, 2) <= addr && addr + 2 > addr
  {
    SaturatedCheckExactly(0, addr, addr, 2);
  }

  /** `build_stack` never gets there: whatever ends inside the stack does not leave 64 bits. */
  lemma InsideIsNotMisled(lo: u64, hi: u64, addr: u64, n: nat)
    requires addr + n <= hi
    ensures !SaturationMisleads(lo, hi, addr, n)
  {
  }

  /** The stack of the application thread inside a larger memory, addressed by index. `low` is the
      lowest address written since it was last set to the top. */
  class StackMem {
    const lo: u64
    const hi: u64
    const mem: array<byte>
    ghost var low: int

    predicate Valid() { lo <= hi <= mem.Length }

    constructor (lo: u64, hi: u64, mem: array<byte>)
      requires lo <= hi <= mem.Length
      ensures Valid() && this.lo == lo && this.hi == hi && this.mem == mem && low == hi
    {
      this.lo, this.hi, this.mem, this.low := lo, hi, mem, hi;
    }

    /** `AppStack::write`: lets through what the saturating check lets through. Unless saturation misleads
        it, that is exactly what lies wholly inside the stack; if it does, nothing is promised about
        memory. */
    method Write(addr: u64, data: seq<byte>) returns (ok: bool)
      requires Valid()
      modifies mem, this`low
      ensures ok <==> (lo <= addr && addr + |data| <= hi) || SaturationMisleads(lo, hi, addr, |data|)
      ensures ok && !SaturationMisleads(lo, hi, addr, |data|) ==>
                BytesAt(mem[..], addr, data) && SameOutside(old(mem[..]), mem[..], addr, addr + |data|)
                && low == if old(low) <= addr then old(low) else addr
      ensures !ok ==> mem[..] == old(mem[..]) && low == old(low)
    {
      ok := !(addr < lo || SaturatingAdd(addr, |data|) > hi);
      // A misled write runs past the last address: undefined, and left out here.
      if ok && addr + |data| <= hi {
        forall i | 0 <= i < |data| {
          mem[addr + i] := data[i];
        }
        low := if low <= addr then low else addr;
        assert mem[..][addr..addr + |data|] == data;
      }
    }
  }

  // ------------------------------------------------------------------ pushing

  class Pusher {
    const w: StackMem
    var sp: u64

    constructor (w: StackMem, sp: u64)
      ensures this.w == w && this.sp == sp
    {
      this.w, this.sp := w, sp;
    }

    /** `push_bytes`: succeeds exactly when the data fits above the bottom. */
    method PushBytes(data: seq<byte>) returns (r: Option<u64>)
      requires w.Valid() && sp <= w.hi
      modifies this, w`low, w.mem
      ensures r.Some? <==> old(sp) - |data| >= w.lo
      ensures r.Some? ==> r.value == sp == old(sp) - |data| && BytesAt(w.mem[..], sp, data)
                          && SameOutside(old(w.mem[..]), w.mem[..], sp, old(sp))
      ensures r.None? ==> w.mem[..] == old(w.mem[..])
      ensures w.low == old(w.low) || (r.Some? && w.low == sp)
      ensures sp <= old(sp)
    {
      if sp - |data| < 0 { return None; }
      sp := sp - |data|;
      if sp < w.lo { return None; }
      InsideIsNotMisled(w.lo, w.hi, sp, |data|);
      var _ := w.Write(sp, data);
      r := Some(sp);
    }

    /** `push_cstr`: a NUL-terminated copy, the terminator first. */
    method PushCstr(s: seq<byte>) returns (r: Option<u64>)
      requires w.Valid() && sp <= w.hi
      modifies this, w`low, w.mem
      ensures r.Some? <==> old(sp) - (|s| + 1) >= w.lo
      ensures r.Some? ==> r.value == sp == old(sp) - (|s| + 1) && CStrAt(w.mem[..], sp, s)
                          && SameOutside(old(w.mem[..]), w.mem[..], sp, old(sp))
      ensures SameOutside(old(w.mem[..]), w.mem[..], w.lo, w.hi)
      ensures old(w.low) >= old(sp) && r.Some? ==> w.low >= sp
      ensures sp <= old(sp)
    {
      ghost var m0 := w.mem[..];
      r := PushBytes([0]);
      if r.None? { return; }
      if s == [] {
        assert s + [0] == [0];
        return;
      }
      ghost var m1, nul := w.mem[..], sp;
      r := PushBytes(s);
      if r.Some? {
        BytesKept(m1, w.mem[..], sp, nul, nul, [0]);
        assert w.mem[..][sp..sp + |s| + 1] == w.mem[..][sp..nul] + w.mem[..][nul..nul + 1];
      }
    }
  }

  // ------------------------------------------------------------------ strings

  function StrSum(strs: Strings): nat { if strs == [] then 0 else |strs[0]| + 1 + StrSum(strs[1..]) }

  lemma {:induction false} StrSumSuffix(strs: Strings, i: nat)
    requires i <= |strs|
    ensures StrSum(strs[i..]) <= StrSum(strs)
  {
    if i > 0 {
      assert strs[1..][i - 1..] == strs[i..];
      StrSumSuffix(strs[1..], i - 1);
    }
  }

  /** Each string has a terminated copy at its address, at or above `from`. */
  predicate StringsAt(m: seq<byte>, strs: Strings, at: seq<u64>, from: int)
  {
    |at| == |strs| && forall i :: 0 <= i < |at| ==> from <= at[i] && CStrAt(m, at[i], strs[i])
  }

  lemma StringsKept(m: seq<byte>, m': seq<byte>, lo: int, hi: int, strs: Strings, at: seq<u64>, from: int, to: int)
    requires SameOutside(m, m', lo, hi) && StringsAt(m, strs, at, from) && hi <= from && to <= from
    ensures StringsAt(m', strs, at, to)
  {
    forall i | 0 <= i < |at| ensures CStrAt(m', at[i], strs[i]) {
      BytesKept(m, m', lo, hi, at[i], strs[i] + [0]);
    }
  }

  lemma SameTrans(m0: seq<byte>, m1: seq<byte>, m2: seq<byte>, a: int, b: int, c: int)
    requires a <= b <= c && SameOutside(m0, m1, b, c) && SameOutside(m1, m2, a, b)
    ensures SameOutside(m0, m2, a, c)
  {
  }

  function Reversed(s: seq<u64>): seq<u64>
  {
    seq(|s|, i requires 0 <= i < |s| => s[|s| - 1 - i])
  }

  /** The two string loops of `build_stack`: pushed last to first, addresses reversed afterwards. */
  method PushStrings(p: Pusher, strs: Strings) returns (r: Option<seq<u64>>)
    requires p.w.Valid() && p.w.lo <= p.sp <= p.w.hi && p.sp <= p.w.low
    modifies p, p.w`low, p.w.mem
    ensures r.Some? <==> old(p.sp) - StrSum(strs) >= p.w.lo
    ensures r.Some? ==> p.sp == old(p.sp) - StrSum(strs) && p.sp <= p.w.low
                        && StringsAt(p.w.mem[..], strs, r.value, p.sp)
                        && SameOutside(old(p.w.mem[..]), p.w.mem[..], p.sp, old(p.sp))
    ensures SameOutside(old(p.w.mem[..]), p.w.mem[..], p.w.lo, p.w.hi)
  {
    ghost var m0, sp0, n := p.w.mem[..], p.sp, |strs|;
    var at: seq<u64> := [];
    var i := |strs|;
    while i > 0
      invariant 0 <= i <= n && |at| == n - i
      invariant p.w.lo <= p.sp == sp0 - StrSum(strs[i..]) && p.sp <= p.w.low
      invariant SameOutside(m0, p.w.mem[..], p.sp, sp0)
      invariant forall j :: 0 <= j < |at| ==> p.sp <= at[j] && CStrAt(p.w.mem[..], at[j], strs[n - 1 - j])
    {
      ghost var m1, sp1 := p.w.mem[..], p.sp;
      assert strs[i - 1..][1..] == strs[i..];
      StrSumSuffix(strs, i - 1);
      var addr := p.PushCstr(strs[i - 1]);
      if addr.None? { return None; }
      ghost var m2 := p.w.mem[..];
      SameTrans(m0, m1, m2, p.sp, sp1, sp0);
      forall j | 0 <= j < |at| ensures CStrAt(m2, at[j], strs[n - 1 - j]) {
        BytesKept(m1, m2, p.sp, sp1, at[j], strs[n - 1 - j] + [0]);
      }
      at := at + [addr.value];
      i := i - 1;
    }
    assert strs[0..] == strs;
    r := Some(Reversed(at));
  }

  // ------------------------------------------------------------ pointer block

  predicate WordsAt(m: seq<byte>, at: int, vs: seq<u64>)
  {
    forall i :: 0 <= i < |vs| ==> WordAt(m, at + 8 * i, vs[i])
  }

  lemma WordsKept(m: seq<byte>, m': seq<byte>, at: int, vs: seq<u64>, hi: int)
    requires WordsAt(m, at, vs) && SameOutside(m, m', at + 8 * |vs|, hi)
    ensures WordsAt(m', at, vs)
  {
    forall i | 0 <= i < |vs| ensures WordAt(m', at + 8 * i, vs[i]) {
      BytesKept(m, m', at + 8 * |vs|, hi, at + 8 * i, ToLe(vs[i], 8));
    }
  }

  /** Writes words upwards from `at`. */
  method PutWords(w: StackMem, at: u64, vs: seq<u64>)
    requires w.Valid() && w.lo <= at && at + 8 * |vs| <= w.hi
    modifies w`low, w.mem
    ensures WordsAt(w.mem[..], at, vs) && SameOutside(old(w.mem[..]), w.mem[..], at, at + 8 * |vs|)
    ensures w.low == if vs == [] || old(w.low) <= at then old(w.low) else at
  {
    ghost var m0 := w.mem[..];
    for i := 0 to |vs|
      invariant WordsAt(w.mem[..], at, vs[..i]) && SameOutside(m0, w.mem[..], at, at + 8 * i)
      invariant w.low == if i == 0 || old(w.low) <= at then old(w.low) else at
    {
      ghost var m1 := w.mem[..];
      InsideIsNotMisled(w.lo, w.hi, at + 8 * i, 8);
      var _ := w.Write(at + 8 * i, ToLe(vs[i], 8));
      WordsKept(m1, w.mem[..], at, vs[..i], at + 8 * i + 8);
      forall k | 0 <= k < i + 1 ensures WordAt(w.mem[..], at + 8 * k, vs[..i + 1][k]) {
        if k < i { assert vs[..i + 1][k] == vs[..i][k]; }
      }
    }
    assert vs[..|vs|] == vs;
  }

  lemma WordsAppend(m: seq<byte>, at: int, x: seq<u64>, y: seq<u64>)
    requires WordsAt(m, at, x) && WordsAt(m, at + 8 * |x|, y)
    ensures WordsAt(m, at, x + y)
  {
    forall i | 0 <= i < |x + y| ensures WordAt(m, at + 8 * i, (x + y)[i]) {
      if i >= |x| {
        assert WordAt(m, at + 8 * |x| + 8 * (i - |x|), y[i - |x|]);
        assert at + 8 * |x| + 8 * (i - |x|) == at + 8 * i;
      }
    }
  }

  /** Adds words to a block that starts at `sp` and already holds `done`. */
  method AppendWords(w: StackMem, ghost sp: int, ghost done: seq<u64>, at: u64, vs: seq<u64>) returns (next: int)
    requires w.Valid() && w.lo <= sp && at == sp + 8 * |done| && at + 8 * |vs| <= w.hi
    requires WordsAt(w.mem[..], sp, done)
    modifies w`low, w.mem
    ensures next == at + 8 * |vs| && WordsAt(w.mem[..], sp, done + vs)
    ensures SameOutside(old(w.mem[..]), w.mem[..], at, next)
    ensures w.low == if vs == [] || old(w.low) <= at then old(w.low) else at
  {
    ghost var m0 := w.mem[..];
    PutWords(w, at, vs);
    WordsKept(m0, w.mem[..], sp, done, at + 8 * |vs|);
    WordsAppend(w.mem[..], sp, done, vs);
    next := at + 8 * |vs|;
  }

  // --------------------------------------------------------- auxiliary vector

  datatype Blobs = Blobs(platform: Option<u64>, execfn: u64, random: u64)

  /** The entries every auxiliary vector has between the header entries and the platform. */
  function FixedAux(aux: AuxvSpec, b: Blobs): seq<(u64, u64)>
  {
    [(6, aux.pagesz), (7, aux.base), (8, 0), (9, aux.entry), (11, aux.uid), (12, aux.uid), (13, aux.gid), (14, aux.gid),
     (23, if aux.secure then 1 else 0), (17, aux.clktck), (16, aux.hwcap), (26, aux.hwcap2), (25, b.random)]
  }

  /** The auxiliary vector without its terminator, in the order it is written. */
  function AuxList(aux: AuxvSpec, b: Blobs): seq<(u64, u64)>
  {
    (if aux.phdr.Some? then [(3, aux.phdr.value), (4, aux.phent), (5, aux.phnum)] else [])
    + FixedAux(aux, b)
    + (if b.platform.Some? then [(15, b.platform.value)] else [])
    + [(31, b.execfn)]
    + (if aux.sysinfoEhdr.Some? then [(33, aux.sysinfoEhdr.value)] else [])
    + (if aux.minsigstksz.Some? then [(51, aux.minsigstksz.value)] else [])
  }

  function PairWords(av: seq<(u64, u64)>): (ws: seq<u64>)
    ensures |ws| == 2 * |av|
  {
    if av == [] then [] else [av[0].0, av[0].1] + PairWords(av[1..])
  }

  /** The pointer block, from `argc` to AT_NULL. */
  function Block(argvAt: seq<u64>, envpAt: seq<u64>, av: seq<(u64, u64)>): (ws: seq<u64>)
    requires |argvAt| < U64_LIMIT
    ensures |ws| == 3 + |argvAt| + |envpAt| + 2 * |av| + 2
  {
    [|argvAt|] + argvAt + [0] + envpAt + [0] + PairWords(av + [(0, 0)])
  }

  // -------------------------------------------------------------- closed form

  function AfterPlatform(hi: int, aux: AuxvSpec): int
  {
    AlignDown(hi, 16) - (if aux.platform == [] then 0 else |aux.platform| + 1)
  }

  function AfterExecfn(hi: int, aux: AuxvSpec): int { AfterPlatform(hi, aux) - (|aux.execfn| + 1) }

  /** Where the blobs end: platform, execfn, then the random bytes on a 16-byte boundary. */
  function AfterBlobs(hi: int, aux: AuxvSpec): int { AlignDown(AfterExecfn(hi, aux), 16) - |aux.random| }

  function AfterStrings(hi: int, argv: Strings, envp: Strings, aux: AuxvSpec): int
  {
    AfterBlobs(hi, aux) - StrSum(envp) - StrSum(argv)
  }

  /** Number of auxiliary entries, terminator included. */
  function AuxCount(aux: AuxvSpec): nat
  {
    15 + (if aux.phdr.Some? then 3 else 0) + (if aux.platform == [] then 0 else 1)
    + (if aux.sysinfoEhdr.Some? then 1 else 0) + (if aux.minsigstksz.Some? then 1 else 0)
  }

  function BlockSize(argv: Strings, envp: Strings, aux: AuxvSpec): nat
  {
    (3 + |argv| + |envp|) * 8 + AuxCount(aux) * 16
  }

  /** The stack pointer, in closed form over the integers. */
  function FinalSp(hi: int, argv: Strings, envp: Strings, aux: AuxvSpec): int
  {
    AlignDown(AfterStrings(hi, argv, envp, aux) - BlockSize(argv, envp, aux), 16)
  }

  // ------------------------------------------------------------- build_stack

  predicate BlobsAt(m: seq<byte>, aux: AuxvSpec, b: Blobs, from: int)
  {
    (b.platform.Some? <==> aux.platform != [])
    && (b.platform.Some? ==> from <= b.platform.value && CStrAt(m, b.platform.value, aux.platform))
    && from <= b.execfn && CStrAt(m, b.execfn, aux.execfn)
    && from <= b.random && BytesAt(m, b.random, aux.random)
  }

  lemma BlobsKept(m: seq<byte>, m': seq<byte>, lo: int, hi: int, aux: AuxvSpec, b: Blobs, from: int, to: int)
    requires SameOutside(m, m', lo, hi) && BlobsAt(m, aux, b, from) && hi <= from && to <= from
    ensures BlobsAt(m', aux, b, to)
  {
    if b.platform.Some? { BytesKept(m, m', lo, hi, b.platform.value, aux.platform + [0]); }
    BytesKept(m, m', lo, hi, b.execfn, aux.execfn + [0]);
    BytesKept(m, m', lo, hi, b.random, aux.random);
  }

  predicate NamesAt(m: seq<byte>, aux: AuxvSpec, platform: Option<u64>, execfn: u64, from: int)
  {
    (platform.Some? <==> aux.platform != [])
    && (platform.Some? ==> from <= platform.value && CStrAt(m, platform.value, aux.platform))
    && from <= execfn && CStrAt(m, execfn, aux.execfn)
  }

  /** The platform string, when there is one, and the executable's name. */
  method PushNames(p: Pusher, aux: AuxvSpec) returns (ok: bool, platform: Option<u64>, execfn: u64)
    requires p.w.Valid() && p.sp == AlignDown(p.w.hi, 16) <= p.w.hi && p.sp <= p.w.low
    modifies p, p.w`low, p.w.mem
    ensures ok <==> AfterExecfn(p.w.hi, aux) >= p.w.lo
    ensures ok ==> p.sp == AfterExecfn(p.w.hi, aux) <= p.w.low && NamesAt(p.w.mem[..], aux, platform, execfn, p.sp)
    ensures SameOutside(old(p.w.mem[..]), p.w.mem[..], p.w.lo, p.w.hi)
  {
    hide AlignDown;
    ok, platform, execfn := false, None, 0;
    if aux.platform != [] {
      platform := p.PushCstr(aux.platform);
      if platform.None? { return; }
    }
    ghost var m1, sp1 := p.w.mem[..], p.sp;
    var at := p.PushCstr(aux.execfn);
    if at.None? { return; }
    if platform.Some? { BytesKept(m1, p.w.mem[..], p.sp, sp1, platform.value, aux.platform + [0]); }
    ok, execfn := true, at.value;
  }

  /** Platform, execfn and the random bytes, highest first. */
  method PushBlobs(p: Pusher, aux: AuxvSpec) returns (r: Option<Blobs>)
    requires p.w.Valid() && p.sp == AlignDown(p.w.hi, 16) && p.sp <= p.w.low && aux.random != []
    modifies p, p.w`low, p.w.mem
    ensures r.Some? <==> AfterBlobs(p.w.hi, aux) >= p.w.lo
    ensures r.Some? ==> p.sp == AfterBlobs(p.w.hi, aux) <= p.w.low && p.sp <= p.w.hi && BlobsAt(p.w.mem[..], aux, r.value, p.sp)
    ensures SameOutside(old(p.w.mem[..]), p.w.mem[..], p.w.lo, p.w.hi)
  {
    AlignBounds(p.w.hi, 16);
    AlignBounds(AfterExecfn(p.w.hi, aux), 16);
    hide AlignDown;
    var ok, platform, execfn := PushNames(p, aux);
    if !ok { return None; }
    ghost var m2 := p.w.mem[..];
    p.sp := AlignDown(p.sp, 16);
    ghost var sp2 := p.sp;
    var randomAt := p.PushBytes(aux.random);
    if randomAt.None? { return None; }
    if platform.Some? { BytesKept(m2, p.w.mem[..], p.sp, sp2, platform.value, aux.platform + [0]); }
    BytesKept(m2, p.w.mem[..], p.sp, sp2, execfn, aux.execfn + [0]);
    r := Some(Blobs(platform, execfn, randomAt.value));
  }

  /** Where everything went. */
  datatype Addresses = Addresses(argv: seq<u64>, envp: seq<u64>, blobs: Blobs)

  /** The finished stack: the pointer block at `sp` and, above it, an intact copy of everything it
      points at. */
  ghost predicate Laid(m: seq<byte>, sp: int, argv: Strings, envp: Strings, aux: AuxvSpec, at: Addresses)
  {
    |at.argv| < U64_LIMIT
    && var ws := Block(at.argv, at.envp, AuxList(aux, at.blobs));
       0 <= sp && WordsAt(m, sp, ws)
       && StringsAt(m, argv, at.argv, sp + 8 * |ws|) && StringsAt(m, envp, at.envp, sp + 8 * |ws|)
       && BlobsAt(m, aux, at.blobs, sp + 8 * |ws|)
  }

  lemma BlobsLength(m: seq<byte>, aux: AuxvSpec, b: Blobs, from: int)
    requires BlobsAt(m, aux, b, from)
    ensures |AuxList(aux, b)| + 1 == AuxCount(aux)
  {
    AuxLength(aux, b);
  }

  lemma StringsLength(m: seq<byte>, strs: Strings, at: seq<u64>, from: int)
    requires StringsAt(m, strs, at, from)
    ensures |at| == |strs|
  {
  }

  lemma SameWider(m: seq<byte>, m': seq<byte>, lo: int, hi: int, lo': int, hi': int)
    requires SameOutside(m, m', lo, hi) && lo' <= lo && hi <= hi'
    ensures SameOutside(m, m', lo', hi')
  {
  }

  lemma LaidOut(m: seq<byte>, sp: int, argv: Strings, envp: Strings, aux: AuxvSpec, at: Addresses)
    requires |at.argv| < U64_LIMIT && 0 <= sp
    requires var ws := Block(at.argv, at.envp, AuxList(aux, at.blobs));
             WordsAt(m, sp, ws) && StringsAt(m, argv, at.argv, sp + 8 * |ws|)
             && StringsAt(m, envp, at.envp, sp + 8 * |ws|) && BlobsAt(m, aux, at.blobs, sp + 8 * |ws|)
    ensures Laid(m, sp, argv, envp, aux, at)
  {
  }

  lemma AuxLength(aux: AuxvSpec, b: Blobs)
    requires b.platform.Some? <==> aux.platform != []
    ensures |AuxList(aux, b)| + 1 == AuxCount(aux)
  {
  }

  function Pointers(argvAt: seq<u64>, envpAt: seq<u64>): seq<u64>
    requires |argvAt| < U64_LIMIT
  {
    [|argvAt|] + argvAt + [0] + envpAt + [0]
  }

  /** `argc` and the two pointer arrays. */
  method PutPointers(w: StackMem, sp: u64, argvAt: seq<u64>, envpAt: seq<u64>)
    requires w.Valid() && w.lo <= sp && |argvAt| < U64_LIMIT && sp + 8 * |Pointers(argvAt, envpAt)| <= w.hi
    modifies w`low, w.mem
    ensures WordsAt(w.mem[..], sp, Pointers(argvAt, envpAt))
    ensures SameOutside(old(w.mem[..]), w.mem[..], sp, sp + 8 * |Pointers(argvAt, envpAt)|)
    ensures old(w.low) >= sp ==> w.low == sp
  {
    hide WordsAt;
    PutWords(w, sp, [|argvAt|]);
    var at := AppendWords(w, sp, [|argvAt|], sp + 8, argvAt);
    at := AppendWords(w, sp, [|argvAt|] + argvAt, at, [0]);
    at := AppendWords(w, sp, [|argvAt|] + argvAt + [0], at, envpAt);
    at := AppendWords(w, sp, [|argvAt|] + argvAt + [0] + envpAt, at, [0]);
  }

  /** Writes the block group by group, low to high. */
  method PutBlock(w: StackMem, sp: u64, argvAt: seq<u64>, envpAt: seq<u64>, av: seq<(u64, u64)>)
    requires w.Valid() && w.lo <= sp && |argvAt| < U64_LIMIT
    requires sp + 8 * |Block(argvAt, envpAt, av)| <= w.hi
    modifies w`low, w.mem
    ensures WordsAt(w.mem[..], sp, Block(argvAt, envpAt, av))
    ensures SameOutside(old(w.mem[..]), w.mem[..], sp, sp + 8 * |Block(argvAt, envpAt, av)|)
    ensures old(w.low) >= sp ==> w.low == sp
  {
    hide WordsAt;
    PutPointers(w, sp, argvAt, envpAt);
    ghost var ps := Pointers(argvAt, envpAt);
    var _ := AppendWords(w, sp, ps, sp + 8 * (3 + |argvAt| + |envpAt|), PairWords(av + [(0, 0)]));
  }

  /** Everything `build_stack` is called with. */
  predicate StackPre(argv: Strings, envp: Strings, aux: AuxvSpec)
  {
    (forall s :: s in argv ==> Sliceable(s)) && (forall s :: s in envp ==> Sliceable(s)) && |aux.random| == 16
  }

  /** The closed form only goes down: a step that does not fit makes the whole stack not fit. */
  lemma SpDescends(hi: int, argv: Strings, envp: Strings, aux: AuxvSpec)
    requires StackPre(argv, envp, aux)
    ensures FinalSp(hi, argv, envp, aux) + BlockSize(argv, envp, aux) <= AfterStrings(hi, argv, envp, aux)
    ensures AfterStrings(hi, argv, envp, aux) <= AfterBlobs(hi, aux) - StrSum(envp) <= AfterBlobs(hi, aux) <= hi
    ensures FinalSp(hi, argv, envp, aux) % 16 == 0
  {
    AlignBounds(AfterStrings(hi, argv, envp, aux) - BlockSize(argv, envp, aux), 16);
    RemIs(FinalSp(hi, argv, envp, aux), 16);
    AlignBounds(AfterExecfn(hi, aux), 16);
    AlignBounds(hi, 16);
  }

  lemma FinalSpIs(hi: int, argv: Strings, envp: Strings, aux: AuxvSpec)
    ensures FinalSp(hi, argv, envp, aux) == AlignDown(AfterStrings(hi, argv, envp, aux) - BlockSize(argv, envp, aux), 16)
  {
  }

  /** The policy bounds the number of pointers, so the size of the block cannot overflow. */
  lemma PolicyBounds(argv: Strings, envp: Strings, stackSize: int)
    requires PolicyOk(argv, envp, stackSize) && stackSize < U64_LIMIT
    ensures |argv| + |envp| < 0x1000_0000_0000_0000
  {
  }

  /** The auxiliary vector and the pointer block below the strings. */
  method FinishStack(p: Pusher, argv: Strings, envp: Strings, aux: AuxvSpec,
                     argvAt: seq<u64>, envpAt: seq<u64>, blobs: Blobs) returns (sp: Option<u64>)
    requires p.w.Valid() && p.w.lo <= p.sp <= p.w.hi && p.sp <= p.w.low
    requires |argv| + |envp| < 0x1000_0000_0000_0000
    requires StringsAt(p.w.mem[..], argv, argvAt, p.sp) && StringsAt(p.w.mem[..], envp, envpAt, p.sp)
    requires BlobsAt(p.w.mem[..], aux, blobs, p.sp)
    modifies p.w`low, p.w.mem
    ensures sp.Some? <==> AlignDown(p.sp - BlockSize(argv, envp, aux), 16) >= p.w.lo
    ensures sp.Some? ==> sp.value == AlignDown(p.sp - BlockSize(argv, envp, aux), 16) == p.w.low
                         && Laid(p.w.mem[..], sp.value, argv, envp, aux, Addresses(argvAt, envpAt, blobs))
    ensures SameOutside(old(p.w.mem[..]), p.w.mem[..], p.w.lo, p.w.hi)
  {
    hide AlignDown, AuxList, BlobsAt, StringsAt, WordsAt, Laid, Block, SameOutside, PairWords;
    var av := AuxList(aux, blobs);
    BlobsLength(p.w.mem[..], aux, blobs, p.sp);
    StringsLength(p.w.mem[..], argv, argvAt, p.sp);
    StringsLength(p.w.mem[..], envp, envpAt, p.sp);
    SameSelf(p.w.mem[..], p.w.lo, p.w.hi);
    var block: u64 := (1 + |argv| + 1 + |envp| + 1) * 8 + (|av| + 1) * 16;
    AlignBounds(p.sp - block, 16);
    sp := None;
    if p.sp - block >= 0 && AlignDown(p.sp - block, 16) >= p.w.lo {
      var low := AlignDown(p.sp - block, 16);
      ghost var m := p.w.mem[..];
      PutBlock(p.w, low, argvAt, envpAt, av);
      StringsKept(m, p.w.mem[..], low, low + block, argv, argvAt, p.sp, low + block);
      StringsKept(m, p.w.mem[..], low, low + block, envp, envpAt, p.sp, low + block);
      BlobsKept(m, p.w.mem[..], low, low + block, aux, blobs, p.sp, low + block);
      SameWider(m, p.w.mem[..], low, low + block, p.w.lo, p.w.hi);
      LaidOut(p.w.mem[..], low, argv, envp, aux, Addresses(argvAt, envpAt, blobs));
      sp := Some(low);
    }
  }

  /** All strings and blobs, from the top down. */
  method PushAll(p: Pusher, argv: Strings, envp: Strings, aux: AuxvSpec) returns (r: Option<Addresses>)
    requires p.w.Valid() && p.sp == AlignDown(p.w.hi, 16) && p.sp <= p.w.low && StackPre(argv, envp, aux)
    modifies p, p.w`low, p.w.mem
    ensures r.Some? <==> AfterStrings(p.w.hi, argv, envp, aux) >= p.w.lo
    ensures r.Some? ==> p.sp == AfterStrings(p.w.hi, argv, envp, aux) <= p.w.low && p.sp <= p.w.hi
                        && StringsAt(p.w.mem[..], argv, r.value.argv, p.sp)
                        && StringsAt(p.w.mem[..], envp, r.value.envp, p.sp)
                        && BlobsAt(p.w.mem[..], aux, r.value.blobs, p.sp)
    ensures SameOutside(old(p.w.mem[..]), p.w.mem[..], p.w.lo, p.w.hi)
  {
    hide AlignDown, BlobsAt, StringsAt, AfterBlobs;
    var blobs := PushBlobs(p, aux);
    if blobs.None? { return None; }
    ghost var m1, sp1 := p.w.mem[..], p.sp;
    var envpAt := PushStrings(p, envp);
    if envpAt.None? { return None; }
    ghost var m2, sp2 := p.w.mem[..], p.sp;
    BlobsKept(m1, m2, sp2, sp1, aux, blobs.value, sp1, sp2);
    var argvAt := PushStrings(p, argv);
    if argvAt.None? { return None; }
    BlobsKept(m2, p.w.mem[..], p.sp, sp2, aux, blobs.value, sp2, p.sp);
    StringsKept(m2, p.w.mem[..], p.sp, sp2, envp, envpAt.value, sp2, p.sp);
    r := Some(Addresses(argvAt.value, envpAt.value, blobs.value));
  }

  lemma SameTwice(m0: seq<byte>, m1: seq<byte>, m2: seq<byte>, lo: int, hi: int)
    requires SameOutside(m0, m1, lo, hi) && SameOutside(m1, m2, lo, hi)
    ensures SameOutside(m0, m2, lo, hi)
  {
  }

  /** Everything after the size policy. */
  method LayOut(p: Pusher, argv: Strings, envp: Strings, aux: AuxvSpec) returns (sp: Option<u64>, ghost at: Addresses)
    requires p.w.Valid() && p.sp == AlignDown(p.w.hi, 16) <= p.w.hi
    requires StackPre(argv, envp, aux) && |argv| + |envp| < 0x1000_0000_0000_0000
    modifies p, p.w`low, p.w.mem
    ensures sp.Some? <==> FinalSp(p.w.hi, argv, envp, aux) >= p.w.lo
    ensures sp.Some? ==> sp.value == FinalSp(p.w.hi, argv, envp, aux) == p.w.low
                         && Laid(p.w.mem[..], sp.value, argv, envp, aux, at)
    ensures SameOutside(old(p.w.mem[..]), p.w.mem[..], p.w.lo, p.w.hi)
  {
    hide AlignDown, AfterStrings, BlobsAt, StringsAt, Laid, BlockSize, SameOutside, StackPre, FinalSp;
    at, p.w.low := Addresses([], [], Blobs(None, 0, 0)), p.w.hi;
    SpDescends(p.w.hi, argv, envp, aux);
    FinalSpIs(p.w.hi, argv, envp, aux);
    ghost var m0 := p.w.mem[..];
    var all := PushAll(p, argv, envp, aux);
    sp := None;
    if all.Some? {
      at := all.value;
      ghost var m1 := p.w.mem[..];
      sp := FinishStack(p, argv, envp, aux, all.value.argv, all.value.envp, all.value.blobs);
      SameTwice(m0, m1, p.w.mem[..], p.w.lo, p.w.hi);
    }
  }

  lemma SameSelf(m: seq<byte>, lo: int, hi: int)
    ensures SameOutside(m, m, lo, hi)
  {
  }

  /** `build_stack`. It succeeds exactly when the size policy passes and the closed-form stack
      pointer is not below the bottom; then everything is laid out from that pointer up and it is the
      lowest byte written. On every run nothing outside the stack is touched. */
  method BuildStack(w: StackMem, argv: Strings, envp: Strings, aux: AuxvSpec)
    returns (r: Result<StackLayout, Errno>, ghost at: Addresses)
    requires w.Valid() && StackPre(argv, envp, aux)
    modifies w`low, w.mem
    ensures r.Ok? <==> PolicyOk(argv, envp, w.hi - w.lo) && FinalSp(w.hi, argv, envp, aux) >= w.lo
    ensures r.Err? ==> r.error == E2BIG
    ensures r.Ok? ==> r.value.sp == r.value.argcAt == r.value.lowWater == FinalSp(w.hi, argv, envp, aux)
                      && r.value.sp % 16 == 0 && w.low == r.value.sp
                      && Laid(w.mem[..], r.value.sp, argv, envp, aux, at)
    ensures SameOutside(old(w.mem[..]), w.mem[..], w.lo, w.hi)
  {
    hide FinalSp, Laid, PolicyOk, SameOutside, AlignDown, Sliceable;
    at := Addresses([], [], Blobs(None, 0, 0));
    SpDescends(w.hi, argv, envp, aux);
    AlignBounds(w.hi, 16);
    SameSelf(w.mem[..], w.lo, w.hi);
    var policy := CheckArgEnvSize(argv, envp, w.hi - w.lo);
    r := Err(E2BIG);
    if policy.Ok? {
      PolicyBounds(argv, envp, w.hi - w.lo);
      var p := new Pusher(w, AlignDown(w.hi, 16));
      var sp;
      sp, at := LayOut(p, argv, envp, aux);
      if sp.Some? {
        r := Ok(StackLayout(sp.value, sp.value, sp.value));
      }
    }
  }

  // ---------------------------------------------------- the same, in plain sums

  function Joined(strs: Strings): seq<byte> { if strs == [] then [] else strs[0] + Joined(strs[1..]) }

  lemma {:induction false} JoinedEnd(strs: Strings, s: seq<byte>)
    ensures Joined(strs + [s]) == Joined(strs) + s
  {
    if strs == [] {
      assert strs + [s] == [s] && [s][1..] == [];
    } else {
      assert (strs + [s])[1..] == strs[1..] + [s];
      JoinedEnd(strs[1..], s);
    }
  }

  lemma {:induction false} ArgSizeIs(strs: Strings)
    ensures ArgSize(strs) == |Joined(strs)| + 9 * |strs|
  {
    if strs != [] {
      var n := |strs| - 1;
      ArgSizeIs(strs[..n]);
      JoinedEnd(strs[..n], strs[n]);
      assert strs[..n] + [strs[n]] == strs;
    }
  }

  lemma {:induction false} StrSumIs(strs: Strings)
    ensures StrSum(strs) == |Joined(strs)| + |strs|
  {
    if strs != [] { StrSumIs(strs[1..]); }
  }

  /** The size policy: nine bytes a string on top of its own, within 128 KiB or a quarter of the stack. */
  lemma PolicyExactly(argv: Strings, envp: Strings, stackSize: nat)
    ensures PolicyOk(argv, envp, stackSize) <==>
            var total := |Joined(argv)| + |Joined(envp)| + 9 * (|argv| + |envp|);
            total <= 131072 || 4 * total <= stackSize
  {
    hide ArgSize, Joined;
    ArgSizeIs(argv);
    ArgSizeIs(envp);
  }

  /** Where the 16 random bytes go: below the names, on a multiple of 16. */
  function RandomAt(hi: nat, aux: AuxvSpec): int
  {
    var names := hi - hi % 16 - (if aux.platform == [] then 0 else |aux.platform| + 1) - (|aux.execfn| + 1);
    names - names % 16 - 16
  }

  /** The stack pointer: below the random bytes all strings with their terminators, then eight bytes for
      each of `argc`, the pointers and two nulls and sixteen for each auxiliary entry and AT_NULL, down to
      a multiple of 16. */
  lemma FinalSpExactly(hi: nat, argv: Strings, envp: Strings, aux: AuxvSpec, b: Blobs)
    requires StackPre(argv, envp, aux) && (b.platform.Some? <==> aux.platform != [])
    ensures var strings := RandomAt(hi, aux) - (|Joined(argv)| + |argv|) - (|Joined(envp)| + |envp|);
            var low := strings - 8 * (3 + |argv| + |envp|) - 16 * (|AuxList(aux, b)| + 1);
            FinalSp(hi, argv, envp, aux) == low - low % 16
  {
    hide StrSum, Joined, AuxList, Rem;
    StrSumIs(argv);
    StrSumIs(envp);
    AuxLength(aux, b);
    RemIs(hi, 16);
    RemIs(AfterExecfn(hi, aux), 16);
    RemIs(AfterStrings(hi, argv, envp, aux) - BlockSize(argv, envp, aux), 16);
  }
}
