/** Reading an initial stack back the way a libc start-up does, and the round trip with the writer. */
module StackReader {
  import opened Words
  import opened Elf
  import opened InitialStack

  datatype Parsed = Parsed(argv: Strings, envp: Strings, auxv: seq<(u64, u64)>)

  function ReadWord(m: seq<byte>, at: int): Option<u64>
  {
    if 0 <= at && at + 8 <= |m| then Some(U64Le(m, at)) else None
  }

  /** The bytes from `at` up to the first NUL. */
  function ReadCstr(m: seq<byte>, at: int): Option<seq<byte>>
  {
    if 0 <= at <= |m| && FirstNul(m[at..]) < |m[at..]| then Some(m[at..][..FirstNul(m[at..])]) else None
  }

  /** `n` strings through `n` pointers from `at`. */
  function ReadArgs(m: seq<byte>, at: int, n: nat): Option<Strings>
    decreases n
  {
    if n == 0 then Some([])
    else if ReadWord(m, at).None? then None
    else
      var s, rest := ReadCstr(m, ReadWord(m, at).value), ReadArgs(m, at + 8, n - 1);
      if s.None? || rest.None? then None else Some([s.value] + rest.value)
  }

  /** Strings through pointers from `at` up to a null pointer, and where that was. */
  function ReadEnv(m: seq<byte>, at: int): Option<(Strings, int)>
    decreases |m| - at
  {
    if ReadWord(m, at).None? then None
    else if ReadWord(m, at).value == 0 then Some(([], at))
    else
      var s, rest := ReadCstr(m, ReadWord(m, at).value), ReadEnv(m, at + 8);
      if s.None? || rest.None? then None else Some(([s.value] + rest.value.0, rest.value.1))
  }

  /** Key and value pairs from `at` up to AT_NULL. */
  function ReadAux(m: seq<byte>, at: int): Option<seq<(u64, u64)>>
    decreases |m| - at
  {
    var k, v := ReadWord(m, at), ReadWord(m, at + 8);
    if k.None? || v.None? then None
    else if k.value == 0 then Some([])
    else
      var rest := ReadAux(m, at + 16);
      if rest.None? then None else Some([(k.value, v.value)] + rest.value)
  }

  /** A libc's view of the stack at `sp`. */
  function Decode(m: seq<byte>, sp: int): Option<Parsed>
  {
    var argc := ReadWord(m, sp);
    if argc.None? then None
    else
      var argv, end := ReadArgs(m, sp + 8, argc.value), ReadWord(m, sp + 8 + 8 * argc.value);
      if argv.None? || end != Some(0) then None
      else
        var envp := ReadEnv(m, sp + 8 + 8 * argc.value + 8);
        if envp.None? then None
        else
          var auxv := ReadAux(m, envp.value.1 + 8);
          if auxv.None? then None else Some(Parsed(argv.value, envp.value.0, auxv.value))
  }

  /** What a C string can carry: everything before the first NUL. */
  function UpToNul(s: seq<byte>): seq<byte> { s[..FirstNul(s)] }

  function CStrings(strs: Strings): Strings { if strs == [] then [] else [UpToNul(strs[0])] + CStrings(strs[1..]) }

  lemma {:induction false} NulFreeStrings(strs: Strings)
    requires forall s :: s in strs ==> 0 !in s
    ensures CStrings(strs) == strs
  {
    if strs != [] {
      NulFreeStrings(strs[1..]);
      assert 0 !in strs[0];
      assert UpToNul(strs[0]) == strs[0];
      assert strs == [strs[0]] + strs[1..];
    }
  }

  lemma WordReads(m: seq<byte>, at: int, v: u64)
    requires WordAt(m, at, v)
    ensures ReadWord(m, at) == Some(v)
  {
    Pow256Values();
    LeRoundTrip(v, 8);
  }

  lemma {:induction false} FirstNulOf(s: seq<byte>, rest: seq<byte>)
    ensures FirstNul(s + [0] + rest) == FirstNul(s)
  {
    if s == [] {
      assert (s + [0] + rest)[0] == 0;
    } else {
      assert (s + [0] + rest)[1..] == s[1..] + [0] + rest && (s + [0] + rest)[0] == s[0];
      FirstNulOf(s[1..], rest);
    }
  }

  lemma CstrReads(m: seq<byte>, at: int, s: seq<byte>)
    requires CStrAt(m, at, s)
    ensures ReadCstr(m, at) == Some(UpToNul(s))
  {
    var rest := m[at + |s| + 1..];
    assert m[at..] == m[at..at + |s| + 1] + rest == s + [0] + rest;
    FirstNulOf(s, rest);
    assert (s + [0] + rest)[..FirstNul(s)] == s[..FirstNul(s)];
  }

  lemma TailStrings(m: seq<byte>, strs: Strings, at: seq<u64>, from: int)
    requires StringsAt(m, strs, at, from) && strs != []
    ensures StringsAt(m, strs[1..], at[1..], from) && CStrAt(m, at[0], strs[0]) && from <= at[0]
  {
    forall i | 0 <= i < |at[1..]| ensures from <= at[1..][i] && CStrAt(m, at[1..][i], strs[1..][i]) {
      assert at[1..][i] == at[i + 1] && strs[1..][i] == strs[i + 1];
    }
  }

  lemma TailWords(m: seq<byte>, at: int, x: seq<u64>, y: seq<u64>)
    requires WordsAt(m, at, x + y)
    ensures WordsAt(m, at, x) && WordsAt(m, at + 8 * |x|, y)
  {
    forall i | 0 <= i < |x| ensures WordAt(m, at + 8 * i, x[i]) {
      assert (x + y)[i] == x[i];
    }
    forall i | 0 <= i < |y| ensures WordAt(m, at + 8 * |x| + 8 * i, y[i]) {
      assert (x + y)[|x| + i] == y[i];
      assert at + 8 * (|x| + i) == at + 8 * |x| + 8 * i;
    }
  }

  lemma OneWord(m: seq<byte>, at: int, v: u64)
    requires WordsAt(m, at, [v])
    ensures ReadWord(m, at) == Some(v)
  {
    assert WordAt(m, at + 8 * 0, [v][0]);
    WordReads(m, at, v);
  }

  lemma {:induction false} ArgsRead(m: seq<byte>, at: int, strs: Strings, ptrs: seq<u64>, from: int)
    requires WordsAt(m, at, ptrs) && StringsAt(m, strs, ptrs, from)
    ensures ReadArgs(m, at, |ptrs|) == Some(CStrings(strs))
    decreases |ptrs|
  {
    assert |strs| == |ptrs|;
    hide WordsAt, StringsAt, CStrAt, ReadWord, ReadCstr, UpToNul;
    if ptrs != [] {
      TailStrings(m, strs, ptrs, from);
      assert ptrs == [ptrs[0]] + ptrs[1..];
      TailWords(m, at, [ptrs[0]], ptrs[1..]);
      OneWord(m, at, ptrs[0]);
      CstrReads(m, ptrs[0], strs[0]);
      ArgsRead(m, at + 8, strs[1..], ptrs[1..], from);
    }
  }

  /** The first pointer and its string are in place, followed by the rest. */
  lemma FirstPointer(m: seq<byte>, at: int, strs: Strings, ptrs: seq<u64>, from: int)
    requires WordsAt(m, at, ptrs + [0]) && StringsAt(m, strs, ptrs, from) && ptrs != []
    ensures |strs| == |ptrs| && from <= ptrs[0]
    ensures ReadWord(m, at) == Some(ptrs[0]) && ReadCstr(m, ptrs[0]) == Some(UpToNul(strs[0]))
    ensures WordsAt(m, at + 8, ptrs[1..] + [0]) && StringsAt(m, strs[1..], ptrs[1..], from)
  {
    TailStrings(m, strs, ptrs, from);
    assert ptrs + [0] == [ptrs[0]] + (ptrs[1..] + [0]);
    TailWords(m, at, [ptrs[0]], ptrs[1..] + [0]);
    hide WordsAt, StringsAt, CStrAt, ReadWord, ReadCstr, UpToNul;
    OneWord(m, at, ptrs[0]);
    CstrReads(m, ptrs[0], strs[0]);
  }

  lemma EnvEnds(m: seq<byte>, at: int)
    requires WordsAt(m, at, [0])
    ensures ReadEnv(m, at) == Some(([], at))
  {
    hide WordsAt, ReadWord;
    OneWord(m, at, 0);
  }

  lemma SameCount(m: seq<byte>, strs: Strings, ptrs: seq<u64>, from: int)
    requires StringsAt(m, strs, ptrs, from)
    ensures |strs| == |ptrs| && (strs == [] ==> CStrings(strs) == [])
  {
  }

  lemma {:induction false} EnvReads(m: seq<byte>, at: int, strs: Strings, ptrs: seq<u64>, from: int)
    requires WordsAt(m, at, ptrs + [0]) && StringsAt(m, strs, ptrs, from) && from > 0
    ensures ReadEnv(m, at) == Some((CStrings(strs), at + 8 * |ptrs|))
    decreases |ptrs|
  {
    hide WordsAt, StringsAt, CStrAt, ReadWord, ReadCstr, UpToNul, ReadEnv, CStrings;
    SameCount(m, strs, ptrs, from);
    if ptrs == [] {
      assert ptrs + [0] == [0];
      EnvEnds(m, at);
    } else {
      FirstPointer(m, at, strs, ptrs, from);
      EnvReads(m, at + 8, strs[1..], ptrs[1..], from);
      EnvStep(m, at, ptrs[0], strs, at + 8 * |ptrs|);
    }
  }

  /** One more string in front. */
  lemma EnvStep(m: seq<byte>, at: int, ptr: u64, strs: Strings, end: int)
    requires strs != [] && ptr != 0 && ReadWord(m, at) == Some(ptr) && ReadCstr(m, ptr) == Some(UpToNul(strs[0]))
    requires ReadEnv(m, at + 8) == Some((CStrings(strs[1..]), end))
    ensures ReadEnv(m, at) == Some((CStrings(strs), end))
  {
    hide ReadWord, ReadCstr, UpToNul;
  }

  lemma {:induction false} AuxReads(m: seq<byte>, at: int, av: seq<(u64, u64)>)
    requires WordsAt(m, at, PairWords(av + [(0, 0)])) && forall i :: 0 <= i < |av| ==> av[i].0 != 0
    ensures ReadAux(m, at) == Some(av)
    decreases |av|
  {
    var all := av + [(0, 0)];
    assert PairWords(all) == [all[0].0, all[0].1] + PairWords(all[1..]);
    TailWords(m, at, [all[0].0, all[0].1], PairWords(all[1..]));
    assert WordAt(m, at + 8 * 0, [all[0].0, all[0].1][0]) && WordAt(m, at + 8 * 1, [all[0].0, all[0].1][1]);
    WordReads(m, at, all[0].0);
    WordReads(m, at + 8, all[0].1);
    if av != [] {
      assert all[1..] == av[1..] + [(0, 0)];
      AuxReads(m, at + 16, av[1..]);
      assert av == [av[0]] + av[1..];
    }
  }

  /** Every key of the auxiliary vector is non-zero. */
  lemma AuxKeysNonZero(aux: AuxvSpec, b: Blobs)
    ensures forall i :: 0 <= i < |AuxList(aux, b)| ==> AuxList(aux, b)[i].0 != 0
  {
  }

  /** The five groups of the pointer block. */
  lemma BlockGroups(m: seq<byte>, sp: int, argvAt: seq<u64>, envpAt: seq<u64>, av: seq<(u64, u64)>)
    requires |argvAt| < U64_LIMIT && WordsAt(m, sp, Block(argvAt, envpAt, av))
    ensures WordsAt(m, sp, [|argvAt|]) && WordsAt(m, sp + 8, argvAt)
    ensures WordsAt(m, sp + 8 + 8 * |argvAt|, [0]) && WordsAt(m, sp + 8 + 8 * |argvAt| + 8, envpAt + [0])
    ensures WordsAt(m, sp + 8 + 8 * |argvAt| + 8 + 8 * (|envpAt| + 1), PairWords(av + [(0, 0)]))
  {
    hide WordsAt, PairWords;
    var n, pairs := |argvAt|, PairWords(av + [(0, 0)]);
    var env := (envpAt + [0]) + pairs;
    assert Block(argvAt, envpAt, av) == [n] + (argvAt + ([0] + env));
    TailWords(m, sp, [n], argvAt + ([0] + env));
    TailWords(m, sp + 8, argvAt, [0] + env);
    TailWords(m, sp + 8 + 8 * n, [0], env);
    TailWords(m, sp + 8 + 8 * n + 8, envpAt + [0], pairs);
  }

  /** Stack round trip: decoding a finished stack from `sp` gives back the arguments, the environment
      and the auxiliary vector. */
  lemma DecodeLaid(m: seq<byte>, sp: int, argv: Strings, envp: Strings, aux: AuxvSpec, at: Addresses)
    requires Laid(m, sp, argv, envp, aux, at)
    ensures Decode(m, sp) == Some(Parsed(CStrings(argv), CStrings(envp), AuxList(aux, at.blobs)))
  {
    hide AuxList, PairWords, BlobsAt, WordsAt, StringsAt, ReadWord, ReadArgs, ReadEnv, ReadAux;
    var av, n := AuxList(aux, at.blobs), |at.argv|;
    var from := sp + 8 * |Block(at.argv, at.envp, av)|;
    BlockGroups(m, sp, at.argv, at.envp, av);
    OneWord(m, sp, n);
    OneWord(m, sp + 8 + 8 * n, 0);
    ArgsRead(m, sp + 8, argv, at.argv, from);
    EnvReads(m, sp + 8 + 8 * n + 8, envp, at.envp, from);
    AuxKeysNonZero(aux, at.blobs);
    AuxReads(m, sp + 8 + 8 * n + 8 + 8 * (|at.envp| + 1), av);
  }

  /** For NUL-free inputs the round trip is exact, and AT_RANDOM, AT_PLATFORM and AT_EXECFN point at
      intact copies above the block. */
  lemma RoundTrip(m: seq<byte>, sp: int, argv: Strings, envp: Strings, aux: AuxvSpec, at: Addresses)
    requires Laid(m, sp, argv, envp, aux, at)
    requires (forall s :: s in argv ==> 0 !in s) && (forall s :: s in envp ==> 0 !in s)
    requires 0 !in aux.platform && 0 !in aux.execfn
    ensures Decode(m, sp) == Some(Parsed(argv, envp, AuxList(aux, at.blobs)))
    ensures (25, at.blobs.random) in AuxList(aux, at.blobs) && BytesAt(m, at.blobs.random, aux.random)
    ensures (31, at.blobs.execfn) in AuxList(aux, at.blobs) && ReadCstr(m, at.blobs.execfn) == Some(aux.execfn)
    ensures aux.platform != [] ==> at.blobs.platform.Some? && (15, at.blobs.platform.value) in AuxList(aux, at.blobs)
                                   && ReadCstr(m, at.blobs.platform.value) == Some(aux.platform)
  {
    DecodeLaid(m, sp, argv, envp, aux, at);
    NulFreeStrings(argv);
    NulFreeStrings(envp);
    CstrReads(m, at.blobs.execfn, aux.execfn);
    assert UpToNul(aux.execfn) == aux.execfn;
    if aux.platform != [] {
      CstrReads(m, at.blobs.platform.value, aux.platform);
      assert UpToNul(aux.platform) == aux.platform;
    }
    RandomAndNames(aux, at.blobs);
  }

  lemma RandomAndNames(aux: AuxvSpec, b: Blobs)
    ensures (25, b.random) in AuxList(aux, b) && (31, b.execfn) in AuxList(aux, b)
    ensures b.platform.Some? ==> (15, b.platform.value) in AuxList(aux, b)
  {
    var p := if aux.phdr.Some? then 3 else 0;
    assert AuxList(aux, b)[p + 12] == (25, b.random);
    var q := if b.platform.Some? then 1 else 0;
    assert AuxList(aux, b)[p + 13 + q] == (31, b.execfn);
    if b.platform.Some? { assert AuxList(aux, b)[p + 13] == (15, b.platform.value); }
  }

  /** Position of a key in the full vector. */
  function Rank(key: u64): nat
  {
    if key == 3 then 0 else if key == 4 then 1 else if key == 5 then 2 else if key == 6 then 3
    else if key == 7 then 4 else if key == 8 then 5 else if key == 9 then 6 else if key == 11 then 7
    else if key == 12 then 8 else if key == 13 then 9 else if key == 14 then 10 else if key == 23 then 11
    else if key == 17 then 12 else if key == 16 then 13 else if key == 26 then 14 else if key == 25 then 15
    else if key == 15 then 16 else if key == 31 then 17 else if key == 33 then 18 else 19
  }

  function RankAt(aux: AuxvSpec, b: Blobs, i: nat): nat
  {
    var p, q := if aux.phdr.Some? then 3 else 0, if b.platform.Some? then 1 else 0;
    if i < p then i
    else if i < p + 13 then i + 3 - p
    else if i < p + 13 + q then 16
    else if i == p + 13 + q then 17
    else if i == p + 14 + q && aux.sysinfoEhdr.Some? then 18
    else 19
  }

  lemma FixedRank(aux: AuxvSpec, b: Blobs, k: nat)
    requires k < |FixedAux(aux, b)|
    ensures Rank(FixedAux(aux, b)[k].0) == k + 3
  {
  }

  lemma AuxRank(aux: AuxvSpec, b: Blobs, i: nat)
    requires i < |AuxList(aux, b)|
    ensures Rank(AuxList(aux, b)[i].0) == RankAt(aux, b, i)
  {
    var p := if aux.phdr.Some? then 3 else 0;
    assert |FixedAux(aux, b)| == 13;
    if p <= i < p + 13 {
      FixedRank(aux, b, i - p);
      hide FixedAux, Rank;
      assert AuxList(aux, b)[i] == FixedAux(aux, b)[i - p];
    } else {
      hide FixedAux;
    }
  }

  /** No key of the auxiliary vector appears twice. */
  lemma AuxKeysDistinct(aux: AuxvSpec, b: Blobs, i: nat, j: nat)
    requires i < j < |AuxList(aux, b)|
    ensures AuxList(aux, b)[i].0 != AuxList(aux, b)[j].0
  {
    AuxRank(aux, b, i);
    AuxRank(aux, b, j);
    var n := |AuxList(aux, b)|;
    hide AuxList, Rank;
    assert RankAt(aux, b, i) < RankAt(aux, b, j);
  }
}
