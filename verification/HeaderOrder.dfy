/** How far the order of the program header table matters: sorting the PT_LOAD entries is stable and
    complete, and acceptance and plan are free of the order exactly when no two different loads share
    an address. */
module HeaderOrder {
  import opened Words
  import opened Elf
  import opened ElfWriter
  import opened Layout

  // ------------------------------------------------------------ the stable sort

  /** Entry `x` goes before entry `y`: a lower address, or the same one and earlier in the table. */
  predicate Before(phdrs: seq<Phdr>, x: nat, y: nat)
    requires x < |phdrs| && y < |phdrs|
  {
    phdrs[x].vaddr < phdrs[y].vaddr || (phdrs[x].vaddr == phdrs[y].vaddr && x < y)
  }

  predicate StableOrder(phdrs: seq<Phdr>, r: seq<nat>)
    requires InTable(phdrs, r)
  {
    forall i, j :: 0 <= i < j < |r| ==> Before(phdrs, r[i], r[j])
  }

  /** An ascending sequence is one whose last entry goes after the others, which are ascending. */
  lemma OrderSplits(phdrs: seq<Phdr>, r: seq<nat>, y: nat)
    requires InTable(phdrs, r) && y < |phdrs|
    ensures StableOrder(phdrs, r + [y]) <==>
            StableOrder(phdrs, r) && forall k :: 0 <= k < |r| ==> Before(phdrs, r[k], y)
  {
    hide Before;
    var s := r + [y];
    assert StableOrder(phdrs, s) ==> StableOrder(phdrs, r) && forall k :: 0 <= k < |r| ==> Before(phdrs, r[k], y) by {
      assert forall k :: 0 <= k < |r| ==> s[k] == r[k];
      assert s[|r|] == y;
    }
  }

  lemma InsertMembers(phdrs: seq<Phdr>, sorted: seq<nat>, x: nat)
    requires InTable(phdrs, sorted) && x < |phdrs|
    ensures var r := InsertLoad(phdrs, sorted, x); forall k :: 0 <= k < |r| ==> r[k] == x || r[k] in sorted
  {
    hide InsertLoad;
    var r := InsertLoad(phdrs, sorted, x);
    forall k | 0 <= k < |r| ensures r[k] == x || r[k] in sorted {
      assert r[k] in multiset(r);
    }
  }

  lemma {:induction false} InsertKeepsOrder(phdrs: seq<Phdr>, sorted: seq<nat>, x: nat)
    requires InTable(phdrs, sorted) && x < |phdrs| && StableOrder(phdrs, sorted)
    requires forall k :: 0 <= k < |sorted| ==> sorted[k] < x
    ensures StableOrder(phdrs, InsertLoad(phdrs, sorted, x))
  {
    if sorted != [] {
      var n := |sorted| - 1;
      var rest, y := sorted[..n], sorted[n];
      assert sorted == rest + [y];
      hide StableOrder;
      OrderSplits(phdrs, rest, y);
      if phdrs[y].vaddr <= phdrs[x].vaddr {
        OrderSplits(phdrs, sorted, x);
      } else {
        InsertKeepsOrder(phdrs, rest, x);
        InsertMembers(phdrs, rest, x);
        OrderSplits(phdrs, InsertLoad(phdrs, rest, x), y);
      }
    }
  }

  /** `sort_by_key` is a stable sort of the loads: the same entries, in the one stable order. */
  lemma {:induction false} SortIsStable(phdrs: seq<Phdr>, idx: seq<nat>)
    requires InTable(phdrs, idx) && forall j, k :: 0 <= j < k < |idx| ==> idx[j] < idx[k]
    ensures StableOrder(phdrs, SortLoads(phdrs, idx)) && multiset(SortLoads(phdrs, idx)) == multiset(idx)
  {
    if idx != [] {
      var n := |idx| - 1;
      SortIsStable(phdrs, idx[..n]);
      var r := SortLoads(phdrs, idx[..n]);
      forall k | 0 <= k < |r| ensures r[k] < idx[n] {
        assert r[k] in multiset(r);
        assert r[k] in idx[..n];
      }
      InsertKeepsOrder(phdrs, r, idx[n]);
    }
  }

  // --------------------------------------------------- entries as a multiset

  /** The first `n` entries of type `t`, in table order. */
  function OfType(phdrs: seq<Phdr>, n: nat, t: u32): (r: seq<Phdr>)
    requires n <= |phdrs|
    ensures forall i :: 0 <= i < |r| ==> r[i].ptype == t && r[i] in phdrs[..n]
  {
    if n == 0 then []
    else if phdrs[n - 1].ptype == t then OfType(phdrs, n - 1, t) + [phdrs[n - 1]] else OfType(phdrs, n - 1, t)
  }

  lemma CountAppend(s: seq<Phdr>, x: Phdr, h: Phdr)
    ensures multiset(s + [x])[h] == multiset(s)[h] + if x == h then 1 else 0
  {
  }

  lemma {:induction false} OfTypeCount(phdrs: seq<Phdr>, n: nat, t: u32, h: Phdr)
    requires n <= |phdrs|
    ensures multiset(OfType(phdrs, n, t))[h] == if h.ptype == t then multiset(phdrs[..n])[h] else 0
  {
    if n > 0 {
      var x, front := phdrs[n - 1], phdrs[..n - 1];
      OfTypeCount(phdrs, n - 1, t, h);
      assert phdrs[..n] == front + [x];
      CountAppend(front, x, h);
      CountAppend(OfType(phdrs, n - 1, t), x, h);
    }
  }

  /** Tables that are permutations of each other have the same entries of each type. */
  lemma OfTypePermuted(p: seq<Phdr>, q: seq<Phdr>, t: u32)
    requires multiset(p) == multiset(q)
    ensures multiset(OfType(p, |p|, t)) == multiset(OfType(q, |q|, t))
    ensures |OfType(p, |p|, t)| == |OfType(q, |q|, t)|
  {
    assert p[..|p|] == p && q[..|q|] == q;
    forall h ensures multiset(OfType(p, |p|, t))[h] == multiset(OfType(q, |q|, t))[h] {
      OfTypeCount(p, |p|, t, h);
      OfTypeCount(q, |q|, t, h);
    }
    assert multiset(OfType(p, |p|, t)) == multiset(OfType(q, |q|, t));
    assert |multiset(OfType(p, |p|, t))| == |OfType(p, |p|, t)| && |multiset(OfType(q, |q|, t))| == |OfType(q, |q|, t)|;
  }

  lemma {:induction false} OfTypeNone(phdrs: seq<Phdr>, n: nat, t: u32)
    requires n <= |phdrs|
    ensures OfType(phdrs, n, t) == [] <==> forall i :: 0 <= i < n ==> phdrs[i].ptype != t
  {
    if n > 0 { OfTypeNone(phdrs, n - 1, t); }
  }

  lemma {:induction false} AtMostOneCount(phdrs: seq<Phdr>, n: nat, t: u32)
    requires n <= |phdrs|
    ensures AtMostOne(phdrs, n, t) <==> |OfType(phdrs, n, t)| <= 1
  {
    if n > 0 {
      AtMostOneCount(phdrs, n - 1, t);
      OfTypeNone(phdrs, n - 1, t);
      assert AtMostOne(phdrs, n, t) <==>
             AtMostOne(phdrs, n - 1, t)
             && (phdrs[n - 1].ptype == t ==> forall i :: 0 <= i < n - 1 ==> phdrs[i].ptype != t);
    }
  }

  lemma EntriesOkPermuted(p: seq<Phdr>, q: seq<Phdr>, page: u64, size: Option<u64>)
    requires page > 0 && multiset(p) == multiset(q) && EntriesOk(p, |p|, page, size)
    ensures EntriesOk(q, |q|, page, size)
  {
    SameElements(q, p);
    OfTypePermuted(p, q, PT_INTERP);
    AtMostOneCount(p, |p|, PT_INTERP);
    AtMostOneCount(q, |q|, PT_INTERP);
  }

  // ------------------------------------------------------- the sorted headers

  function Headers(phdrs: seq<Phdr>, idx: seq<nat>): seq<Phdr>
    requires InTable(phdrs, idx)
  {
    seq(|idx|, k requires 0 <= k < |idx| => phdrs[idx[k]])
  }

  function SortedHeaders(phdrs: seq<Phdr>): seq<Phdr> { Headers(phdrs, SortedLoads(phdrs)) }

  lemma HeadersAppend(phdrs: seq<Phdr>, idx: seq<nat>, x: nat)
    requires InTable(phdrs, idx) && x < |phdrs|
    ensures Headers(phdrs, idx + [x]) == Headers(phdrs, idx) + [phdrs[x]]
    ensures multiset(Headers(phdrs, idx + [x])) == multiset(Headers(phdrs, idx)) + multiset{phdrs[x]}
  {
  }

  lemma {:induction false} InsertHeaders(phdrs: seq<Phdr>, sorted: seq<nat>, x: nat)
    requires InTable(phdrs, sorted) && x < |phdrs|
    ensures multiset(Headers(phdrs, InsertLoad(phdrs, sorted, x))) == multiset(Headers(phdrs, sorted)) + multiset{phdrs[x]}
  {
    hide Headers;
    if sorted == [] {
      HeadersAppend(phdrs, [], x);
      assert [] + [x] == [x];
    } else {
      var n := |sorted| - 1;
      var rest, y := sorted[..n], sorted[n];
      assert sorted == rest + [y];
      HeadersAppend(phdrs, rest, y);
      if phdrs[y].vaddr <= phdrs[x].vaddr {
        HeadersAppend(phdrs, sorted, x);
      } else {
        InsertHeaders(phdrs, rest, x);
        HeadersAppend(phdrs, InsertLoad(phdrs, rest, x), y);
      }
    }
  }

  lemma {:induction false} SortHeaders(phdrs: seq<Phdr>, idx: seq<nat>)
    requires InTable(phdrs, idx)
    ensures multiset(Headers(phdrs, SortLoads(phdrs, idx))) == multiset(Headers(phdrs, idx))
  {
    hide Headers, InsertLoad;
    if idx != [] {
      var n := |idx| - 1;
      var rest := idx[..n];
      assert idx == rest + [idx[n]];
      SortHeaders(phdrs, rest);
      InsertHeaders(phdrs, SortLoads(phdrs, rest), idx[n]);
      HeadersAppend(phdrs, rest, idx[n]);
    }
  }

  lemma {:induction false} LoadHeaders(phdrs: seq<Phdr>, n: nat)
    requires n <= |phdrs|
    ensures Headers(phdrs, LoadIndices(phdrs, n)) == OfType(phdrs, n, PT_LOAD)
  {
    if n > 0 {
      LoadHeaders(phdrs, n - 1);
      if phdrs[n - 1].ptype == PT_LOAD {
        assert Headers(phdrs, LoadIndices(phdrs, n)) == Headers(phdrs, LoadIndices(phdrs, n - 1)) + [phdrs[n - 1]];
      }
    }
  }

  lemma SortedHeadersAre(phdrs: seq<Phdr>)
    ensures multiset(SortedHeaders(phdrs)) == multiset(OfType(phdrs, |phdrs|, PT_LOAD))
    ensures Ascending(SortedHeaders(phdrs))
  {
    hide SortLoads, LoadIndices, OfType;
    SortHeaders(phdrs, LoadIndices(phdrs, |phdrs|));
    LoadHeaders(phdrs, |phdrs|);
    SortIsStable(phdrs, LoadIndices(phdrs, |phdrs|));
  }

  predicate Ascending(b: seq<Phdr>) { forall i, j :: 0 <= i < j < |b| ==> b[i].vaddr <= b[j].vaddr }

  /** Entries that share an address are the same entry. */
  predicate AddressDecides(a: seq<Phdr>) { forall i, j :: 0 <= i < j < |a| && a[i].vaddr == a[j].vaddr ==> a[i] == a[j] }

  lemma SameLast(a: seq<Phdr>, b: seq<Phdr>)
    requires multiset(a) == multiset(b) && Ascending(a) && Ascending(b) && AddressDecides(a)
    ensures |a| == |b| && (a != [] ==> a[|a| - 1] == b[|b| - 1])
  {
    SameElements(a, b);
    SameElements(b, a);
    if a != [] {
      var n := |a| - 1;
      var i :| 0 <= i < |b| && b[i] == a[n];
      var j :| 0 <= j < |a| && a[j] == b[n];
      assert a[n].vaddr <= b[n].vaddr;
      assert a[j].vaddr <= a[n].vaddr;
    }
  }

  lemma SameFront<T>(a: seq<T>, b: seq<T>, x: T)
    requires multiset(a + [x]) == multiset(b + [x])
    ensures multiset(a) == multiset(b)
  {
    assert multiset(a + [x]) - multiset{x} == multiset(a);
    assert multiset(b + [x]) - multiset{x} == multiset(b);
  }

  /** There is one ascending arrangement of entries that their addresses tell apart. */
  lemma {:induction false} SortedIsUnique(a: seq<Phdr>, b: seq<Phdr>)
    requires multiset(a) == multiset(b) && Ascending(a) && Ascending(b) && AddressDecides(a)
    ensures a == b
    decreases |a|
  {
    SameLast(a, b);
    if a != [] {
      var n := |a| - 1;
      var x, front, back := a[n], a[..n], b[..n];
      assert a == front + [x] && b == back + [x];
      SameFront(front, back, x);
      SortedIsUnique(front, back);
    }
  }

  // ------------------------------------------- exactly when the order is free

  /** Entries `i` and `j` are different PT_LOAD entries with one address. */
  predicate Clash(phdrs: seq<Phdr>, i: nat, j: nat)
    requires i < |phdrs| && j < |phdrs|
  {
    phdrs[i].ptype == PT_LOAD && phdrs[j].ptype == PT_LOAD
    && phdrs[i].vaddr == phdrs[j].vaddr && phdrs[i] != phdrs[j]
  }

  predicate LoadsToldApart(phdrs: seq<Phdr>)
  {
    forall i, j :: 0 <= i < |phdrs| && 0 <= j < |phdrs| ==> !Clash(phdrs, i, j)
  }

  /** The sorted loads are indices of PT_LOAD entries. */
  lemma SortedAreLoads(phdrs: seq<Phdr>, k: nat)
    requires k < |SortedLoads(phdrs)|
    ensures SortedLoads(phdrs)[k] < |phdrs| && phdrs[SortedLoads(phdrs)[k]].ptype == PT_LOAD
  {
    hide SortLoads, LoadIndices;
    SameElements(SortedLoads(phdrs), LoadIndices(phdrs, |phdrs|));
  }

  /** Every PT_LOAD entry has a place among the sorted loads. */
  lemma PlaceOf(phdrs: seq<Phdr>, i: nat) returns (k: nat)
    requires i < |phdrs| && phdrs[i].ptype == PT_LOAD
    ensures k < |SortedLoads(phdrs)| && SortedLoads(phdrs)[k] == i
  {
    hide SortLoads, LoadIndices;
    var idx := LoadIndices(phdrs, |phdrs|);
    var m :| 0 <= m < |idx| && idx[m] == i;
    SameElements(idx, SortedLoads(phdrs));
    k :| 0 <= k < |SortedLoads(phdrs)| && SortedLoads(phdrs)[k] == idx[m];
  }

  lemma SortedToldApart(phdrs: seq<Phdr>)
    requires LoadsToldApart(phdrs)
    ensures AddressDecides(SortedHeaders(phdrs))
  {
    hide SortedLoads;
    var loads, a := SortedLoads(phdrs), SortedHeaders(phdrs);
    forall i, j | 0 <= i < j < |a| && a[i].vaddr == a[j].vaddr ensures a[i] == a[j] {
      SortedAreLoads(phdrs, i);
      SortedAreLoads(phdrs, j);
      assert !Clash(phdrs, loads[i], loads[j]);
    }
  }

  lemma AcceptedPermuted(p: seq<Phdr>, q: seq<Phdr>, page: u64, size: Option<u64>)
    requires page > 0 && multiset(p) == multiset(q) && AcceptsTable(p, page, size) && LoadsToldApart(p)
    ensures AcceptsTable(q, page, size) && SortedHeaders(p) == SortedHeaders(q)
  {
    SortedToldApart(p);
    SortedHeadersAre(p);
    SortedHeadersAre(q);
    OfTypePermuted(p, q, PT_LOAD);
    SortedIsUnique(SortedHeaders(p), SortedHeaders(q));
    EntriesOkPermuted(p, q, page, size);
    SameSeparation(p, q, page);
  }

  /** The table with entries `i` and `j` exchanged. */
  function Exchanged(p: seq<Phdr>, i: nat, j: nat): (q: seq<Phdr>)
    requires i < |p| && j < |p|
    ensures |q| == |p| && multiset(q) == multiset(p)
  {
    p[i := p[j]][j := p[i]]
  }

  /** Two tables with the same types and addresses line by line are sorted in the same way. */
  lemma {:induction false} SameIndices(p: seq<Phdr>, q: seq<Phdr>, n: nat)
    requires |p| == |q| && n <= |p|
    requires forall k :: 0 <= k < |p| ==> p[k].ptype == q[k].ptype
    ensures LoadIndices(p, n) == LoadIndices(q, n)
  {
    if n > 0 { SameIndices(p, q, n - 1); }
  }

  lemma {:induction false} SameSort(p: seq<Phdr>, q: seq<Phdr>, idx: seq<nat>)
    requires |p| == |q| && InTable(p, idx)
    requires forall k :: 0 <= k < |p| ==> p[k].vaddr == q[k].vaddr
    ensures SortLoads(p, idx) == SortLoads(q, idx)
  {
    hide InsertLoad;
    if idx != [] {
      var n := |idx| - 1;
      SameSort(p, q, idx[..n]);
      SameInsert(p, q, SortLoads(p, idx[..n]), idx[n]);
    }
  }

  lemma {:induction false} SameInsert(p: seq<Phdr>, q: seq<Phdr>, sorted: seq<nat>, x: nat)
    requires |p| == |q| && InTable(p, sorted) && x < |p|
    requires forall k :: 0 <= k < |p| ==> p[k].vaddr == q[k].vaddr
    ensures InsertLoad(p, sorted, x) == InsertLoad(q, sorted, x)
  {
    if sorted != [] { SameInsert(p, q, sorted[..|sorted| - 1], x); }
  }

  /** Exchanging two different loads with one address gives the planner another sequence. */
  lemma ExchangeShows(p: seq<Phdr>, i: nat, j: nat)
    requires i < |p| && j < |p| && Clash(p, i, j)
    ensures SortedHeaders(Exchanged(p, i, j)) != SortedHeaders(p)
  {
    var q := Exchanged(p, i, j);
    SameIndices(p, q, |p|);
    SameSort(p, q, LoadIndices(p, |p|));
    var k := PlaceOf(p, i);
    assert SortedHeaders(p)[k] == p[i] && SortedHeaders(q)[k] == p[j];
  }

  /** The order of an accepted table is free, so that every permutation of it is accepted and gives
      the planner the same loads, exactly when no two different loads share an address. */
  lemma OrderIsFreeExactly(p: seq<Phdr>, page: u64, size: Option<u64>)
    requires page > 0 && AcceptsTable(p, page, size)
    ensures (forall q :: multiset(q) == multiset(p) ==>
               AcceptsTable(q, page, size) && SortedHeaders(q) == SortedHeaders(p))
            <==> LoadsToldApart(p)
  {
    if LoadsToldApart(p) {
      forall q | multiset(q) == multiset(p)
        ensures AcceptsTable(q, page, size) && SortedHeaders(q) == SortedHeaders(p)
      {
        AcceptedPermuted(p, q, page, size);
      }
    } else {
      var i, j :| 0 <= i < |p| && 0 <= j < |p| && Clash(p, i, j);
      ExchangeShows(p, i, j);
    }
  }

  /** Two loads at the head of a table, in ascending order, stay where they are. */
  lemma TwoLoads(p: seq<Phdr>)
    requires |p| >= 2 && LoadIndices(p, |p|) == [0, 1] && p[0].vaddr <= p[1].vaddr
    ensures SortedLoads(p) == [0, 1]
  {
    hide LoadIndices, SortLoads, InsertLoad;
    var r := SortedLoads(p);
    SortIsStable(p, [0, 1]);
    SameElements(r, [0, 1]);
    assert Before(p, r[0], r[1]);
  }

  lemma TwoIndices(p: seq<Phdr>)
    requires |p| == 2 && p[0].ptype == PT_LOAD && p[1].ptype == PT_LOAD
    ensures LoadIndices(p, |p|) == [0, 1]
  {
    assert LoadIndices(p, 1) == LoadIndices(p, 0) + [0];
    assert LoadIndices(p, 2) == LoadIndices(p, 1) + [1];
  }

  lemma TwoAccepted(page: u64, p: seq<Phdr>, size: Option<u64>)
    requires page > 0 && |p| == 2 && p[0].ptype == PT_LOAD && p[1].ptype == PT_LOAD && p[0].vaddr <= p[1].vaddr
    requires ValidLoad(p[0], page, size) && ValidLoad(p[1], page, size)
    ensures AcceptsTable(p, page, size) <==> Up(MemEnd(p[0]), page) <= p[1].vaddr
  {
    hide SortedLoads, Up, ValidLoad, MemEnd;
    assert EntriesOk(p, 2, page, size);
    TwoIndices(p);
    TwoLoads(p);
    hide EntriesOk;
    assert SeparatedAt(p, SortedLoads(p), 0, page) <==> Up(MemEnd(p[0]), page) <= p[1].vaddr;
  }

  lemma ZeroLoads(page: u64, e: Phdr, f: Phdr, size: Option<u64>)
    requires page > 0
    requires e == Phdr(PT_LOAD, 4, 0, 0, 0, 0, 0, 0) && f == Phdr(PT_LOAD, 4, 0, 0, 0, 0, page, 0)
    ensures ValidLoad(e, page, size) && ValidLoad(f, page, size)
  {
    hide IsPow2;
  }

  /** A table of an empty load and a load of one page, both at zero. */
  function EmptyAndFull(page: u64, emptyFirst: bool): seq<Phdr>
  {
    var e, f := Phdr(PT_LOAD, 4, 0, 0, 0, 0, 0, 0), Phdr(PT_LOAD, 4, 0, 0, 0, 0, page, 0);
    if emptyFirst then [e, f] else [f, e]
  }

  lemma EmptyFirstAccepted(page: u64, emptyFirst: bool, size: Option<u64>)
    requires page > 0
    ensures AcceptsTable(EmptyAndFull(page, emptyFirst), page, size) <==> emptyFirst
  {
    hide AcceptsTable, Up, ValidLoad;
    var p := EmptyAndFull(page, emptyFirst);
    ZeroLoads(page, p[if emptyFirst then 0 else 1], p[if emptyFirst then 1 else 0], size);
    UpOnePage(page);
    TwoAccepted(page, p, size);
  }

  lemma OrderDecides(page: u64, native: u16, src: Source, mid: seq<byte>, end: seq<byte>, emptyFirst: bool)
    requires page > 0 && Wrote(src, TwoEhdr(native), EmptyAndFull(page, emptyFirst), mid, end, [])
    ensures Accepts(src, page, native) <==> emptyFirst
  {
    hide AcceptsTable, Accepts, HeaderOk, EhdrBytes, TableBytes, EmptyAndFull, SmallestEhdr;
    SmallestHeaders(native, 0, page, None);
    HeaderCounts(native);
    EmptyFirstAccepted(page, emptyFirst, src.Size());
    ParseOfWritten(src, TwoEhdr(native), EmptyAndFull(page, emptyFirst), mid, end, [], page, native);
  }

  /** The order is not always free: two files that differ in the order of their two program headers, an
      empty page-aligned load and a load at its own address; one is accepted and the other not. */
  lemma OrderCanMatter(page: u64, native: u16) returns (good: Source, bad: Source, mid: seq<byte>, end: seq<byte>)
    requires page > 0
    ensures Wrote(good, TwoEhdr(native), EmptyAndFull(page, true), mid, end, []) && Accepts(good, page, native)
    ensures Wrote(bad, TwoEhdr(native), EmptyAndFull(page, false), mid, end, []) && !Accepts(bad, page, native)
  {
    hide Accepts, EhdrBytes, TableBytes;
    good, mid, end := WriteFile(TwoEhdr(native), EmptyAndFull(page, true));
    bad := Source(EhdrBytes(TwoEhdr(native), mid, end) + (TableBytes(EmptyAndFull(page, false)) + []), true);
    OrderDecides(page, native, good, mid, end, true);
    OrderDecides(page, native, bad, mid, end, false);
  }

  function TwoEhdr(native: u16): Ehdr { SmallestEhdr(native, 0).(phnum := 2) }

  lemma HeaderCounts(native: u16)
    requires HeaderOk(SmallestEhdr(native, 0), native)
    ensures HeaderOk(TwoEhdr(native), native)
  {
  }

  // ------------------------------------------------------- the whole image

  /** Everything later stages see of a table: the sorted loads, PT_INTERP, PT_PHDR and the stack request. */
  function View(phdrs: seq<Phdr>): (seq<Phdr>, Option<Phdr>, Option<Phdr>, bool)
  {
    (SortedHeaders(phdrs), LastOf(phdrs, |phdrs|, PT_INTERP), LastOf(phdrs, |phdrs|, PT_PHDR),
     WantsExecStack(LastOf(phdrs, |phdrs|, PT_GNU_STACK)))
  }

  /** Entries of type `t` are all the same entry. */
  predicate OneOfKind(phdrs: seq<Phdr>, t: u32)
  {
    forall i, j :: 0 <= i < |phdrs| && 0 <= j < |phdrs| && phdrs[i].ptype == t && phdrs[j].ptype == t ==> phdrs[i] == phdrs[j]
  }

  /** PT_GNU_STACK entries all say the same about execution. */
  predicate OneStackRequest(phdrs: seq<Phdr>)
  {
    forall i, j :: 0 <= i < |phdrs| && 0 <= j < |phdrs| && phdrs[i].ptype == PT_GNU_STACK && phdrs[j].ptype == PT_GNU_STACK ==>
                     phdrs[i].IsExec() == phdrs[j].IsExec()
  }

  lemma {:induction false} LastOfIs(phdrs: seq<Phdr>, n: nat, t: u32)
    requires n <= |phdrs| && LastOf(phdrs, n, t).Some?
    ensures exists i :: LastAt(phdrs, n, t, i)
  {
    if phdrs[n - 1].ptype == t {
      assert LastAt(phdrs, n, t, n - 1);
    } else {
      LastOfIs(phdrs, n - 1, t);
      var i :| LastAt(phdrs, n - 1, t, i);
      assert LastAt(phdrs, n, t, i);
    }
  }

  /** Entry `i` is the last of type `t` below `n`. */
  predicate LastAt(phdrs: seq<Phdr>, n: nat, t: u32, i: int)
    requires n <= |phdrs|
  {
    0 <= i < n && phdrs[i].ptype == t && LastOf(phdrs, n, t) == Some(phdrs[i])
    && forall j :: i < j < n ==> phdrs[j].ptype != t
  }

  lemma {:induction false} LastAtIs(phdrs: seq<Phdr>, n: nat, t: u32, i: nat)
    requires i < n <= |phdrs| && phdrs[i].ptype == t && forall j :: i < j < n ==> phdrs[j].ptype != t
    ensures LastOf(phdrs, n, t) == Some(phdrs[i])
  {
    if i < n - 1 { LastAtIs(phdrs, n - 1, t, i); }
  }

  lemma SameNone(p: seq<Phdr>, q: seq<Phdr>, t: u32)
    requires multiset(p) == multiset(q) && LastOf(p, |p|, t).None?
    ensures LastOf(q, |q|, t).None?
  {
    LastOfNone(p, |p|, t);
    LastOfNone(q, |q|, t);
    SameElements(q, p);
    forall i | 0 <= i < |q| ensures q[i].ptype != t {
      assert q[i] in p;
      var j :| 0 <= j < |p| && p[j] == q[i];
    }
  }

  /** A permutation's last entry of a type is an entry of the table. */
  lemma LastIsEntry(p: seq<Phdr>, q: seq<Phdr>, t: u32) returns (i: nat)
    requires multiset(p) == multiset(q) && LastOf(q, |q|, t).Some?
    ensures i < |p| && p[i].ptype == t && LastOf(q, |q|, t) == Some(p[i])
  {
    LastOfIs(q, |q|, t);
    var k :| LastAt(q, |q|, t, k);
    SameElements(q, p);
    assert q[k] in p;
    i :| 0 <= i < |p| && p[i] == q[k];
  }

  lemma SameLastOf(p: seq<Phdr>, q: seq<Phdr>, t: u32)
    requires multiset(p) == multiset(q)
    ensures LastOf(p, |p|, t).Some? <==> LastOf(q, |q|, t).Some?
    ensures OneOfKind(p, t) ==> LastOf(p, |p|, t) == LastOf(q, |q|, t)
    ensures t == PT_GNU_STACK && OneStackRequest(p) ==> WantsExecStack(LastOf(p, |p|, t)) == WantsExecStack(LastOf(q, |q|, t))
  {
    if LastOf(p, |p|, t).None? {
      SameNone(p, q, t);
    } else {
      if LastOf(q, |q|, t).None? { SameNone(q, p, t); }
      var i := LastIsEntry(p, p, t);
      var j := LastIsEntry(p, q, t);
    }
  }

  /** Exchanging an entry with the last of its type makes it the last. */
  lemma ExchangeLast(p: seq<Phdr>, t: u32, i: nat) returns (q: seq<Phdr>)
    requires i < |p| && p[i].ptype == t
    ensures multiset(q) == multiset(p) && LastOf(q, |q|, t) == Some(p[i])
  {
    LastOfNone(p, |p|, t);
    LastOfIs(p, |p|, t);
    var k :| LastAt(p, |p|, t, k);
    q := Exchanged(p, i, k);
    LastAtIs(q, |q|, t, k);
  }

  lemma AtMostOneIsOne(p: seq<Phdr>, t: u32)
    requires AtMostOne(p, |p|, t)
    ensures OneOfKind(p, t)
  {
  }

  /** The order of an accepted table is free for the whole image exactly when different loads have
      different addresses, PT_PHDR entries are all one entry, and PT_GNU_STACK entries agree. */
  predicate FreeOrder(p: seq<Phdr>) { LoadsToldApart(p) && OneOfKind(p, PT_PHDR) && OneStackRequest(p) }

  lemma FreeOrderSuffices(p: seq<Phdr>, q: seq<Phdr>, page: u64, size: Option<u64>)
    requires page > 0 && AcceptsTable(p, page, size) && FreeOrder(p) && multiset(q) == multiset(p)
    ensures AcceptsTable(q, page, size) && View(q) == View(p)
  {
    hide LoadsToldApart, OneOfKind, OneStackRequest, SortedHeaders, WantsExecStack, LastOf, SortedLoads;
    AcceptedPermuted(p, q, page, size);
    AtMostOneIsOne(p, PT_INTERP);
    SameLastOf(p, q, PT_INTERP);
    SameLastOf(p, q, PT_PHDR);
    SameLastOf(p, q, PT_GNU_STACK);
  }

  lemma ImageOrderExactly(p: seq<Phdr>, page: u64, size: Option<u64>)
    requires page > 0 && AcceptsTable(p, page, size)
    ensures (forall q :: multiset(q) == multiset(p) ==> AcceptsTable(q, page, size) && View(q) == View(p)) <==> FreeOrder(p)
  {
    hide AcceptsTable, SortedHeaders, LastOf;
    if FreeOrder(p) {
      forall q | multiset(q) == multiset(p) ensures AcceptsTable(q, page, size) && View(q) == View(p) {
        FreeOrderSuffices(p, q, page, size);
      }
    } else {
      var q := OrderShows(p);
    }
  }

  /** A table whose order is not free has a permutation that shows it. */
  lemma OrderShows(p: seq<Phdr>) returns (q: seq<Phdr>)
    requires !FreeOrder(p)
    ensures multiset(q) == multiset(p) && View(q) != View(p)
  {
    hide SortedHeaders, LastOf;
    if !LoadsToldApart(p) {
      var i, j :| 0 <= i < |p| && 0 <= j < |p| && Clash(p, i, j);
      ExchangeShows(p, i, j);
      q := Exchanged(p, i, j);
    } else if !OneOfKind(p, PT_PHDR) {
      var i, j :| 0 <= i < |p| && 0 <= j < |p| && p[i].ptype == PT_PHDR && p[j].ptype == PT_PHDR && p[i] != p[j];
      q := ExchangeLast(p, PT_PHDR, if LastOf(p, |p|, PT_PHDR) == Some(p[i]) then j else i);
    } else {
      var i, j :| 0 <= i < |p| && 0 <= j < |p| && p[i].ptype == PT_GNU_STACK && p[j].ptype == PT_GNU_STACK && p[i].IsExec() != p[j].IsExec();
      q := ExchangeLast(p, PT_GNU_STACK, if WantsExecStack(LastOf(p, |p|, PT_GNU_STACK)) == p[i].IsExec() then j else i);
    }
  }

  // ------------------------------------------------ loads that own some page

  /** A load that owns at least one page: it is not both empty and page-aligned. */
  predicate OwnsPage(ph: Phdr, page: u64)
    requires page > 0
  {
    ph.memsz > 0 || Rem(ph.vaddr, page) != 0
  }

  predicate AllOwnPages(phdrs: seq<Phdr>, page: u64)
    requires page > 0
  {
    forall i :: 0 <= i < |phdrs| && phdrs[i].ptype == PT_LOAD ==> OwnsPage(phdrs[i], page)
  }

  /** The overlap check keeps the addresses of loads that own a page apart. */
  lemma OwnersToldApart(phdrs: seq<Phdr>, page: u64, size: Option<u64>)
    requires page > 0 && AcceptsTable(phdrs, page, size) && AllOwnPages(phdrs, page)
    ensures LoadsToldApart(phdrs)
  {
    hide SortedLoads;
    forall i, j | 0 <= i < |phdrs| && 0 <= j < |phdrs| ensures !Clash(phdrs, i, j) {
      if Clash(phdrs, i, j) {
        var a := PlaceOf(phdrs, i);
        var b := PlaceOf(phdrs, j);
        if a < b { EarlierIsLower(phdrs, page, a, b); } else { EarlierIsLower(phdrs, page, b, a); }
      }
    }
  }

  lemma EarlierIsLower(phdrs: seq<Phdr>, page: u64, a: nat, b: nat)
    requires page > 0 && a < b < |SortedLoads(phdrs)|
    requires forall k :: 0 <= k < |SortedLoads(phdrs)| - 1 ==> SeparatedAt(phdrs, SortedLoads(phdrs), k, page)
    requires OwnsPage(phdrs[SortedLoads(phdrs)[a]], page)
    ensures phdrs[SortedLoads(phdrs)[a]].vaddr < phdrs[SortedLoads(phdrs)[b]].vaddr
  {
    hide SortedLoads;
    SeparatedPairwise(phdrs, SortedLoads(phdrs), page, a, b);
    UpBounds(MemEnd(phdrs[SortedLoads(phdrs)[a]]), page);
  }

  /** Header-order independence: permuting a table whose loads all own a page changes neither whether
      it is accepted nor the sequence of loads the planner sees. */
  lemma OrderDoesNotMatter(p: seq<Phdr>, q: seq<Phdr>, page: u64, size: Option<u64>)
    requires page > 0 && multiset(p) == multiset(q) && AllOwnPages(p, page)
    ensures AcceptsTable(p, page, size) <==> AcceptsTable(q, page, size)
    ensures AcceptsTable(p, page, size) ==> SortedHeaders(p) == SortedHeaders(q)
  {
    SameElements(q, p);
    if AcceptsTable(p, page, size) {
      OwnersToldApart(p, page, size);
      AcceptedPermuted(p, q, page, size);
    }
    if AcceptsTable(q, page, size) {
      OwnersToldApart(q, page, size);
      AcceptedPermuted(q, p, page, size);
    }
  }

  lemma SameSeparation(p: seq<Phdr>, q: seq<Phdr>, page: u64)
    requires page > 0 && SortedHeaders(p) == SortedHeaders(q)
    ensures |SortedLoads(p)| == |SortedLoads(q)|
    ensures forall k :: 0 <= k < |SortedLoads(p)| - 1 ==>
              (SeparatedAt(p, SortedLoads(p), k, page) <==> SeparatedAt(q, SortedLoads(q), k, page))
  {
    var a, b := SortedHeaders(p), SortedHeaders(q);
    assert |a| == |SortedLoads(p)| && |b| == |SortedLoads(q)|;
    forall k | 0 <= k < |a| - 1
      ensures SeparatedAt(p, SortedLoads(p), k, page) <==> SeparatedAt(q, SortedLoads(q), k, page)
    {
      assert a[k] == b[k] && a[k + 1] == b[k + 1];
    }
  }

  // ------------------------------------------------------- the planned segments

  /** Images with the same header whose sorted loads read the same. */
  predicate SameLoads(a: Image, b: Image)
    requires InTable(a.phdrs, a.loads) && InTable(b.phdrs, b.loads)
  {
    a.ehdr == b.ehdr && |a.loads| == |b.loads| && forall k :: 0 <= k < |a.loads| ==> a.Load(k) == b.Load(k)
  }

  lemma {:induction false} SameMaxAlign(a: Image, b: Image, page: u64, n: nat)
    requires InTable(a.phdrs, a.loads) && InTable(b.phdrs, b.loads) && SameLoads(a, b) && n <= |a.loads|
    ensures MaxAlign(a, page, n) == MaxAlign(b, page, n)
  {
    if n > 0 { SameMaxAlign(a, b, page, n - 1); }
  }

  /** Plans that agree on everything but the `idx` labels of their segments. */
  predicate SameButLabels(p: LoadPlan, q: LoadPlan)
  {
    p.(segments := []) == q.(segments := []) && |p.segments| == |q.segments|
    && forall k :: 0 <= k < |p.segments| ==> p.segments[k].(idx := q.segments[k].idx) == q.segments[k]
  }

  lemma SameSpan(a: Image, b: Image, page: u64)
    requires WellFormed(a, page) && WellFormed(b, page) && SameLoads(a, b)
    ensures VaSpan(a, page) == VaSpan(b, page) && SegAlign(a, page) == SegAlign(b, page)
    ensures ReservationLen(a, page) == ReservationLen(b, page)
  {
    SameMaxAlign(a, b, page, |a.loads|);
    assert SegAlign(a, page) == SegAlign(b, page);
    hide SegAlign, AlignUp, AlignDown, IsPow2, ValidLoad;
    assert VaSpan(a, page) == VaSpan(b, page);
  }

  lemma SameSuccess(a: Image, b: Image, page: u64, placement: Placement)
    requires PlanPre(a, page, placement) && PlanPre(b, page, placement) && SameLoads(a, b)
    ensures PlanOf(a, page, placement).Ok? <==> PlanOf(b, page, placement).Ok?
  {
    SameSpan(a, b, page);
    if VaSpan(a, page).Ok? {
      PlanFailsExactly(a, page, placement);
      PlanFailsExactly(b, page, placement);
      hide PlanOf, WellFormed, VaSpan, SegAlign;
    }
  }

  lemma OnlyTheLabel(i: nat, j: nat, ph: Phdr, bias: u64, page: u64)
    requires Placeable(ph, bias, page)
    ensures SegmentAt(i, ph, bias, page).(idx := j) == SegmentAt(j, ph, bias, page)
  {
  }

  lemma SameSegments(a: Image, b: Image, page: u64, p: LoadPlan, q: LoadPlan)
    requires Sound(a, page, p) && Sound(b, page, q) && SameLoads(a, b) && p.bias == q.bias
    ensures |p.segments| == |q.segments|
    ensures forall k :: 0 <= k < |p.segments| ==> p.segments[k].(idx := q.segments[k].idx) == q.segments[k]
  {
    hide SegmentAt, Placeable, Lo, Hi, ValidLoad, IsPow2;
    forall k | 0 <= k < |p.segments| ensures p.segments[k].(idx := q.segments[k].idx) == q.segments[k] {
      OnlyTheLabel(a.loads[k], q.segments[k].idx, a.Load(k), p.bias, page);
      OnlyTheLabel(b.loads[k], q.segments[k].idx, b.Load(k), q.bias, page);
    }
  }

  lemma SameBias(a: Image, b: Image, page: u64, placement: Placement)
    requires PlanPre(a, page, placement) && PlanPre(b, page, placement)
    requires VaSpan(a, page).Ok? && VaSpan(a, page) == VaSpan(b, page) && SegAlign(a, page) == SegAlign(b, page)
    ensures Bias(a, page, placement) == Bias(b, page, placement)
  {
    hide WellFormed, VaSpan, SegAlign, ReservationLen;
  }

  lemma SameFields(a: Image, b: Image, page: u64, placement: Placement, p: LoadPlan, q: LoadPlan)
    requires PlanPre(a, page, placement) && PlanPre(b, page, placement) && SameLoads(a, b)
    requires PlanOf(a, page, placement) == Ok(p) && PlanOf(b, page, placement) == Ok(q)
    ensures p.bias == q.bias && p.(segments := []) == q.(segments := [])
  {
    hide PlanOf, Bias, VaSpan, SegAlign, ReservationLen, WellFormed;
    PlanFields(a, page, placement, p);
    PlanFields(b, page, placement, q);
    SameSpan(a, b, page);
    SameBias(a, b, page, placement);
  }

  lemma SamePlan(a: Image, b: Image, page: u64, placement: Placement, p: LoadPlan, q: LoadPlan)
    requires PlanPre(a, page, placement) && PlanPre(b, page, placement) && SameLoads(a, b)
    requires PlanOf(a, page, placement) == Ok(p) && PlanOf(b, page, placement) == Ok(q)
    ensures SameButLabels(p, q)
  {
    hide PlanOf, Bias, VaSpan, SegAlign, ReservationLen, WellFormed, Sound, SameLoads;
    SameFields(a, b, page, placement, p, q);
    PlanIsSound(a, page, placement);
    PlanIsSound(b, page, placement);
    SameSegments(a, b, page, p, q);
  }

  lemma AcceptedSameLoads(e: Ehdr, p: seq<Phdr>, q: seq<Phdr>, page: u64, size: Option<u64>)
    requires IsPow2(page) && multiset(p) == multiset(q) && LoadsToldApart(p) && AcceptsTable(p, page, size)
    ensures var a, b := FromTable(e, p), FromTable(e, q);
            WellFormed(a, page) && WellFormed(b, page) && SameLoads(a, b)
  {
    AcceptedPermuted(p, q, page, size);
    TableIsWellFormed(e, p, page, size);
    TableIsWellFormed(e, q, page, size);
    var a, b := FromTable(e, p), FromTable(e, q);
    hide WellFormed, AcceptsTable, SortedLoads, LoadsToldApart, LastOf;
    assert |a.loads| == |SortedHeaders(p)| && |b.loads| == |SortedHeaders(q)|;
    forall k | 0 <= k < |a.loads| ensures a.Load(k) == b.Load(k) {
      assert a.Load(k) == SortedHeaders(p)[k] && b.Load(k) == SortedHeaders(q)[k];
    }
  }

  /** The planned segments do not depend on the order of the table: an accepted table whose loads
      are told apart by address and any permutation of it ask for the same reservation and get the
      same plan, up to the labels. */
  lemma PlanIgnoresOrder(e: Ehdr, p: seq<Phdr>, q: seq<Phdr>, page: u64, size: Option<u64>, placement: Placement)
    requires IsPow2(page) && multiset(p) == multiset(q) && LoadsToldApart(p) && AcceptsTable(p, page, size)
    ensures var a, b := FromTable(e, p), FromTable(e, q);
            WellFormed(a, page) && WellFormed(b, page)
            && ReservationLen(a, page) == ReservationLen(b, page)
            && (PlanPre(a, page, placement) <==> PlanPre(b, page, placement))
            && (PlanPre(a, page, placement) ==>
                  (PlanOf(a, page, placement).Ok? <==> PlanOf(b, page, placement).Ok?)
                  && (PlanOf(a, page, placement).Ok? ==>
                        SameButLabels(PlanOf(a, page, placement).value, PlanOf(b, page, placement).value)))
  {
    AcceptedSameLoads(e, p, q, page, size);
    hide FromTable, AcceptsTable, LoadsToldApart, WellFormed, SameLoads, ReservationLen, PlanOf, SameButLabels, IsPow2;
    var a, b := FromTable(e, p), FromTable(e, q);
    SameSpan(a, b, page);
    if PlanPre(a, page, placement) {
      SameSuccess(a, b, page, placement);
      if PlanOf(a, page, placement).Ok? {
        SamePlan(a, b, page, placement, PlanOf(a, page, placement).value, PlanOf(b, page, placement).value);
      }
    }
  }
}
