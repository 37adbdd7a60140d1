/** Runs made of one block of operations per segment, each block fenced into its own extent.
    Both fill loops have this shape; what happens to an address is decided by one block alone. */
module Blocks {
  import opened Words
  import opened AddressSpace

  datatype Extent = Extent(lo: int, hi: int)
  {
    predicate Has(a: int) { lo <= a < hi }
  }

  function Flatten(blocks: seq<seq<Op>>, n: nat): seq<Op>
    requires n <= |blocks|
  {
    if n == 0 then [] else Flatten(blocks, n - 1) + blocks[n - 1]
  }

  /** Block `k` stays inside extent `k` and releases nothing; extents are ascending, disjoint and
      lie inside `[lo, hi)`. */
  ghost predicate Fenced(blocks: seq<seq<Op>>, ext: seq<Extent>, lo: int, hi: int)
  {
    |blocks| == |ext|
    && (forall k :: 0 <= k < |ext| ==> AllInside(blocks[k], ext[k].lo, ext[k].hi))
    && (forall k :: 0 <= k < |ext| ==> NoRelease(blocks[k]))
    && (forall k :: 0 <= k < |ext| ==> lo <= ext[k].lo <= ext[k].hi <= hi)
    && (forall i, j :: 0 <= i < j < |ext| ==> ext[i].hi <= ext[j].lo)
  }

  lemma {:induction false} FlattenInside(blocks: seq<seq<Op>>, ext: seq<Extent>, lo: int, hi: int, n: nat)
    requires Fenced(blocks, ext, lo, hi) && n <= |blocks|
    ensures AllInside(Flatten(blocks, n), lo, hi) && NoRelease(Flatten(blocks, n))
  {
    if n > 0 {
      FlattenInside(blocks, ext, lo, hi, n - 1);
      assert AllInside(blocks[n - 1], ext[n - 1].lo, ext[n - 1].hi) && NoRelease(blocks[n - 1]);
    }
  }

  lemma {:induction false} FlattenPrefix(blocks: seq<seq<Op>>, m: nat, n: nat)
    requires m <= n <= |blocks|
    ensures Flatten(blocks, m) <= Flatten(blocks, n)
  {
    if m < n { FlattenPrefix(blocks, m, n - 1); }
  }

  /** An address outside the first `n` extents is untouched by the first `n` blocks. */
  lemma {:induction false} FlattenGap(blocks: seq<seq<Op>>, ext: seq<Extent>, lo: int, hi: int, n: nat,
                                      a: int, c: Option<Cell>)
    requires Fenced(blocks, ext, lo, hi) && n <= |blocks|
    requires forall k :: 0 <= k < n ==> !ext[k].Has(a)
    ensures After(Flatten(blocks, n), a, c) == c
  {
    if n > 0 {
      FlattenGap(blocks, ext, lo, hi, n - 1, a, c);
      AfterConcat(Flatten(blocks, n - 1), blocks[n - 1], a, c);
      FrameOutside(blocks[n - 1], ext[n - 1].lo, ext[n - 1].hi, a, c);
    }
  }

  /** No later block disturbs an earlier extent: an address of extent `k` sees block `k` only. */
  lemma {:induction false} FlattenAt(blocks: seq<seq<Op>>, ext: seq<Extent>, lo: int, hi: int, n: nat, k: nat,
                                     a: int, c: Option<Cell>)
    requires Fenced(blocks, ext, lo, hi) && k < n <= |blocks| && ext[k].Has(a)
    ensures After(Flatten(blocks, n), a, c) == After(blocks[k], a, c)
  {
    AfterConcat(Flatten(blocks, n - 1), blocks[n - 1], a, c);
    if k == n - 1 {
      FlattenGap(blocks, ext, lo, hi, n - 1, a, c);
    } else {
      FlattenAt(blocks, ext, lo, hi, n - 1, k, a, c);
      FrameOutside(blocks[n - 1], ext[n - 1].lo, ext[n - 1].hi, a, After(blocks[k], a, c));
    }
  }

  /** An operation of the run that touches an address of extent `k` comes from block `k`. */
  lemma {:induction false} FlattenOwner(blocks: seq<seq<Op>>, ext: seq<Extent>, lo: int, hi: int, n: nat, k: nat,
                                        a: int, op: Op)
    requires Fenced(blocks, ext, lo, hi) && n <= |blocks| && k < |blocks| && ext[k].Has(a)
    requires op in Flatten(blocks, n) && op.Touches(a)
    ensures op in blocks[k]
  {
    if op in blocks[n - 1] {
      assert op.Inside(ext[n - 1].lo, ext[n - 1].hi);
    } else {
      FlattenOwner(blocks, ext, lo, hi, n - 1, k, a, op);
    }
  }

  /** Blocks that are legal whenever `[lo, hi)` is held are legal one after another. */
  lemma {:induction false} FlattenLegal(s: Space, blocks: seq<seq<Op>>, ext: seq<Extent>, lo: int, hi: int,
                                        page: u64, n: nat)
    requires page > 0 && Fenced(blocks, ext, lo, hi) && n <= |blocks| && Held(s, lo, hi)
    requires forall t, k :: 0 <= k < |blocks| && Held(t, lo, hi) ==> Legal(t, blocks[k], page)
    ensures Legal(s, Flatten(blocks, n), page)
  {
    if n > 0 {
      var done := Flatten(blocks, n - 1);
      FlattenLegal(s, blocks, ext, lo, hi, page, n - 1);
      FlattenInside(blocks, ext, lo, hi, n - 1);
      StaysHeld(s, done, lo, hi);
      assert Legal(Run(s, done), blocks[n - 1], page);
      LegalConcat(s, done, blocks[n - 1], page);
    }
  }

  /** Only stores, all inside `[lo, hi)`. */
  predicate StoresWithin(ops: seq<Op>, lo: int, hi: int)
  {
    forall i :: 0 <= i < |ops| ==> ops[i].Stores() && lo <= ops[i].addr && ops[i].addr + ops[i].Len() <= hi
  }

  lemma FlattenNext(blocks: seq<seq<Op>>, k: nat)
    requires k < |blocks|
    ensures Flatten(blocks, k + 1) == Flatten(blocks, k) + blocks[k]
  {
  }

  lemma FlattenNone(blocks: seq<seq<Op>>)
    ensures Flatten(blocks, 0) == []
  {
  }

  lemma {:induction false} FlattenStores(blocks: seq<seq<Op>>, lo: int, hi: int, n: nat)
    requires n <= |blocks| && forall k :: 0 <= k < n ==> StoresWithin(blocks[k], lo, hi)
    ensures StoresWithin(Flatten(blocks, n), lo, hi)
  {
    if n > 0 {
      FlattenStores(blocks, lo, hi, n - 1);
      assert StoresWithin(blocks[n - 1], lo, hi);
    }
  }

  /** Stores inside writable memory are legal and leave it writable. */
  lemma {:induction false} StoresLegal(s: Space, ops: seq<Op>, lo: int, hi: int, page: u64)
    requires page > 0 && StoresWithin(ops, lo, hi) && Writable(s, lo, hi)
    ensures Legal(s, ops, page) && Writable(Run(s, ops), lo, hi)
    decreases |ops|
  {
    if ops != [] {
      var t := Apply(s, ops[0]);
      assert ops[0].Stores();
      forall a | lo <= a < hi ensures a in t && t[a].prot.write {
        assert Look(t, a) == CellAfter(ops[0], a, Look(s, a));
      }
      StoresLegal(t, ops[1..], lo, hi, page);
    }
  }

  /** A run of nothing but instruction-cache operations is legal and changes no cell. */
  predicate SyncsOnly(ops: seq<Op>) { forall i :: 0 <= i < |ops| ==> ops[i].Sync? }

  lemma {:induction false} FlattenSyncs(blocks: seq<seq<Op>>, n: nat)
    requires n <= |blocks| && forall k :: 0 <= k < n ==> SyncsOnly(blocks[k])
    ensures SyncsOnly(Flatten(blocks, n))
  {
    if n > 0 {
      FlattenSyncs(blocks, n - 1);
      assert SyncsOnly(blocks[n - 1]);
    }
  }

  lemma {:induction false} SyncsLegal(s: Space, ops: seq<Op>, page: u64)
    requires page > 0 && SyncsOnly(ops)
    ensures Legal(s, ops, page) && Run(s, ops) == s
    decreases |ops|
  {
    if ops != [] {
      SpacesEqual(Apply(s, ops[0]), s);
      SyncsLegal(Apply(s, ops[0]), ops[1..], page);
    }
  }
}
