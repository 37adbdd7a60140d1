/** The instruction-cache obligation over traces: whatever the loader stores into an executable
    segment it publishes afterwards, and never touches again. */
module Icache {
  import opened Words
  import opened Elf
  import opened Layout
  import opened AddressSpace
  import opened Blocks
  import opened MappedOps
  import opened CopiedOps
  import opened Loader
  import opened CopyLoader

  predicate StoresAt(op: Op, a: int) { op.Stores() && op.Touches(a) }

  predicate SyncsAt(op: Op, a: int) { op.Sync? && op.addr <= a < op.addr + op.len }

  /** Every store to `a` is followed by a synchronisation of `a` with no store to `a` after it. */
  ghost predicate Published(ops: seq<Op>, a: int)
  {
    forall i :: 0 <= i < |ops| && StoresAt(ops[i], a) ==>
      exists j :: i < j < |ops| && SyncsAt(ops[j], a) && forall m :: j < m < |ops| ==> !StoresAt(ops[m], a)
  }

  predicate NoStores(ops: seq<Op>) { forall i :: 0 <= i < |ops| ==> !ops[i].Stores() }

  /** A pass of synchronisations after the last store publishes what it covers. */
  lemma PublishedByPass(x: seq<Op>, y: seq<Op>, z: seq<Op>, a: int)
    requires NoStores(y) && NoStores(z)
    requires (exists i :: 0 <= i < |x| && StoresAt(x[i], a)) ==> exists j :: 0 <= j < |y| && SyncsAt(y[j], a)
    ensures Published(x + y + z, a)
  {
    var ops := x + y + z;
    forall i | 0 <= i < |ops| && StoresAt(ops[i], a)
      ensures exists j :: i < j < |ops| && SyncsAt(ops[j], a) && forall m :: j < m < |ops| ==> !StoresAt(ops[m], a)
    {
      assert i < |x| && StoresAt(x[i], a);
      var j :| 0 <= j < |y| && SyncsAt(y[j], a);
      assert ops[|x| + j] == y[j];
      forall m | |x| + j < m < |ops| ensures !StoresAt(ops[m], a) {
        if m < |x| + |y| { assert ops[m] == y[m - |x|]; } else { assert ops[m] == z[m - |x| - |y|]; }
      }
    }
  }

  lemma {:induction false} FlattenHas(blocks: seq<seq<Op>>, n: nat, k: nat, op: Op)
    requires k < n <= |blocks| && op in blocks[k]
    ensures op in Flatten(blocks, n)
  {
    if k < n - 1 { FlattenHas(blocks, n - 1, k, op); }
  }

  /** The only store of a mapped segment is the clearing of its tail. */
  lemma SegStoreIsTail(seg: SegmentPlan, fd: int, file: seq<byte>, op: Op)
    requires op in SegOps(seg, fd, file) && op.Stores()
    ensures seg.zero.Some? && op == Zero(seg.zero.value.addr, seg.zero.value.len)
  {
    SegOpsAre(seg, fd, file);
  }

  lemma MappedCovers(image: Image, page: u64, plan: LoadPlan, fd: int, file: seq<byte>, k: nat, a: int, op: Op)
    requires Sound(image, page, plan) && IdxInTable(image, plan.segments) && k < |image.loads|
    requires image.Load(k).IsExec() && Extents(image, page, plan)[k].Has(a)
    requires op in Flatten(SegBlocks(plan, fd, file), |plan.segments|) && StoresAt(op, a)
    ensures exists j :: 0 <= j < |Flatten(SyncBlocks(image, plan), |plan.segments|)|
                        && SyncsAt(Flatten(SyncBlocks(image, plan), |plan.segments|)[j], a)
  {
    var blocks, syncs, n := SegBlocks(plan, fd, file), SyncBlocks(image, plan), |plan.segments|;
    SegsFenced(image, page, plan, fd, file);
    FlattenOwner(blocks, Extents(image, page, plan), plan.reserveAddr, ReserveEnd(plan), n, k, a, op);
    SegStoreIsTail(plan.segments[k], fd, file, op);
    var sync := Sync(op.addr, op.len);
    assert syncs[k] == [sync];
    FlattenHas(syncs, n, k, sync);
    var j :| 0 <= j < |Flatten(syncs, n)| && Flatten(syncs, n)[j] == sync;
    assert SyncsAt(Flatten(syncs, n)[j], a);
  }

  lemma SyncsStoreNothing(ops: seq<Op>)
    requires SyncsOnly(ops)
    ensures NoStores(ops)
  {
    forall i | 0 <= i < |ops| ensures !ops[i].Stores() { assert ops[i].Sync?; }
  }

  lemma PublishedAfterTake(take: Op, body: seq<Op>, syncs: seq<Op>, a: int)
    requires !take.Stores() && SyncsOnly(syncs)
    requires (exists op :: op in body && StoresAt(op, a)) ==> exists j :: 0 <= j < |syncs| && SyncsAt(syncs[j], a)
    ensures Published([take] + (body + syncs), a)
  {
    var x := [take] + body;
    SyncsStoreNothing(syncs);
    if i :| 0 <= i < |x| && StoresAt(x[i], a) {
      assert x[i] == body[i - 1] && x[i] in body;
    }
    PublishedByPass(x, syncs, [], a);
    assert [take] + (body + syncs) == x + syncs + [];
  }

  /** The mmap path publishes every byte it clears in an executable segment. */
  lemma MappedPublishes(s: Space, ops: seq<Op>, image: Image, page: u64, plan: LoadPlan, fd: int, file: seq<byte>, k: nat, a: int)
    requires MappedLoad(s, ops, image, page, plan, fd, file)
    requires k < |image.loads| && BitAnd(image.Load(k).flags, 1) != 0 && Extents(image, page, plan)[k].Has(a)
    ensures Published(ops, a)
  {
    hide PlanOf, PlanPre, SegOps, Flatten, SyncOp, Published, BitAnd;
    FlagBits(image.Load(k));
    var n := |plan.segments|;
    var body, syncs := Flatten(SegBlocks(plan, fd, file), n), Flatten(SyncBlocks(image, plan), n);
    SyncsAreSyncs(image, plan);
    if op :| op in body && StoresAt(op, a) {
      MappedCovers(image, page, plan, fd, file, k, a, op);
    }
    PublishedAfterTake(Reserve(plan.reserveAddr, plan.reserveLen), body, syncs, a);
  }

  lemma CopiedCovers(image: Image, page: u64, plan: LoadPlan, k: nat, a: int)
    requires Sound(image, page, plan) && IdxInTable(image, plan.segments) && k < |image.loads|
    requires image.Load(k).IsExec() && Extents(image, page, plan)[k].Has(a)
    ensures exists j :: 0 <= j < |Flatten(ExecBlocks(image, plan), |plan.segments|)|
                        && SyncsAt(Flatten(ExecBlocks(image, plan), |plan.segments|)[j], a)
  {
    var syncs, n, seg := ExecBlocks(image, plan), |plan.segments|, plan.segments[k];
    RangeOf(image.loads[k], image.Load(k), plan.bias, page);
    var sync := Sync(seg.Range().0, seg.Size());
    assert syncs[k] == [sync];
    FlattenHas(syncs, n, k, sync);
    var j :| 0 <= j < |Flatten(syncs, n)| && Flatten(syncs, n)[j] == sync;
    assert SyncsAt(Flatten(syncs, n)[j], a);
  }

  lemma {:induction false} ProtStoresNothing(plan: LoadPlan, granted: seq<bool>, n: nat)
    requires |granted| == |plan.segments| && n <= |plan.segments|
    ensures NoStores(Flatten(ProtBlocks(plan, granted), n))
  {
    if n > 0 { ProtStoresNothing(plan, granted, n - 1); }
  }

  /** The copy path publishes every byte it writes or clears in an executable segment. */
  lemma CopiedPublishes(s: Space, ops: seq<Op>, image: Image, page: u64, plan: LoadPlan, bytes: seq<byte>,
                        junk: seq<byte>, granted: seq<bool>, k: nat, a: int)
    requires CopiedLoad(s, ops, image, page, plan, bytes, junk, granted)
    requires k < |image.loads| && BitAnd(image.Load(k).flags, 1) != 0 && Extents(image, page, plan)[k].Has(a)
    ensures Published(ops, a)
  {
    hide Sound, PlanOf, PlanPre, CopySegOps, Flatten, Published, NoStores, StoresAt, SyncsAt, Extents, SyncsOnly, BitAnd;
    SoundPage(image, page, plan);
    FlagBits(image.Load(k));
    var n := |plan.segments|;
    var take, body, syncs := Alloc(plan.reserveAddr, junk), Flatten(CopyBlocks(image, page, plan, bytes), n), Flatten(ExecBlocks(image, plan), n);
    ExecsAreSyncs(image, plan);
    SyncsStoreNothing(syncs);
    ProtStoresNothing(plan, granted, n);
    CopiedCovers(image, page, plan, k, a);
    PublishedByPass([take] + body, syncs, ProtOps(plan, granted), a);
    assert ops == [take] + body + syncs + ProtOps(plan, granted);
  }
}
