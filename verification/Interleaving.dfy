/** The loader among other users of the address space. Others may map wherever there is room and do
    as they please with their own memory; nothing they do lands in the reservation, and nothing the
    loader does reaches them. */
module Interleaving {
  import opened Words
  import opened Elf
  import opened Layout
  import opened AddressSpace
  import opened Blocks
  import opened MappedOps
  import opened CopiedOps
  import opened Loader
  import opened CopyLoader
  import opened LoadTheorems

  datatype Event = Mine(op: Op) | Theirs(op: Op)

  function AllOps(es: seq<Event>): seq<Op> { if es == [] then [] else [es[0].op] + AllOps(es[1..]) }

  function MineOf(es: seq<Event>): seq<Op>
  {
    if es == [] then [] else if es[0].Mine? then [es[0].op] + MineOf(es[1..]) else MineOf(es[1..])
  }

  function TheirsOf(es: seq<Event>): seq<Op>
  {
    if es == [] then [] else if es[0].Theirs? then [es[0].op] + TheirsOf(es[1..]) else TheirsOf(es[1..])
  }

  predicate Avoids(op: Op, lo: int, hi: int)
  {
    op.Sync? || op.Refused? || op.Len() == 0 || op.addr + op.Len() <= lo || hi <= op.addr
  }

  /** What others may do in state `s`: take any range that is free at that moment, wherever it is
      (`Anywhere` or `Hint`), or act on memory outside the reservation. */
  predicate Polite(s: Space, op: Op, lo: int, hi: int)
  {
    (((op.Map? && !op.exact) || op.Alloc?) && Vacant(s, op.addr, op.addr + op.Len())) || Avoids(op, lo, hi)
  }

  /** An arbitrary interleaving in which others are polite at every step. */
  predicate Schedule(s: Space, es: seq<Event>, lo: int, hi: int)
    decreases |es|
  {
    es == [] || ((es[0].Theirs? ==> Polite(s, es[0].op, lo, hi)) && Schedule(Apply(s, es[0].op), es[1..], lo, hi))
  }

  /** While a range is held, a polite operation cannot land in it. */
  lemma PoliteAvoids(s: Space, op: Op, lo: int, hi: int)
    requires Polite(s, op, lo, hi) && Held(s, lo, hi) && lo < hi
    ensures Avoids(op, lo, hi)
  {
    var a := if op.addr < lo then lo else op.addr;
    assert lo <= a < hi ==> a in s;
  }

  lemma StepHeld(s: Space, op: Op, lo: int, hi: int)
    requires Held(s, lo, hi) && (Avoids(op, lo, hi) || !op.Releases())
    ensures Held(Apply(s, op), lo, hi)
  {
    forall a | lo <= a < hi ensures a in Apply(s, op) {
      assert Look(Apply(s, op), a) == CellAfter(op, a, Look(s, a));
    }
  }

  /** Reservation safety over all interleavings: the range stays held, others stay out of it, inside
      it only the loader's operations count and outside it only theirs do. */
  lemma {:induction false} Undisturbed(s: Space, es: seq<Event>, lo: int, hi: int, a: int)
    requires Held(s, lo, hi) && lo < hi && Schedule(s, es, lo, hi)
    requires AllInside(MineOf(es), lo, hi) && NoRelease(MineOf(es))
    ensures Held(Run(s, AllOps(es)), lo, hi)
    ensures forall i :: 0 <= i < |es| && es[i].Theirs? ==> Avoids(es[i].op, lo, hi)
    ensures Look(Run(s, AllOps(es)), a) == After(if lo <= a < hi then MineOf(es) else TheirsOf(es), a, Look(s, a))
    decreases |es|
  {
    if es != [] {
      var op, rest := es[0].op, es[1..];
      assert AllOps(es)[1..] == AllOps(rest);
      if es[0].Mine? {
        assert MineOf(es)[0] == op && MineOf(es)[1..] == MineOf(rest);
      } else {
        assert TheirsOf(es)[0] == op && TheirsOf(es)[1..] == TheirsOf(rest);
        PoliteAvoids(s, op, lo, hi);
      }
      assert forall i :: 0 <= i < |MineOf(rest)| ==> MineOf(rest)[i] in MineOf(es);
      StepHeld(s, op, lo, hi);
      Undisturbed(Apply(s, op), rest, lo, hi, a);
    }
  }

  /** What an operation inside a held range needs depends on that range only. */
  lemma EnabledLocal(s: Space, u: Space, op: Op, lo: int, hi: int, page: u64)
    requires page > 0 && Enabled(s, op, page) && op.Inside(lo, hi) && Held(s, lo, hi)
    requires forall a :: lo <= a < hi ==> Look(s, a) == Look(u, a)
    ensures Enabled(u, op, page)
  {
    forall a | lo <= a < hi ensures a in s && a in u && s[a] == u[a] {
      assert Look(s, a) == Look(u, a);
    }
    assert lo <= op.addr < hi ==> op.addr in s;
  }

  /** A run that is legal alone stays legal under every interleaving: whenever the loader's turn
      comes, its next operation is enabled, so every store hits writable memory of its own. */
  lemma {:induction false} LegalAmongOthers(s: Space, u: Space, es: seq<Event>, lo: int, hi: int, page: u64, n: nat)
    requires page > 0 && lo < hi && Held(u, lo, hi) && Schedule(s, es, lo, hi)
    requires forall a :: lo <= a < hi ==> Look(s, a) == Look(u, a)
    requires Legal(u, MineOf(es), page) && AllInside(MineOf(es), lo, hi) && NoRelease(MineOf(es))
    requires n < |es| && es[n].Mine?
    ensures Enabled(Run(s, AllOps(es[..n])), es[n].op, page)
    decreases n
  {
    var op, rest := es[0].op, es[1..];
    assert Held(s, lo, hi) by {
      forall a | lo <= a < hi ensures a in s { assert Look(s, a) == Look(u, a); }
    }
    if es[0].Mine? {
      assert MineOf(es)[0] == op && MineOf(es)[1..] == MineOf(rest);
      EnabledLocal(u, s, op, lo, hi, page);
    } else {
      PoliteAvoids(s, op, lo, hi);
    }
    if n > 0 {
      var u' := if es[0].Mine? then Apply(u, op) else u;
      StepHeld(u, op, lo, hi);
      forall a | lo <= a < hi ensures Look(Apply(s, op), a) == Look(u', a) {
        assert Look(s, a) == Look(u, a);
        assert Look(Apply(s, op), a) == CellAfter(op, a, Look(s, a));
        assert Look(Apply(u, op), a) == CellAfter(op, a, Look(u, a));
      }
      assert forall i :: 0 <= i < |MineOf(rest)| ==> MineOf(rest)[i] in MineOf(es);
      LegalAmongOthers(Apply(s, op), u', rest, lo, hi, page, n - 1);
      assert es[..n] == [es[0]] + rest[..n - 1];
      assert AllOps(es[..n])[1..] == AllOps(rest[..n - 1]) by { assert es[..n][1..] == rest[..n - 1]; }
    } else {
      assert es[..0] == [];
    }
  }

  /** A successful load interleaved with others leaves the same image as a load alone, and the
      others' memory is what it would have been without the loader. */
  lemma InterleavedImage(s: Space, ops: seq<Op>, es: seq<Event>, image: Image, page: u64, l: Loaded, src: Source,
                         fd: Option<int>, file: seq<byte>)
    requires SuccessfulLoad(s, ops, image, page, l, src, fd, file) && (!l.onHeap ==> file == src.bytes)
    requires l.plan.reserveLen > 0 && ops != [] && MineOf(es) == ops[1..]
    requires Schedule(Apply(s, ops[0]), es, l.plan.reserveAddr, ReserveEnd(l.plan))
    ensures WellFormed(image, page) && ImageInMemory(Run(Apply(s, ops[0]), AllOps(es)), image, l.plan.bias, page, src.bytes)
    ensures forall a :: !(l.plan.reserveAddr <= a < ReserveEnd(l.plan)) ==>
                          Look(Run(Apply(s, ops[0]), AllOps(es)), a) == After(TheirsOf(es), a, Look(s, a))
  {
    hide SuccessfulLoad, Planned, Schedule;
    LoadContained(s, ops, image, page, l, src, fd, file);
    LoadedImage(s, ops, image, page, l, src, fd, file);
    var u := Run(Apply(s, ops[0]), AllOps(es));
    forall a ensures l.plan.reserveAddr <= a < ReserveEnd(l.plan) ==> Look(Run(s, ops), a) == Look(u, a)
             ensures !(l.plan.reserveAddr <= a < ReserveEnd(l.plan)) ==> Look(u, a) == After(TheirsOf(es), a, Look(s, a))
    {
      InterleavedLook(s, ops, es, l.plan.reserveAddr, ReserveEnd(l.plan), a);
    }
    PlannedWellFormed(image, page, l.plan);
    ImageIsLocal(Run(s, ops), u, image, page, l.plan, src.bytes);
  }

  /** One address of a contained run among others. */
  lemma InterleavedLook(s: Space, ops: seq<Op>, es: seq<Event>, lo: int, hi: int, a: int)
    requires Contained(s, ops, lo, hi) && lo < hi && MineOf(es) == ops[1..] && Schedule(Apply(s, ops[0]), es, lo, hi)
    ensures Look(Run(Apply(s, ops[0]), AllOps(es)), a) ==
            if lo <= a < hi then Look(Run(s, ops), a) else After(TheirsOf(es), a, Look(s, a))
  {
    TakenIsNew(s, ops[0]);
    Undisturbed(Apply(s, ops[0]), es, lo, hi, a);
    RunLook(Apply(s, ops[0]), ops[1..], a);
    assert ops == [ops[0]] + ops[1..];
    RunConcat(s, [ops[0]], ops[1..]);
    RunOne(s, ops[0]);
  }

  /** Rollback among others: whenever the loader gives up and its release goes through, the address
      space is exactly what the others alone would have made of it. */
  lemma InterleavedRollback(s: Space, take: Op, es: seq<Event>, release: Op)
    requires (take.Map? || take.Alloc?) && take.Len() > 0 && Vacant(s, take.addr, take.addr + take.Len())
    requires AllInside(MineOf(es), take.addr, take.addr + take.Len()) && NoRelease(MineOf(es))
    requires Schedule(Apply(s, take), es, take.addr, take.addr + take.Len())
    requires release in {Op.Unmap(take.addr, take.Len()), Free(take.addr, take.Len())}
    ensures Apply(Run(Apply(s, take), AllOps(es)), release) == Run(s, TheirsOf(es))
  {
    hide Run, Schedule, Vacant, AllInside, NoRelease, After;
    var u := Run(Apply(s, take), AllOps(es));
    forall a ensures Look(Apply(u, release), a) == Look(Run(s, TheirsOf(es)), a) {
      RolledBackAt(s, take, es, a);
      assert Look(Apply(u, release), a) == CellAfter(release, a, Look(u, a));
    }
    SpacesEqual(Apply(u, release), Run(s, TheirsOf(es)));
  }

  /** One address of a run that gives up: inside the range nothing was there before, outside it only the
      others count. */
  lemma RolledBackAt(s: Space, take: Op, es: seq<Event>, a: int)
    requires (take.Map? || take.Alloc?) && take.Len() > 0 && Vacant(s, take.addr, take.addr + take.Len())
    requires AllInside(MineOf(es), take.addr, take.addr + take.Len()) && NoRelease(MineOf(es))
    requires Schedule(Apply(s, take), es, take.addr, take.addr + take.Len())
    ensures Look(Run(s, TheirsOf(es)), a) ==
            if take.addr <= a < take.addr + take.Len() then None else Look(Run(Apply(s, take), AllOps(es)), a)
  {
    hide Run, Schedule, AllInside, NoRelease, After;
    var lo, hi := take.addr, take.addr + take.Len();
    TakenIsNew(s, take);
    Undisturbed(Apply(s, take), es, lo, hi, a);
    RunLook(s, TheirsOf(es), a);
    if lo <= a < hi {
      TheirsAvoid(es, lo, hi);
      AfterUntouched(TheirsOf(es), a, Look(s, a));
    }
  }

  lemma {:induction false} TheirsAvoid(es: seq<Event>, lo: int, hi: int)
    requires forall i :: 0 <= i < |es| && es[i].Theirs? ==> Avoids(es[i].op, lo, hi)
    ensures forall i :: 0 <= i < |TheirsOf(es)| ==> Avoids(TheirsOf(es)[i], lo, hi)
  {
    if es != [] { TheirsAvoid(es[1..], lo, hi); }
  }

  // ----------------------------------------------- loads are legal on their own

  lemma MappedLoadLegal(s: Space, ops: seq<Op>, image: Image, page: u64, plan: LoadPlan, fd: int, file: seq<byte>)
    requires MappedLoad(s, ops, image, page, plan, fd, file) && plan.reserveLen > 0
    ensures page > 0 && Legal(Apply(s, ops[0]), ops[1..], page)
  {
    hide PlanOf, PlanPre, FillOps;
    TakenIsNew(s, ops[0]);
    FillLegal(Apply(s, ops[0]), image, page, plan, fd, file);
    assert ops[1..] == FillOps(image, plan, fd, file);
  }

  lemma CopiedLoadLegal(s: Space, ops: seq<Op>, image: Image, page: u64, plan: LoadPlan, bytes: seq<byte>,
                        junk: seq<byte>, granted: seq<bool>)
    requires CopiedLoad(s, ops, image, page, plan, bytes, junk, granted)
    ensures page > 0 && Legal(Apply(s, ops[0]), ops[1..], page)
  {
    hide PlanOf, PlanPre, CopyOps, ProtOps;
    var t, copy := Apply(s, ops[0]), CopyOps(image, page, plan, bytes);
    AllocIsWritable(s, plan.reserveAddr, junk);
    CopyLegal(t, image, page, plan, bytes);
    CopyInside(image, page, plan, bytes);
    StaysHeld(t, copy, plan.reserveAddr, ReserveEnd(plan));
    ProtOpsLegal(Run(t, copy), image, page, plan, granted);
    LegalConcat(t, copy, ProtOps(plan, granted), page);
    assert ops[1..] == copy + ProtOps(plan, granted);
  }

  lemma ProtOpsLegal(s: Space, image: Image, page: u64, plan: LoadPlan, granted: seq<bool>)
    requires Sound(image, page, plan) && |granted| == |plan.segments| && Held(s, plan.reserveAddr, ReserveEnd(plan))
    ensures Legal(s, ProtOps(plan, granted), page)
  {
    var blocks := ProtBlocks(plan, granted);
    ProtFenced(image, page, plan, granted);
    forall t, k | 0 <= k < |blocks| && Held(t, plan.reserveAddr, ReserveEnd(plan)) ensures Legal(t, blocks[k], page) {
      ProtLegal(t, image, page, plan, k);
    }
    FlattenLegal(s, blocks, Extents(image, page, plan), plan.reserveAddr, ReserveEnd(plan), page, |blocks|);
  }
}
