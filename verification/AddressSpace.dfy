/** A flat, per-address model of an address space: what each operation does to one address, what a
    run of operations does, and when an operation may be issued. */
module AddressSpace {
  import opened Words
  import opened Layout

  /** Where a mapped byte comes from in a file. */
  datatype Backing = Backing(fd: int, off: int)

  datatype Cell = Cell(val: byte, prot: Prot, file: Option<Backing>)

  /** Mapped addresses and what they hold; everything else is free. */
  type Space = map<int, Cell>

  /** What a new mapping holds: zeroes, or the bytes of a file from `off`. */
  datatype Fill = Zeroes | FileFill(fd: int, off: u64, file: seq<byte>)

  function FileByte(file: seq<byte>, i: int): byte { if 0 <= i < |file| then file[i] else 0 }

  function FileBytes(file: seq<byte>, off: int, n: nat): seq<byte>
  {
    seq<byte>(n, i requires 0 <= i < n => FileByte(file, off + i))
  }

  function FillCell(f: Fill, prot: Prot, i: int): Cell
  {
    match f
    case Zeroes => Cell(0, prot, None)
    case FileFill(fd, off, file) => Cell(FileByte(file, off + i), prot, Some(Backing(fd, off + i)))
  }

  /** The operations that take effect, with the addresses they were given. `Refused` records a
      release or re-protection the system declined, which the loader only logs. */
  datatype Op =
    | Map(addr: int, len: nat, prot: Prot, fill: Fill, exact: bool)
    | Unmap(addr: int, len: nat)
    | Protect(addr: int, len: nat, prot: Prot)
    | Write(addr: int, data: seq<byte>)
    | Zero(addr: int, len: nat)
    | Sync(addr: int, len: nat)
    | Alloc(addr: int, junk: seq<byte>)
    | Free(addr: int, len: nat)
    | Refused(addr: int, len: nat)
  {
    function Len(): nat { if Write? then |data| else if Alloc? then |junk| else len }

    predicate Touches(a: int) { !Sync? && !Refused? && addr <= a < addr + Len() }

    predicate Inside(lo: int, hi: int) { Sync? || Refused? || Len() == 0 || (lo <= addr && addr + Len() <= hi) }

    predicate Releases() { Unmap? || Free? }

    /** Whether the operation stores bytes through the data side. */
    predicate Stores() { Write? || Zero? }
  }

  function Look(s: Space, a: int): Option<Cell> { if a in s then Some(s[a]) else None }

  /** What `op` does to the cell at address `a`. */
  function CellAfter(op: Op, a: int, c: Option<Cell>): Option<Cell>
  {
    if !op.Touches(a) then c
    else match op
      case Map(addr, _, prot, fill, _) => Some(FillCell(fill, prot, a - addr))
      case Alloc(addr, junk) => Some(Cell(junk[a - addr], RW, None))
      case Protect(_, _, p) => if c.None? then None else Some(c.value.(prot := p))
      case Write(addr, data) => if c.None? then None else Some(c.value.(val := data[a - addr]))
      case Zero(_, _) => if c.None? then None else Some(c.value.(val := 0))
      case _ => None
  }

  function Apply(s: Space, op: Op): (t: Space)
    ensures forall a :: Look(t, a) == CellAfter(op, a, Look(s, a))
  {
    map a | a in s.Keys + (set x | op.addr <= x < op.addr + op.Len() && op.Touches(x)) && CellAfter(op, a, Look(s, a)).Some?
      :: CellAfter(op, a, Look(s, a)).value
  }

  function Run(s: Space, ops: seq<Op>): Space
    decreases |ops|
  {
    if ops == [] then s else Run(Apply(s, ops[0]), ops[1..])
  }

  /** What a run does to one address, independently of the others. */
  function After(ops: seq<Op>, a: int, c: Option<Cell>): Option<Cell>
  {
    if ops == [] then c else After(ops[1..], a, CellAfter(ops[0], a, c))
  }

  lemma {:induction false} RunLook(s: Space, ops: seq<Op>, a: int)
    ensures Look(Run(s, ops), a) == After(ops, a, Look(s, a))
    decreases |ops|
  {
    if ops != [] { RunLook(Apply(s, ops[0]), ops[1..], a); }
  }

  lemma {:induction false} RunConcat(s: Space, x: seq<Op>, y: seq<Op>)
    ensures Run(s, x + y) == Run(Run(s, x), y)
    decreases |x|
  {
    if x == [] {
      assert x + y == y;
    } else {
      RunConcat(Apply(s, x[0]), x[1..], y);
      assert (x + y)[1..] == x[1..] + y;
    }
  }

  lemma RunOne(s: Space, op: Op)
    ensures Run(s, [op]) == Apply(s, op)
  {
  }

  lemma RunStep(s: Space, ops: seq<Op>, op: Op)
    ensures Run(s, ops + [op]) == Apply(Run(s, ops), op)
  {
    RunConcat(s, ops, [op]);
  }

  lemma {:induction false} AfterConcat(x: seq<Op>, y: seq<Op>, a: int, c: Option<Cell>)
    ensures After(x + y, a, c) == After(y, a, After(x, a, c))
  {
    if x == [] {
      assert x + y == y;
    } else {
      AfterConcat(x[1..], y, a, CellAfter(x[0], a, c));
      assert (x + y)[1..] == x[1..] + y;
    }
  }

  lemma {:induction false} AfterUntouched(ops: seq<Op>, a: int, c: Option<Cell>)
    requires forall i :: 0 <= i < |ops| ==> !ops[i].Touches(a)
    ensures After(ops, a, c) == c
  {
    if ops != [] { AfterUntouched(ops[1..], a, c); }
  }

  lemma SpacesEqual(s: Space, t: Space)
    requires forall a :: Look(s, a) == Look(t, a)
    ensures s == t
  {
    forall a ensures a in s <==> a in t {
      assert Look(s, a) == Look(t, a);
    }
    forall a | a in s ensures s[a] == t[a] {
      assert Look(s, a) == Look(t, a);
    }
  }

  // -------------------------------------------------------- ranges of a space

  predicate Vacant(s: Space, lo: int, hi: int) { forall a :: lo <= a < hi ==> a !in s }
  predicate Held(s: Space, lo: int, hi: int) { forall a :: lo <= a < hi ==> a in s }
  predicate Writable(s: Space, lo: int, hi: int) { forall a :: lo <= a < hi ==> a in s && s[a].prot.write }

  predicate AllInside(ops: seq<Op>, lo: int, hi: int) { forall i :: 0 <= i < |ops| ==> ops[i].Inside(lo, hi) }
  predicate NoRelease(ops: seq<Op>) { forall i :: 0 <= i < |ops| ==> !ops[i].Releases() }

  /** A run that stays inside a range leaves every other address alone. */
  lemma FrameOutside(ops: seq<Op>, lo: int, hi: int, a: int, c: Option<Cell>)
    requires AllInside(ops, lo, hi) && !(lo <= a < hi)
    ensures After(ops, a, c) == c
  {
    forall i | 0 <= i < |ops| ensures !ops[i].Touches(a) {
      assert ops[i].Inside(lo, hi);
    }
    AfterUntouched(ops, a, c);
  }

  /** A run that releases nothing keeps every mapped address mapped. */
  lemma {:induction false} StaysHeld(s: Space, ops: seq<Op>, lo: int, hi: int)
    requires NoRelease(ops) && Held(s, lo, hi)
    ensures Held(Run(s, ops), lo, hi)
    decreases |ops|
  {
    if ops != [] {
      var t := Apply(s, ops[0]);
      forall a | lo <= a < hi ensures a in t {
        assert Look(t, a) == CellAfter(ops[0], a, Look(s, a));
        assert !ops[0].Releases();
      }
      StaysHeld(t, ops[1..], lo, hi);
    }
  }

  // ------------------------------------------------------------------ legality

  /** When an operation may be issued: page-aligned arguments, an exact `Map` only over memory that
      is held and any other only over free addresses, stores only to writable memory, releases only of held memory. */
  predicate Enabled(s: Space, op: Op, page: u64)
    requires page > 0
  {
    var lo, hi := op.addr, op.addr + op.Len();
    match op
    case Map(addr, len, _, fill, exact) =>
      0 <= addr && Rem(addr, page) == 0 && Rem(len, page) == 0 && len > 0 && hi < U64_LIMIT
      && (fill.FileFill? ==> Rem(fill.off, page) == 0) && (if exact then Held(s, lo, hi) else Vacant(s, lo, hi))
    case Protect(addr, len, _) => 0 <= addr && hi < U64_LIMIT && Rem(addr, page) == 0 && Rem(len, page) == 0 && Held(s, lo, hi)
    case Write(_, _) => Writable(s, lo, hi)
    case Zero(_, _) => Writable(s, lo, hi)
    case Alloc(_, _) => Vacant(s, lo, hi)
    case Unmap(_, _) => Held(s, lo, hi)
    case Free(_, _) => Held(s, lo, hi)
    case _ => true
  }

  predicate Legal(s: Space, ops: seq<Op>, page: u64)
    requires page > 0
    decreases |ops|
  {
    ops == [] || (Enabled(s, ops[0], page) && Legal(Apply(s, ops[0]), ops[1..], page))
  }

  lemma {:induction false} LegalConcat(s: Space, x: seq<Op>, y: seq<Op>, page: u64)
    requires page > 0
    ensures Legal(s, x + y, page) <==> Legal(s, x, page) && Legal(Run(s, x), y, page)
    decreases |x|
  {
    if x == [] {
      assert x + y == y;
    } else {
      LegalConcat(Apply(s, x[0]), x[1..], y, page);
      assert (x + y)[1..] == x[1..] + y;
    }
  }
}
