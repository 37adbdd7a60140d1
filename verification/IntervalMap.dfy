/** The test suite's model address space: an interval map with first-fit placement. Every operation keeps
    it equal to a flat per-address map, except that it re-protects whole regions and allocates without
    looking; when those keep it, exactly, is stated beside them. */
module IntervalMap {
  import opened Words
  import opened Layout
  import opened AddressSpace
  import opened VirtualMemory

  datatype Region = Region(len: nat, prot: Prot, data: seq<byte>, file: Option<Backing>)
  {
    function CellIn(i: int): Cell
      requires 0 <= i < |data|
    {
      Cell(data[i], prot, if file.None? then None else Some(Backing(file.value.fd, file.value.off + i)))
    }
  }

  type Regions = map<int, Region>

  predicate Spans(rs: Regions, s: int, a: int) { s in rs && s <= a < s + rs[s].len }

  /** Regions are non-empty, carry their own bytes and do not meet. */
  predicate Disjoint(rs: Regions)
  {
    (forall s :: s in rs ==> rs[s].len > 0 && |rs[s].data| == rs[s].len)
    && (forall s, t :: s in rs && t in rs && s < t ==> s + rs[s].len <= t)
  }

  /** The flat view: the cell at address `a`, if any region covers it. */
  ghost function FlatAt(rs: Regions, a: int): Option<Cell>
    requires Disjoint(rs)
  {
    if s :| Spans(rs, s, a) then Some(rs[s].CellIn(a - s)) else None
  }

  lemma FlatAtSpans(rs: Regions, s: int, a: int)
    requires Disjoint(rs) && Spans(rs, s, a)
    ensures FlatAt(rs, a) == Some(rs[s].CellIn(a - s))
  {
    forall t | Spans(rs, t, a) ensures t == s {
    }
  }

  lemma FlatAtNone(rs: Regions, a: int)
    requires Disjoint(rs) && forall s :: !Spans(rs, s, a)
    ensures FlatAt(rs, a) == None
  {
  }

  // -------------------------------------------------------------------- punch

  predicate Meets(rs: Regions, s: int, lo: int, hi: int)
    requires s in rs
  {
    s < hi && s + rs[s].len > lo
  }

  function LeftOf(r: Region, n: nat): Region
    requires n <= |r.data|
  {
    Region(n, r.prot, r.data[..n], r.file)
  }

  function RightOf(r: Region, o: nat): Region
    requires o <= |r.data| == r.len
  {
    Region(r.len - o, r.prot, r.data[o..], if r.file.None? then None else Some(Backing(r.file.value.fd, r.file.value.off + o)))
  }

  /** What is left of the map when `[lo, hi)` is cut out of region `s`. */
  function Carve(rs: Regions, s: int, lo: int, hi: int): Regions
    requires Disjoint(rs) && s in rs && Meets(rs, s, lo, hi) && lo < hi
  {
    var r := rs[s];
    var m := rs - {s};
    var m1 := if s < lo then m[s := LeftOf(r, lo - s)] else m;
    if s + r.len > hi then m1[hi := RightOf(r, hi - s)] else m1
  }

  lemma CarveDisjoint(rs: Regions, s: int, lo: int, hi: int)
    requires Disjoint(rs) && s in rs && Meets(rs, s, lo, hi) && lo < hi
    ensures Disjoint(Carve(rs, s, lo, hi))
    ensures forall t :: t in Carve(rs, s, lo, hi) && Meets(Carve(rs, s, lo, hi), t, lo, hi) <==>
                        t in rs && t != s && Meets(rs, t, lo, hi)
  {
  }

  /** The piece of region `s` that covers `a` after the cut holds the same cell there. */
  lemma CarvePiece(rs: Regions, s: int, lo: int, hi: int, a: int)
    requires Disjoint(rs) && s in rs && Meets(rs, s, lo, hi) && lo < hi && !(lo <= a < hi) && Spans(rs, s, a)
    requires Disjoint(Carve(rs, s, lo, hi))
    ensures var m, u := Carve(rs, s, lo, hi), if a < lo then s else hi;
            Spans(m, u, a) && m[u].CellIn(a - u) == rs[s].CellIn(a - s)
  {
  }

  /** Regions other than `s` are as they were. */
  lemma CarveOthers(rs: Regions, s: int, lo: int, hi: int, a: int)
    requires Disjoint(rs) && s in rs && Meets(rs, s, lo, hi) && lo < hi && !Spans(rs, s, a)
    ensures forall t :: Spans(Carve(rs, s, lo, hi), t, a) <==> Spans(rs, t, a)
    ensures forall t :: Spans(rs, t, a) ==> Carve(rs, s, lo, hi)[t] == rs[t]
  {
  }

  /** Cutting one region changes no address outside `[lo, hi)`: bytes, protections and file offsets
      of what remains are where they were. */
  lemma CarveKeeps(rs: Regions, s: int, lo: int, hi: int, a: int)
    requires Disjoint(rs) && s in rs && Meets(rs, s, lo, hi) && lo < hi && !(lo <= a < hi)
    requires Disjoint(Carve(rs, s, lo, hi))
    ensures FlatAt(Carve(rs, s, lo, hi), a) == FlatAt(rs, a)
  {
    hide FlatAt, Carve, Disjoint, Meets;
    var m := Carve(rs, s, lo, hi);
    if Spans(rs, s, a) {
      CarvePiece(rs, s, lo, hi, a);
      FlatAtSpans(rs, s, a);
      FlatAtSpans(m, if a < lo then s else hi, a);
    } else {
      CarveOthers(rs, s, lo, hi, a);
      SameCells(rs, m, a);
    }
  }

  /** Maps whose regions at `a` are the same agree there. */
  lemma SameCells(rs: Regions, m: Regions, a: int)
    requires Disjoint(rs) && Disjoint(m)
    requires forall t :: Spans(m, t, a) <==> Spans(rs, t, a)
    requires forall t :: Spans(rs, t, a) ==> t in m && m[t] == rs[t]
    ensures FlatAt(m, a) == FlatAt(rs, a)
  {
    hide FlatAt, Disjoint;
    if t :| Spans(rs, t, a) {
      FlatAtSpans(rs, t, a);
      FlatAtSpans(m, t, a);
    } else {
      FlatAtNone(rs, a);
      FlatAtNone(m, a);
    }
  }

  // ------------------------------------------------------- edges and page sizes

  /** No region lies across `b`. */
  predicate Cut(rs: Regions, b: int) { forall s :: s in rs ==> !(s < b < s + rs[s].len) }

  /** The regions of both maps start, end and are protected alike. */
  predicate SameShape(rs: Regions, m: Regions)
  {
    rs.Keys == m.Keys && forall s :: s in rs ==> m[s].len == rs[s].len && m[s].prot == rs[s].prot && m[s].file == rs[s].file
  }

  /** Every edge of `rs` is one of `m`. */
  ghost predicate KeepsCuts(rs: Regions, m: Regions) { forall b :: Cut(rs, b) ==> Cut(m, b) }

  lemma CarveKeepsCuts(rs: Regions, s: int, lo: int, hi: int)
    requires Disjoint(rs) && s in rs && Meets(rs, s, lo, hi) && lo < hi
    ensures KeepsCuts(rs, Carve(rs, s, lo, hi))
  {
    var m := Carve(rs, s, lo, hi);
    forall b | Cut(rs, b) ensures Cut(m, b) {
      forall t | t in m ensures !(t < b < t + m[t].len) {
        assert !(s < b < s + rs[s].len);
        if t != s && t != hi { assert t in rs && m[t] == rs[t]; }
        if t == hi && t in rs { assert !(t < b < t + rs[t].len); }
      }
    }
  }

  /** Regions start and end on pages. */
  predicate Paged(rs: Regions, page: nat)
    requires page > 0
  {
    forall s :: s in rs ==> Rem(s, page) == 0 && Rem(rs[s].len, page) == 0
  }

  lemma EndPaged(rs: Regions, page: nat, s: int)
    requires page > 0 && Paged(rs, page) && s in rs
    ensures Rem(s + rs[s].len, page) == 0
  {
    ModPlus(s, rs[s].len, page);
  }

  lemma CarvePaged(rs: Regions, s: int, lo: int, hi: int, page: nat)
    requires Disjoint(rs) && s in rs && Meets(rs, s, lo, hi) && lo < hi
    requires page > 0 && Paged(rs, page) && Rem(lo, page) == 0 && Rem(hi, page) == 0
    ensures Paged(Carve(rs, s, lo, hi), page)
  {
    var len := rs[s].len;
    assert Rem(s, page) == 0 && Rem(len, page) == 0;
    assert Rem(lo - s, page) == 0 by { MinusMultiple(lo, s, page); }
    assert Rem(s + len - hi, page) == 0 by { ModPlus(s, len, page); MinusMultiple(s + len, hi, page); }
    hide Disjoint;
    var m := Carve(rs, s, lo, hi);
    forall t | t in m ensures Rem(t, page) == 0 && Rem(m[t].len, page) == 0 {
      PieceOf(rs, s, lo, hi, t);
    }
  }

  lemma PieceOf(rs: Regions, s: int, lo: int, hi: int, t: int)
    requires Disjoint(rs) && s in rs && Meets(rs, s, lo, hi) && lo < hi && t in Carve(rs, s, lo, hi)
    ensures var m := Carve(rs, s, lo, hi);
            (t == s && m[t].len == lo - s) || (t == hi && m[t].len == s + rs[s].len - hi) || (t in rs && m[t] == rs[t])
  {
  }

  // ---------------------------------------------------------------- first fit

  predicate Overlaps(rs: Regions, s: int, lo: int, n: int) { s in rs && s < lo + n && lo < s + rs[s].len }

  /** `[c, c + n)` meets no region. */
  predicate Fits(rs: Regions, c: int, n: int) { forall s :: s in rs ==> !Overlaps(rs, s, c, n) }

  lemma FitsIsFree(rs: Regions, c: int, n: int, a: int)
    requires Disjoint(rs) && Fits(rs, c, n) && c <= a < c + n
    ensures FlatAt(rs, a) == None
  {
    assert forall s :: Spans(rs, s, a) ==> Overlaps(rs, s, c, n);
  }

  lemma OverlapIsTaken(rs: Regions, s: int, c: int, n: int)
    requires Disjoint(rs) && n > 0 && Overlaps(rs, s, c, n)
    ensures exists a :: c <= a < c + n && FlatAt(rs, a) != None
  {
    var a := if c >= s then c else s;
    FlatAtSpans(rs, s, a);
  }

  method Member<T>(keys: set<T>) returns (m: T)
    requires keys != {}
    ensures m in keys
  {
    m :| m in keys;
  }

  /** A least element of a non-empty set of keys. */
  method LeastKey(keys: set<int>) returns (m: int)
    requires keys != {}
    ensures m in keys && forall k :: k in keys ==> m <= k
  {
    m := Member(keys);
    var rest := keys - {m};
    while rest != {}
      invariant m in keys && rest <= keys && forall k :: k in keys && k !in rest ==> m <= k
      decreases |rest|
    {
      var k := Member(rest);
      if k < m { m := k; }
      rest := rest - {k};
    }
  }

  /** `FakeVm`: the regions, the first-fit base and the log of what took effect. */
  class FakeVm {
    const base: int
    const page: u64
    const files: map<int, seq<byte>>
    var regions: Regions
    var heap: int
    ghost var log: seq<Op>

    /** The interval map is the flat map its log describes. */
    ghost predicate Valid()
      reads this
    {
      page > 0 && Disjoint(regions) && forall a :: FlatAt(regions, a) == After(log, a, None)
    }

    constructor (page: u64, base: int, heap: int, files: map<int, seq<byte>>)
      requires page > 0
      ensures Valid() && regions == map[] && log == []
      ensures this.page == page && this.base == base && this.heap == heap && this.files == files
    {
      this.page, this.base, this.files := page, base, files;
      this.heap, regions, log := heap, map[], [];
    }

    /** The page-alignment assertions of `map` hold in such a state. */
    predicate Aligned()
      reads this
    {
      page > 0 && Rem(base, page) == 0 && Paged(regions, page)
    }

    function FileOf(fd: int): seq<byte> { if fd in files then files[fd] else [] }

    /** The file is known and the offset does not lie past its end. */
    predicate Servable(src: MapSrc) { src.File? ==> src.fd in files && src.off <= |files[src.fd]| }

    function FillOf(src: MapSrc): Fill
    {
      match src
      case Anon => Zeroes
      case File(fd, off) => FileFill(fd, off, FileOf(fd))
    }

    /** `punch`: removes exactly `[addr, addr + len)`. */
    method Punch(addr: int, len: nat)
      requires Disjoint(regions) && len > 0
      modifies this`regions
      ensures Disjoint(regions)
      ensures forall a :: FlatAt(regions, a) == if addr <= a < addr + len then None else FlatAt(old(regions), a)
      ensures forall s :: s in regions ==> !Meets(regions, s, addr, addr + len)
      ensures KeepsCuts(old(regions), regions)
      ensures old(Aligned()) && Rem(addr, page) == 0 && Rem(len, page) == 0 ==> Aligned()
    {
      hide Disjoint, FlatAt, Carve, Cut, Meets, Paged;
      var end := addr + len;
      if page > 0 && Rem(addr, page) == 0 && Rem(len, page) == 0 { ModPlus(addr, len, page); }
      ghost var rs := regions;
      var hits := set s | s in regions && Meets(regions, s, addr, end);
      while hits != {}
        invariant Disjoint(regions)
        invariant forall s :: s in hits <==> s in regions && Meets(regions, s, addr, end)
        invariant forall a :: !(addr <= a < end) ==> FlatAt(regions, a) == FlatAt(rs, a)
        invariant KeepsCuts(rs, regions)
        invariant old(Aligned()) && Rem(addr, page) == 0 && Rem(len, page) == 0 ==> Aligned()
        decreases |hits|
      {
        var s := LeastKey(hits);
        CarveDisjoint(regions, s, addr, end);
        CarveKeepsCuts(regions, s, addr, end);
        if Aligned() && Rem(addr, page) == 0 && Rem(len, page) == 0 { CarvePaged(regions, s, addr, end, page); }
        forall a | !(addr <= a < end) ensures FlatAt(Carve(regions, s, addr, end), a) == FlatAt(regions, a) {
          CarveKeeps(regions, s, addr, end, a);
        }
        regions := Carve(regions, s, addr, end);
        hits := hits - {s};
      }
      forall a | addr <= a < end ensures FlatAt(regions, a) == None {
        ClearIsFree(regions, addr, end, a);
      }
    }

    /** `first_fit`: a free range at or above the base, and no smaller address there would do. */
    method FirstFit(len: nat) returns (cur: int)
      requires Disjoint(regions) && len > 0
      ensures cur >= base && Fits(regions, cur, len)
      ensures forall c :: base <= c < cur ==> !Fits(regions, c, len)
      ensures cur == base || exists s :: s in regions && cur == s + regions[s].len
    {
      cur := base;
      var todo := regions.Keys;
      while todo != {}
        invariant cur >= base && todo <= regions.Keys
        invariant forall s, t :: s in todo && t in regions && t !in todo ==> t <= s
        invariant forall t :: t in regions && t !in todo ==> t + regions[t].len <= cur
        invariant forall c :: base <= c < cur ==> !Fits(regions, c, len)
        invariant cur == base || exists s :: s in regions && cur == s + regions[s].len
        decreases |todo|
      {
        var s := LeastKey(todo);
        var end := s + regions[s].len;
        todo := todo - {s};
        if end > cur {
          if s >= cur + len { return; }
          forall c | cur <= c < end ensures !Fits(regions, c, len) {
            assert Overlaps(regions, s, c, len);
          }
          cur := end;
        }
      }
    }

    /** The greatest key at or below `addr`, as `range(..=addr).next_back()` gives it. */
    method Predecessor(addr: int) returns (r: Option<int>)
      ensures r.Some? ==> r.value in regions && r.value <= addr && forall s :: s in regions && s <= addr ==> s <= r.value
      ensures r.None? ==> forall s :: s in regions ==> addr < s
    {
      r := None;
      var todo := regions.Keys;
      while todo != {}
        invariant todo <= regions.Keys
        invariant r.Some? ==> r.value in regions && r.value <= addr
        invariant forall s :: s in regions && s !in todo && s <= addr ==> r.Some? && s <= r.value
        decreases |todo|
      {
        var s := LeastKey(todo);
        todo := todo - {s};
        if s <= addr && (r.None? || r.value <= s) { r := Some(s); }
      }
    }

    /** `is_mapped`, `prot_at` and one byte of `read`: the predecessor lookup is the flat lookup. */
    method Lookup(addr: int) returns (c: Option<Cell>)
      requires Disjoint(regions)
      ensures c == FlatAt(regions, addr)
    {
      var s := Predecessor(addr);
      if s.None? || addr >= s.value + regions[s.value].len {
        forall t ensures !Spans(regions, t, addr) {
          if s.Some? && t in regions && t < s.value { assert t + regions[t].len <= s.value; }
        }
        return None;
      }
      FlatAtSpans(regions, s.value, addr);
      c := Some(regions[s.value].CellIn(addr - s.value));
    }

    /** Inserting a region into a free range is the flat mapping operation. */
    method Insert(addr: int, len: nat, prot: Prot, src: MapSrc, ghost exact: bool)
      requires Disjoint(regions) && len > 0 && forall s :: s in regions ==> !Meets(regions, s, addr, addr + len)
      modifies this`regions
      ensures Disjoint(regions)
      ensures forall a :: FlatAt(regions, a) == CellAfter(Op.Map(addr, len, prot, FillOf(src), exact), a, FlatAt(old(regions), a))
      ensures addr in regions && regions[addr].len == len && regions[addr].prot == prot
      ensures forall b :: Cut(old(regions), b) && !(addr < b < addr + len) ==> Cut(regions, b)
      ensures Cut(regions, addr) && Cut(regions, addr + len)
      ensures old(Aligned()) && Rem(addr, page) == 0 && Rem(len, page) == 0 ==> Aligned()
    {
      var fill := FillOf(src);
      var data := seq<byte>(len, i requires 0 <= i < len => FillCell(fill, prot, i).val);
      ghost var rs := regions;
      regions := regions[addr := Region(len, prot, data, if src.Anon? then None else Some(Backing(src.fd, src.off)))];
      InsertDisjoint(rs, addr, regions[addr]);
      forall a ensures FlatAt(regions, a) == CellAfter(Op.Map(addr, len, prot, fill, exact), a, FlatAt(rs, a)) {
        InsertAt(rs, addr, regions[addr], a);
      }
    }

    /** `map`: first fit, a hint that is honoured when free, or exactly there over whatever it holds.
        `None` is a failed assertion or slice: a length or address that is not page-aligned, an unknown
        descriptor, or an offset past the end of its file. Among page-aligned regions the system's
        own choice is never the cause. */
    method Map(at: Where, len: nat, prot: Prot, src: MapSrc) returns (r: Option<int>)
      requires Valid() && len > 0
      modifies this`regions, this`log
      ensures Valid()
      ensures r.None? ==> regions == old(regions) && log == old(log)
      ensures r.Some? ==> Rem(len, page) == 0 && Rem(r.value, page) == 0 && Servable(src)
      ensures old(Aligned()) && Rem(len, page) == 0 && (!at.Anywhere? ==> Rem(at.addr, page) == 0) && Servable(src) ==>
                r.Some? && Aligned()
      ensures r.Some? ==> log == old(log) + [Op.Map(r.value, len, prot, FillOf(src), at.Exact?)]
      ensures r.Some? && at.Exact? ==> r.value == at.addr
      ensures r.Some? && !at.Exact? ==> Fits(old(regions), r.value, len)
      ensures r.Some? && at.Hint? && Fits(old(regions), at.addr, len) ==> r.value == at.addr
      ensures r.Some? && (at.Anywhere? || (at.Hint? && !Fits(old(regions), at.addr, len))) ==>
                r.value >= base && forall c :: base <= c < r.value ==> !Fits(old(regions), c, len)
      ensures r.Some? ==> r.value in regions && regions[r.value].len == len && regions[r.value].prot == prot
      ensures r.Some? ==> Cut(regions, r.value) && Cut(regions, r.value + len)
      ensures r.Some? ==> forall b :: Cut(old(regions), b) && !(r.value < b < r.value + len) ==> Cut(regions, b)
    {
      if Rem(len, page) != 0 || !Servable(src) { return None; }
      var addr;
      if at.Exact? || (at.Hint? && Fits(regions, at.addr, len)) {
        addr := at.addr;
      } else {
        addr := FirstFit(len);
        if s :| s in regions && addr == s + regions[s].len && Aligned() { EndPaged(regions, page, s); }
      }
      if Rem(addr, page) != 0 { return None; }
      Place(addr, len, prot, src, at.Exact?);
      r := Some(addr);
    }

    /** The mapping itself, once its address is chosen. */
    method Place(addr: int, len: nat, prot: Prot, src: MapSrc, exact: bool)
      requires Valid() && len > 0 && (exact || Fits(regions, addr, len))
      modifies this`regions, this`log
      ensures Valid() && log == old(log) + [Op.Map(addr, len, prot, FillOf(src), exact)]
      ensures addr in regions && regions[addr].len == len && regions[addr].prot == prot
      ensures Cut(regions, addr) && Cut(regions, addr + len)
      ensures forall b :: Cut(old(regions), b) && !(addr < b < addr + len) ==> Cut(regions, b)
      ensures old(Aligned()) && Rem(addr, page) == 0 && Rem(len, page) == 0 ==> Aligned()
    {
      hide FlatAt, Disjoint, Cut, Fits, Meets, Paged;
      ghost var ops := log;
      if exact {
        Punch(addr, len);
      } else {
        FitsMeetsNothing(regions, addr, len);
      }
      Insert(addr, len, prot, src, exact);
      ghost var op := Op.Map(addr, len, prot, FillOf(src), exact);
      log := log + [op];
      forall a ensures FlatAt(regions, a) == After(log, a, None) {
        AfterOneMore(ops, op, a);
      }
    }

    /** `[addr, addr + n)` lies inside one writable region, as `write` and `zero` assert. */
    ghost predicate Writable(addr: int, n: nat)
      reads this
    {
      exists s :: Spans(regions, s, addr) && addr + n <= s + regions[s].len && regions[s].prot.write
    }

    method Overwrite(addr: int, data: seq<byte>)
      requires Disjoint(regions) && Writable(addr, |data|)
      modifies this`regions
      ensures Disjoint(regions)
      ensures forall a :: FlatAt(regions, a) == CellAfter(Op.Write(addr, data), a, FlatAt(old(regions), a))
      ensures KeepsCuts(old(regions), regions) && (old(Aligned()) ==> Aligned()) && SameShape(old(regions), regions)
    {
      hide FlatAt, CellAfter, Disjoint, Stored, KeepsCuts, Paged;
      ghost var rs := regions;
      ghost var home :| Spans(regions, home, addr) && addr + |data| <= home + regions[home].len && regions[home].prot.write;
      var found := Predecessor(addr);
      OnlyHome(regions, home, addr, found);
      regions := Stored(regions, found.value, addr - found.value, data);
      StoreIsWrite(rs, home, addr - home, data);
      StoredShape(rs, home, addr - home, data);
      if page > 0 && Paged(rs, page) { ShapePaged(rs, regions, page); }
    }

    /** `write`. */
    method Write(addr: int, data: seq<byte>)
      requires Valid() && Writable(addr, |data|)
      modifies this`regions, this`log
      ensures Valid() && log == old(log) + [Op.Write(addr, data)]
      ensures KeepsCuts(old(regions), regions) && (old(Aligned()) ==> Aligned()) && SameShape(old(regions), regions)
    {
      hide FlatAt, Disjoint, CellAfter, Writable, KeepsCuts, Paged;
      ghost var ops := log;
      Overwrite(addr, data);
      log := log + [Op.Write(addr, data)];
      forall a ensures FlatAt(regions, a) == After(log, a, None) {
        AfterOneMore(ops, Op.Write(addr, data), a);
      }
    }

    /** `zero`. */
    method Zero(addr: int, len: nat)
      requires Valid() && Writable(addr, len)
      modifies this`regions, this`log
      ensures Valid() && log == old(log) + [Op.Zero(addr, len)]
      ensures KeepsCuts(old(regions), regions) && (old(Aligned()) ==> Aligned()) && SameShape(old(regions), regions)
    {
      hide FlatAt, Disjoint, Writable, KeepsCuts, Paged;
      ghost var ops := log;
      var zeroes := seq<byte>(len, _ => 0);
      Overwrite(addr, zeroes);
      log := log + [Op.Zero(addr, len)];
      forall a ensures FlatAt(regions, a) == After(log, a, None) {
        AfterOneMore(ops, Op.Zero(addr, len), a);
        assert CellAfter(Op.Write(addr, zeroes), a, After(ops, a, None)) == CellAfter(Op.Zero(addr, len), a, After(ops, a, None));
      }
    }

    /** The loop of `protect` over the regions it meets. */
    method Reprotect(addr: int, len: nat, prot: Prot)
      modifies this`regions
      ensures regions == Reprotected(old(regions), addr, addr + len, prot)
    {
      ghost var rs := regions;
      var hits := set s | s in regions && Meets(regions, s, addr, addr + len);
      while hits != {}
        invariant hits <= rs.Keys && regions.Keys == rs.Keys
        invariant forall s :: s in hits ==> Meets(rs, s, addr, addr + len)
        invariant forall s :: s in rs && Meets(rs, s, addr, addr + len) && s !in hits ==> regions[s] == rs[s].(prot := prot)
        invariant forall s :: s in rs && !(Meets(rs, s, addr, addr + len) && s !in hits) ==> regions[s] == rs[s]
        decreases |hits|
      {
        var s := LeastKey(hits);
        regions := regions[s := regions[s].(prot := prot)];
        hits := hits - {s};
      }
    }

    /** `protect` re-protects every region it meets, whole; meeting none is a failed assertion. The flat
        view is kept exactly when each of them lies inside the range or has that protection already. */
    method Protect(addr: int, len: nat, prot: Prot) returns (stopped: bool)
      requires Disjoint(regions)
      modifies this`regions, this`log
      ensures stopped <==> forall s :: s in old(regions) ==> !Meets(old(regions), s, addr, addr + len)
      ensures stopped ==> regions == old(regions) && log == old(log)
      ensures !stopped ==> regions == Reprotected(old(regions), addr, addr + len, prot)
                           && log == old(log) + [Op.Protect(addr, len, prot)]
      ensures Disjoint(regions)
      ensures !stopped && old(Valid()) ==> (Valid() <==> Whole(old(regions), addr, addr + len, prot))
      ensures KeepsCuts(old(regions), regions) && (old(Aligned()) ==> Aligned())
    {
      hide FlatAt, CellAfter, Disjoint, Reprotected, Whole, Paged, Cut, After;
      var hits := set s | s in regions && Meets(regions, s, addr, addr + len);
      stopped := hits == {};
      if stopped {
        forall s | s in regions ensures !Meets(regions, s, addr, addr + len) { assert s !in hits; }
        return;
      }
      assert exists s :: s in hits;
      ghost var rs, ops, op := regions, log, Op.Protect(addr, len, prot);
      ProtectExactly(rs, addr, len, prot);
      ReprotectedKeepsCuts(rs, addr, addr + len, prot);
      if Aligned() { ReprotectedPaged(rs, addr, addr + len, prot, page); }
      Reprotect(addr, len, prot);
      log := log + [op];
      forall a ensures After(log, a, None) == CellAfter(op, a, After(ops, a, None)) {
        AfterOneMore(ops, op, a);
      }
    }

    /** `unmap`. */
    method Unmap(addr: int, len: nat)
      requires Valid() && len > 0
      modifies this`regions, this`log
      ensures Valid() && log == old(log) + [Op.Unmap(addr, len)]
      ensures old(Aligned()) && Rem(addr, page) == 0 && Rem(len, page) == 0 ==> Aligned()
    {
      hide FlatAt, Disjoint, Paged, KeepsCuts;
      ghost var rs, ops, op := regions, log, Op.Unmap(addr, len);
      Punch(addr, len);
      log := log + [op];
      forall a ensures FlatAt(regions, a) == After(log, a, None) {
        AfterOneMore(ops, op, a);
      }
    }

    /** `icache_sync`. */
    method IcacheSync(addr: int, len: nat)
      requires Valid()
      modifies this`log
      ensures Valid() && log == old(log) + [Sync(addr, len)]
    {
      hide FlatAt, Disjoint;
      ghost var ops := log;
      log := log + [Sync(addr, len)];
      forall a ensures FlatAt(regions, a) == After(log, a, None) {
        AfterOneMore(ops, Sync(addr, len), a);
      }
    }

    /** `alloc_aligned`: the next aligned block of the heap, with zeroes in it. The block is inserted
        without a look at what is there; the flat view is kept when the range was free. */
    method AllocAligned(align: nat, len: nat) returns (addr: int)
      requires Valid() && align > 0 && len > 0
      modifies this
      ensures addr == Up(old(heap), align) && Rem(addr, align) == 0 && heap == addr + len
      ensures log == old(log) + [Alloc(addr, seq(len, _ => 0))]
      ensures regions == old(regions)[addr := Region(len, RW, seq(len, _ => 0), None)]
      ensures Fits(old(regions), addr, len) ==> Valid()
    {
      hide FlatAt, Disjoint, After, Up;
      ghost var rs, ops := regions, log;
      UpBounds(heap, align);
      addr := Up(heap, align);
      var zeroes := seq<byte>(len, _ => 0);
      var r := Region(len, RW, zeroes, None);
      heap, regions, log := addr + len, regions[addr := r], log + [Alloc(addr, zeroes)];
      if Fits(rs, addr, len) {
        FitsMeetsNothing(rs, addr, len);
        InsertDisjoint(rs, addr, r);
        forall a ensures FlatAt(regions, a) == After(log, a, None) {
          InsertAt(rs, addr, r, a);
          AfterOneMore(ops, Alloc(addr, zeroes), a);
        }
      }
    }

    /** `free_aligned`. */
    method FreeAligned(addr: int, len: nat)
      requires Valid() && len > 0
      modifies this`regions, this`log
      ensures Valid() && log == old(log) + [Free(addr, len)]
    {
      hide FlatAt, Disjoint, Paged, KeepsCuts;
      ghost var ops := log;
      Punch(addr, len);
      log := log + [Free(addr, len)];
      forall a ensures FlatAt(regions, a) == After(log, a, None) {
        AfterOneMore(ops, Free(addr, len), a);
      }
    }
  }

  lemma FitsMeetsNothing(rs: Regions, c: int, n: nat)
    requires Fits(rs, c, n)
    ensures forall s :: s in rs ==> !Meets(rs, s, c, c + n)
  {
    forall s | s in rs ensures !Meets(rs, s, c, c + n) { assert !Overlaps(rs, s, c, n); }
  }

  lemma AfterOneMore(ops: seq<Op>, op: Op, a: int)
    ensures After(ops + [op], a, None) == CellAfter(op, a, After(ops, a, None))
  {
    AfterConcat(ops, [op], a, None);
    assert After([op], a, After(ops, a, None)) == CellAfter(op, a, After(ops, a, None));
  }

  lemma OnlyHome(rs: Regions, home: int, addr: int, found: Option<int>)
    requires Disjoint(rs) && Spans(rs, home, addr)
    requires found.Some? ==> found.value in rs && found.value <= addr && forall s :: s in rs && s <= addr ==> s <= found.value
    requires found.None? ==> forall s :: s in rs ==> addr < s
    ensures found == Some(home)
  {
  }

  function Stored(rs: Regions, s: int, o: nat, data: seq<byte>): Regions
    requires Disjoint(rs) && s in rs && o + |data| <= rs[s].len
  {
    var r := rs[s];
    rs[s := r.(data := r.data[..o] + data + r.data[o + |data|..])]
  }

  lemma StoreAt(rs: Regions, s: int, o: nat, data: seq<byte>, a: int)
    requires Disjoint(rs) && s in rs && o + |data| <= rs[s].len
    ensures Disjoint(Stored(rs, s, o, data))
    ensures FlatAt(Stored(rs, s, o, data), a) ==
            if s + o <= a < s + o + |data| && FlatAt(rs, a).Some?
            then Some(FlatAt(rs, a).value.(val := data[a - s - o])) else FlatAt(rs, a)
    ensures s + o <= a < s + o + |data| ==> FlatAt(rs, a).Some?
  {
    var m := Stored(rs, s, o, data);
    StoredDisjoint(rs, s, o, data);
    if Spans(rs, s, a) {
      FlatAtSpans(rs, s, a);
      FlatAtSpans(m, s, a);
    } else if t :| Spans(rs, t, a) {
      FlatAtSpans(rs, t, a);
      FlatAtSpans(m, t, a);
    } else {
      assert forall t :: Spans(m, t, a) ==> Spans(rs, t, a);
    }
  }

  lemma StoredDisjoint(rs: Regions, s: int, o: nat, data: seq<byte>)
    requires Disjoint(rs) && s in rs && o + |data| <= rs[s].len
    ensures Disjoint(Stored(rs, s, o, data))
  {
  }

  lemma StoredShape(rs: Regions, s: int, o: nat, data: seq<byte>)
    requires Disjoint(rs) && s in rs && o + |data| <= rs[s].len
    ensures SameShape(rs, Stored(rs, s, o, data)) && KeepsCuts(rs, Stored(rs, s, o, data))
  {
    ShapeKeepsCuts(rs, Stored(rs, s, o, data));
  }

  lemma ShapeKeepsCuts(rs: Regions, m: Regions)
    requires SameShape(rs, m)
    ensures KeepsCuts(rs, m)
  {
    forall b | Cut(rs, b) ensures Cut(m, b) {
      forall s | s in m ensures !(s < b < s + m[s].len) { assert s in rs; }
    }
  }

  lemma ShapePaged(rs: Regions, m: Regions, page: nat)
    requires page > 0 && SameShape(rs, m) && Paged(rs, page)
    ensures Paged(m, page)
  {
    forall s | s in m ensures Rem(s, page) == 0 && Rem(m[s].len, page) == 0 { assert s in rs; }
  }

  lemma StoreIsWrite(rs: Regions, s: int, o: nat, data: seq<byte>)
    requires Disjoint(rs) && s in rs && o + |data| <= rs[s].len
    ensures Disjoint(Stored(rs, s, o, data))
    ensures forall a :: FlatAt(Stored(rs, s, o, data), a) == CellAfter(Op.Write(s + o, data), a, FlatAt(rs, a))
  {
    StoredDisjoint(rs, s, o, data);
    hide FlatAt, Stored;
    forall a ensures FlatAt(Stored(rs, s, o, data), a) == CellAfter(Op.Write(s + o, data), a, FlatAt(rs, a)) {
      StoreAt(rs, s, o, data, a);
    }
  }

  /** Every region that meets `[lo, hi)` lies inside it or has protection `prot` already. */
  predicate Whole(rs: Regions, lo: int, hi: int, prot: Prot)
  {
    forall s :: s in rs && Meets(rs, s, lo, hi) ==> (lo <= s && s + rs[s].len <= hi) || rs[s].prot == prot
  }

  function Reprotected(rs: Regions, lo: int, hi: int, prot: Prot): Regions
  {
    map s | s in rs :: if Meets(rs, s, lo, hi) then rs[s].(prot := prot) else rs[s]
  }

  lemma ReprotectedAt(rs: Regions, lo: int, hi: int, prot: Prot, s: int, a: int)
    requires Disjoint(rs) && Spans(rs, s, a)
    ensures Disjoint(Reprotected(rs, lo, hi, prot))
    ensures FlatAt(Reprotected(rs, lo, hi, prot), a) ==
            Some(if Meets(rs, s, lo, hi) then rs[s].CellIn(a - s).(prot := prot) else rs[s].CellIn(a - s))
    ensures FlatAt(rs, a) == Some(rs[s].CellIn(a - s))
  {
    FlatAtSpans(rs, s, a);
    FlatAtSpans(Reprotected(rs, lo, hi, prot), s, a);
  }

  lemma ReprotectedDisjoint(rs: Regions, lo: int, hi: int, prot: Prot)
    requires Disjoint(rs)
    ensures Disjoint(Reprotected(rs, lo, hi, prot))
  {
  }

  lemma ReprotectedKeepsCuts(rs: Regions, lo: int, hi: int, prot: Prot)
    ensures KeepsCuts(rs, Reprotected(rs, lo, hi, prot))
  {
    forall b | Cut(rs, b) ensures Cut(Reprotected(rs, lo, hi, prot), b) {
      forall s | s in rs ensures !(s < b < s + Reprotected(rs, lo, hi, prot)[s].len) {
        assert !(s < b < s + rs[s].len);
      }
    }
  }

  lemma ReprotectedPaged(rs: Regions, lo: int, hi: int, prot: Prot, page: nat)
    requires page > 0 && Paged(rs, page)
    ensures Paged(Reprotected(rs, lo, hi, prot), page)
  {
  }

  /** Between two edges a range holds whole regions only. */
  lemma CutIsWhole(rs: Regions, lo: int, hi: int, prot: Prot)
    requires Cut(rs, lo) && Cut(rs, hi)
    ensures Whole(rs, lo, hi, prot)
  {
  }

  lemma ReprotectedSpans(rs: Regions, lo: int, hi: int, prot: Prot, s: int, a: int)
    ensures Spans(Reprotected(rs, lo, hi, prot), s, a) <==> Spans(rs, s, a)
  {
  }

  lemma WholeProtects(rs: Regions, lo: int, len: nat, prot: Prot, a: int)
    requires Disjoint(rs) && Whole(rs, lo, lo + len, prot) && Disjoint(Reprotected(rs, lo, lo + len, prot))
    ensures FlatAt(Reprotected(rs, lo, lo + len, prot), a) == CellAfter(Op.Protect(lo, len, prot), a, FlatAt(rs, a))
  {
    hide FlatAt, Reprotected, Disjoint;
    var m := Reprotected(rs, lo, lo + len, prot);
    if s :| Spans(rs, s, a) {
      ReprotectedAt(rs, lo, lo + len, prot, s, a);
    } else {
      forall t ensures !Spans(m, t, a) { ReprotectedSpans(rs, lo, lo + len, prot, t, a); }
      FlatAtNone(m, a);
      FlatAtNone(rs, a);
    }
  }

  lemma PartialSpills(rs: Regions, lo: int, len: nat, prot: Prot, s: int) returns (a: int)
    requires Disjoint(rs) && Disjoint(Reprotected(rs, lo, lo + len, prot)) && s in rs
    requires Meets(rs, s, lo, lo + len) && !(lo <= s && s + rs[s].len <= lo + len) && rs[s].prot != prot
    ensures FlatAt(Reprotected(rs, lo, lo + len, prot), a) != CellAfter(Op.Protect(lo, len, prot), a, FlatAt(rs, a))
  {
    hide FlatAt, Reprotected, Disjoint;
    a := if s < lo then s else lo + len;
    ReprotectedAt(rs, lo, lo + len, prot, s, a);
  }

  /** Whole-region protection is per-page protection exactly when `Whole` holds. */
  lemma ProtectExactly(rs: Regions, lo: int, len: nat, prot: Prot)
    requires Disjoint(rs)
    ensures Disjoint(Reprotected(rs, lo, lo + len, prot))
    ensures (forall a :: FlatAt(Reprotected(rs, lo, lo + len, prot), a) == CellAfter(Op.Protect(lo, len, prot), a, FlatAt(rs, a)))
            <==> Whole(rs, lo, lo + len, prot)
  {
    ReprotectedDisjoint(rs, lo, lo + len, prot);
    hide Reprotected, FlatAt, CellAfter, Disjoint;
    if Whole(rs, lo, lo + len, prot) {
      forall a ensures FlatAt(Reprotected(rs, lo, lo + len, prot), a) == CellAfter(Op.Protect(lo, len, prot), a, FlatAt(rs, a)) {
        WholeProtects(rs, lo, len, prot, a);
      }
    } else {
      var s :| s in rs && Meets(rs, s, lo, lo + len) && !(lo <= s && s + rs[s].len <= lo + len) && rs[s].prot != prot;
      var _ := PartialSpills(rs, lo, len, prot, s);
    }
  }

  /** A spill: protecting the first page of a region of two pages changes the second as well. */
  lemma ProtectSpills(page: nat, data: seq<byte>)
    requires page > 0 && |data| == 2 * page
    ensures var rs := map[0 := Region(2 * page, PROT_NONE, data, None)];
            Disjoint(rs) && Paged(rs, page) && !Whole(rs, 0, page, RW) && Disjoint(Reprotected(rs, 0, page, RW))
            && FlatAt(Reprotected(rs, 0, page, RW), page) != CellAfter(Op.Protect(0, page, RW), page, FlatAt(rs, page))
  {
    hide FlatAt, Reprotected;
    var rs := map[0 := Region(2 * page, PROT_NONE, data, None)];
    RemUnique(0, page, 0, 0);
    RemUnique(2 * page, page, 2, 0);
    assert Spans(rs, 0, page);
    assert Meets(rs, 0, 0, page);
    ReprotectedAt(rs, 0, page, RW, 0, page);
  }

  /** While the refinement holds, the interval map is the flat address space that its log makes of an
      empty one. */
  lemma ValidIsSpace(vm: FakeVm)
    requires vm.Valid()
    ensures forall a :: FlatAt(vm.regions, a) == Look(Run(map[], vm.log), a)
  {
    hide FlatAt, Disjoint;
    forall a ensures FlatAt(vm.regions, a) == Look(Run(map[], vm.log), a) {
      RunLook(map[], vm.log, a);
    }
  }

  lemma ClearIsFree(rs: Regions, lo: int, hi: int, a: int)
    requires Disjoint(rs) && lo <= a < hi && forall s :: s in rs ==> !Meets(rs, s, lo, hi)
    ensures FlatAt(rs, a) == None
  {
    assert forall s :: Spans(rs, s, a) ==> Meets(rs, s, lo, hi);
  }

  lemma InsertDisjoint(rs: Regions, addr: int, r: Region)
    requires Disjoint(rs) && r.len > 0 && |r.data| == r.len
    requires forall s :: s in rs ==> !Meets(rs, s, addr, addr + r.len)
    ensures Disjoint(rs[addr := r])
  {
  }

  lemma InsertAt(rs: Regions, addr: int, r: Region, a: int)
    requires Disjoint(rs) && r.len > 0 && |r.data| == r.len && Disjoint(rs[addr := r])
    requires forall s :: s in rs ==> !Meets(rs, s, addr, addr + r.len)
    ensures FlatAt(rs[addr := r], a) == if addr <= a < addr + r.len then Some(r.CellIn(a - addr)) else FlatAt(rs, a)
  {
    var m := rs[addr := r];
    assert addr !in rs by { if addr in rs { assert Meets(rs, addr, addr, addr + r.len); } }
    if addr <= a < addr + r.len {
      FlatAtSpans(m, addr, a);
    } else if s :| Spans(rs, s, a) {
      FlatAtSpans(rs, s, a);
      FlatAtSpans(m, s, a);
    } else {
      assert forall s :: Spans(m, s, a) ==> Spans(rs, s, a);
    }
  }
}
