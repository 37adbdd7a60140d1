/** The `Vm` interface as a class: any operation may fail, and one that fails changes nothing. The
    trace records the operations that took effect, `faults` counts what the system declined. */
module VirtualMemory {
  import opened Words
  import opened Layout
  import opened AddressSpace

  /** Where a mapping goes: the system picks, a preference, or exactly here. */
  datatype Where = Anywhere | Hint(addr: u64) | Exact(addr: u64)

  datatype MapSrc = Anon | File(fd: int, off: u64)

  class Vm {
    const page: u64
    const canMapFiles: bool
    const files: map<int, seq<byte>>
    var space: Space
    var trace: seq<Op>
    ghost var faults: nat

    predicate Valid() { IsPow2(page) }

    function FileOf(fd: int): seq<byte> { if fd in files then files[fd] else [] }

    function FillOf(src: MapSrc): Fill
    {
      match src
      case Anon => Zeroes
      case File(fd, off) => FileFill(fd, off, FileOf(fd))
    }

    constructor (page: u64, canMapFiles: bool, files: map<int, seq<byte>>, space: Space)
      requires IsPow2(page)
      ensures Valid() && this.page == page && this.canMapFiles == canMapFiles && this.files == files
      ensures this.space == space && trace == [] && faults == 0
    {
      this.page, this.canMapFiles, this.files, this.space, this.trace := page, canMapFiles, files, space, [];
      faults := 0;
    }

    /** A preference that was free and in range was passed over. */
    predicate PassedOver(s: Space, at: Where, len: u64, got: u64)
      requires Valid()
    {
      at.Hint? && got != at.addr && Rem(at.addr, page) == 0 && at.addr + len < U64_LIMIT && Vacant(s, at.addr, at.addr + len)
    }

    /** A new mapping. `Anywhere` and `Hint` only ever use free addresses; `Exact` replaces whatever is
        there. Arguments that are not page-aligned, empty or out of range are declined, and passing
        over a hint that could be met counts as declining it. */
    method Map(at: Where, len: u64, prot: Prot, src: MapSrc) returns (r: Result<u64, Errno>)
      requires Valid()
      modifies this
      ensures faults == old(faults) + (if r.Ok? && !PassedOver(old(space), at, len, r.value) then 0 else 1)
      ensures r.Err? ==> space == old(space) && trace == old(trace)
      ensures r.Ok? ==> var op := Op.Map(r.value, len, prot, FillOf(src), at.Exact?);
                        trace == old(trace) + [op] && space == Apply(old(space), op)
                        && (Enabled(old(space), op, page) <==> at.Exact? ==> Held(old(space), at.addr, at.addr + len))
      ensures r.Ok? && at.Exact? ==> r.value == at.addr
      ensures r.Ok? && !at.Exact? ==> Vacant(old(space), r.value, r.value + len)
    {
      var refuse: bool, pick: u64 := *, *;
      if refuse || len == 0 || Rem(len, page) != 0 || (src.File? && (src.fd !in files || Rem(src.off, page) != 0)) {
        faults := faults + 1;
        return Err(ENOMEM);
      }
      if at.Exact? { pick := at.addr; }
      if Rem(pick, page) != 0 || pick + len >= U64_LIMIT || (!at.Exact? && !Vacant(space, pick, pick + len)) {
        faults := faults + 1;
        return Err(ENOMEM);
      }
      faults := faults + if PassedOver(space, at, len, pick) then 1 else 0;
      var op := Op.Map(pick, len, prot, FillOf(src), at.Exact?);
      space, trace := Apply(space, op), trace + [op];
      r := Ok(pick);
    }

    /** Release a mapping. A refusal is recorded, because callers carry on after it. */
    method Unmap(addr: u64, len: u64) returns (ok: bool)
      requires Held(space, addr, addr + len)
      modifies this
      ensures faults == old(faults) + (if ok then 0 else 1)
      ensures var op := if ok then Op.Unmap(addr, len) else Refused(addr, len);
              trace == old(trace) + [op] && space == Apply(old(space), op)
    {
      ok := *;
      var op := if ok then Op.Unmap(addr, len) else Refused(addr, len);
      space, trace := Apply(space, op), trace + [op];
      faults := faults + if ok then 0 else 1;
    }

    method Protect(addr: u64, len: u64, prot: Prot) returns (ok: bool)
      requires Valid() && Rem(addr, page) == 0 && Rem(len, page) == 0 && Held(space, addr, addr + len)
      modifies this
      ensures faults == old(faults) + (if ok then 0 else 1)
      ensures !ok ==> space == old(space) && trace == old(trace)
      ensures ok ==> trace == old(trace) + [Op.Protect(addr, len, prot)]
                     && space == Apply(old(space), Op.Protect(addr, len, prot))
    {
      ok := *;
      if ok {
        space, trace := Apply(space, Op.Protect(addr, len, prot)), trace + [Op.Protect(addr, len, prot)];
      }
      faults := faults + if ok then 0 else 1;
    }

    method Write(addr: u64, data: seq<byte>) returns (ok: bool)
      requires Writable(space, addr, addr + |data|)
      modifies this
      ensures faults == old(faults) + (if ok then 0 else 1)
      ensures !ok ==> space == old(space) && trace == old(trace)
      ensures ok ==> trace == old(trace) + [Op.Write(addr, data)] && space == Apply(old(space), Op.Write(addr, data))
    {
      ok := *;
      if ok {
        space, trace := Apply(space, Op.Write(addr, data)), trace + [Op.Write(addr, data)];
      }
      faults := faults + if ok then 0 else 1;
    }

    method Zero(addr: u64, len: u64) returns (ok: bool)
      requires Writable(space, addr, addr + len)
      modifies this
      ensures faults == old(faults) + (if ok then 0 else 1)
      ensures !ok ==> space == old(space) && trace == old(trace)
      ensures ok ==> trace == old(trace) + [Op.Zero(addr, len)] && space == Apply(old(space), Op.Zero(addr, len))
    {
      ok := *;
      if ok {
        space, trace := Apply(space, Op.Zero(addr, len)), trace + [Op.Zero(addr, len)];
      }
      faults := faults + if ok then 0 else 1;
    }

    /** Make stores visible to instruction fetch. */
    method IcacheSync(addr: u64, len: u64)
      modifies this
      ensures faults == old(faults)
      ensures trace == old(trace) + [Sync(addr, len)] && space == Apply(old(space), Sync(addr, len))
    {
      space, trace := Apply(space, Sync(addr, len)), trace + [Sync(addr, len)];
    }

    /** An aligned block of readable and writable memory with arbitrary contents. */
    method AllocAligned(align: u64, len: u64) returns (r: Result<u64, Errno>)
      requires align > 0
      modifies this
      ensures faults == old(faults) + (if r.Ok? then 0 else 1)
      ensures r.Err? ==> space == old(space) && trace == old(trace)
      ensures r.Ok? ==> Rem(r.value, align) == 0 && r.value + len < U64_LIMIT
                        && Vacant(old(space), r.value, r.value + len)
      ensures r.Ok? ==> |trace| == |old(trace)| + 1 && trace[..|old(trace)|] == old(trace)
                        && var op := trace[|old(trace)|];
                           op.Alloc? && op.addr == r.value && |op.junk| == len && space == Apply(old(space), op)
    {
      var refuse: bool, pick: u64, junk: seq<byte> := *, *, *;
      if refuse || |junk| != len || Rem(pick, align) != 0 || pick + len >= U64_LIMIT || !Vacant(space, pick, pick + len) {
        faults := faults + 1;
        return Err(ENOMEM);
      }
      space, trace := Apply(space, Alloc(pick, junk)), trace + [Alloc(pick, junk)];
      r := Ok(pick);
    }

    method FreeAligned(addr: u64, len: u64)
      requires Held(space, addr, addr + len)
      modifies this
      ensures faults == old(faults)
      ensures trace == old(trace) + [Free(addr, len)] && space == Apply(old(space), Free(addr, len))
    {
      space, trace := Apply(space, Free(addr, len)), trace + [Free(addr, len)];
    }
  }
}
