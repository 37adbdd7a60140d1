/** Reading a file through `pread`, which may return less than it was asked for. */
module FileSource {
  import opened Words
  import opened Elf

  const I64_LIMIT: int := 0x8000_0000_0000_0000

  class File {
    const bytes: seq<byte>
    /** How many calls of `pread` have failed; nothing else counts here. */
    ghost var faults: nat

    constructor (bytes: seq<byte>)
      requires |bytes| < I64_LIMIT
      ensures this.bytes == bytes && faults == 0
    {
      this.bytes := bytes;
      faults := 0;
    }

    /** One `pread` into `buf[at..]`: some positive part of what was asked for, zero only at or past
        the end of the file, negative on an error and for an offset that is negative as an `i64`. */
    method Pread(buf: array<byte>, at: nat, off: u64) returns (n: int)
      requires at < buf.Length
      modifies buf, this`faults
      ensures faults == old(faults) + if n < 0 then 1 else 0
      ensures n <= buf.Length - at
      ensures n > 0 ==> off + n <= |bytes| && buf[at..at + n] == bytes[off..off + n]
      ensures n == 0 ==> |bytes| <= off
      ensures off >= I64_LIMIT ==> n < 0
      ensures buf[..at] == old(buf[..at]) && (n <= 0 ==> buf[..] == old(buf[..]))
    {
      var fault: bool, part: int := *, *;
      if fault || off >= I64_LIMIT {
        faults := faults + 1;
        return -5;
      }
      var most := if off >= |bytes| then 0 else if |bytes| - off <= buf.Length - at then |bytes| - off else buf.Length - at;
      n := if 0 < part <= most then part else most;
      forall i | 0 <= i < n {
        buf[at + i] := bytes[off + i];
      }
      assert n > 0 ==> buf[at..at + n] == bytes[off..off + n];
    }

    /** `read_exact_at`: terminates however short the reads are, and either fills the buffer with
        exactly the file's bytes or reports an error. Unless some `pread` failed the outcome is that of
        the in-memory source, except that an empty read always succeeds; the first failed `pread` ends
        the call. */
    method ReadExactAt(off: u64, buf: array<byte>) returns (r: Result<(), Errno>)
      requires |bytes| < I64_LIMIT
      modifies buf, this`faults
      ensures old(faults) <= faults <= old(faults) + 1
      ensures r.Ok? && buf.Length > 0 ==> ReadExact(Source(bytes, true), off, buf.Length) == Some(buf[..])
      ensures r.Ok? <==> faults == old(faults) && (buf.Length == 0 || ReadExact(Source(bytes, true), off, buf.Length).Some?)
      ensures off >= I64_LIMIT && buf.Length > 0 ==> r.Err?
    {
      var done := 0;
      while done < buf.Length
        invariant 0 <= done <= buf.Length && faults == old(faults)
        invariant done > 0 ==> off + done <= |bytes| && buf[..done] == bytes[off..off + done]
      {
        ghost var before := buf[..done];
        var n := Pread(buf, done, off + done);
        if n == 0 { return Err(ENOEXEC); }
        if n < 0 { return Err(EIO); }
        assert buf[..done + n] == before + buf[done..done + n];
        assert done > 0 ==> bytes[off..off + done] + bytes[off + done..off + done + n] == bytes[off..off + done + n];
        done := done + n;
      }
      assert buf[..buf.Length] == buf[..];
      r := Ok(());
    }
  }
}
