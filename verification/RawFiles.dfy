/**
Writing and reading whole files through calls that may move only part of what is asked. How far a
call gets is up to the operating system.
*/
module RawFiles {
  import opened Bytes
  import opened Wrappers

  const MAX_CHUNK: nat := 0x1000_0000

  /** What one call reports, and how many bytes it moved. */
  datatype Outcome = Outcome(ok: bool, moved: nat)

  /** The outcome of the `n`-th call for `chunk` bytes. */
  type System = (nat, nat) -> Outcome

  ghost predicate IsSystem(sys: System) {
    forall n: nat, chunk: nat :: sys(n, chunk).moved <= chunk
  }

  function Chunk(left: nat): nat {
    if left > MAX_CHUNK then MAX_CHUNK else left
  }

  /** From call `n` on every call makes progress until the `left` bytes are moved. */
  predicate Completes(sys: System, n: nat, left: nat)
    decreases left
  {
    left == 0 || (
      var outcome := sys(n, Chunk(left));
      outcome.ok && 0 < outcome.moved <= left && Completes(sys, n + 1, left - outcome.moved))
  }

  class File {
    var contents: seq<byte>
    var calls: nat
    const sys: System

    ghost predicate Valid()
      reads this
    {
      IsSystem(sys)
    }

    constructor (contents: seq<byte>, sys: System)
      requires IsSystem(sys)
      ensures Valid() && this.contents == contents && this.sys == sys && calls == 0
    {
      this.contents, this.sys, this.calls := contents, sys, 0;
    }

    /** Appends the part of the chunk that gets through. */
    method WriteFile(chunk: seq<byte>) returns (ok: bool, wrote: nat)
      requires Valid()
      modifies this
      ensures Valid() && calls == old(calls) + 1
      ensures wrote <= |chunk| && contents == old(contents) + chunk[..wrote]
      ensures Outcome(ok, wrote) == sys(old(calls), |chunk|)
    {
      var outcome := sys(calls, |chunk|);
      ok, wrote := outcome.ok, outcome.moved;
      contents := contents + chunk[..wrote];
      calls := calls + 1;
    }

    /** Fills part of the buffer from `off` on. */
    method ReadFile(buffer: array<byte>, off: nat, chunk: nat) returns (ok: bool, got: nat)
      requires Valid() && off + chunk <= |contents| <= buffer.Length
      modifies this`calls, buffer
      ensures Valid() && calls == old(calls) + 1
      ensures got <= chunk && Outcome(ok, got) == sys(old(calls), chunk)
      ensures buffer[..off] == old(buffer[..off]) && buffer[off..off + got] == contents[off..off + got]
    {
      var outcome := sys(calls, chunk);
      ok, got := outcome.ok, outcome.moved;
      for i := 0 to got
        invariant calls == old(calls)
        invariant buffer[..off] == old(buffer[..off])
        invariant buffer[off..off + i] == contents[off..off + i]
      {
        buffer[off + i] := contents[off + i];
      }
      calls := calls + 1;
    }

    /**
    `writeAllBytes`: whatever the split into partial writes, success means the file holds exactly the
    data, and a failure leaves a part of it from the start.
    */
    method WriteAllBytes(data: seq<byte>, opens: bool) returns (r: bool)
      requires Valid()
      modifies this
      ensures Valid()
      ensures r <==> opens && Completes(sys, old(calls), |data|)
      ensures r ==> contents == data
      ensures !opens ==> contents == old(contents)
      ensures opens ==> contents <= data
    {
      if !opens {
        return false;
      }
      contents := [];
      var ok := true;
      var off := 0;
      while ok && off < |data|
        invariant Valid() && 0 <= off <= |data|
        invariant contents <= data && (ok ==> contents == data[..off])
        invariant Completes(sys, old(calls), |data|) <==> ok && Completes(sys, calls, |data| - off)
        decreases ok, |data| - off
      {
        var chunk := Chunk(|data| - off);
        var done, wrote := WriteFile(data[off..off + chunk]);
        assert contents == data[..off + wrote];
        if !done || wrote == 0 {
          ok := false;
        } else {
          off := off + wrote;
        }
      }
      r := ok && off == |data|;
    }

    /** `readAllBytes`: success means the buffer holds the whole file, however the reads are split. */
    method ReadAllBytes(opens: bool, sized: bool, hasMemory: bool) returns (r: Option<(array<byte>, nat)>)
      requires Valid()
      modifies this`calls
      ensures Valid()
      ensures r.Some? <==> opens && sized && hasMemory && Completes(sys, old(calls), |contents|)
      ensures r.Some? ==> fresh(r.value.0) && 0 < r.value.0.Length && r.value.1 == |contents| <= r.value.0.Length
      ensures r.Some? ==> r.value.0[..r.value.1] == contents
    {
      if !opens || !sized {
        return None;
      }
      var len := |contents|;
      if !hasMemory {
        return None;
      }
      var buf := new byte[if len > 0 then len else 1];
      var off := 0;
      var ok := true;
      while ok && off < len
        invariant Valid() && 0 <= off <= len == |contents| && fresh(buf) && len <= buf.Length
        invariant buf[..off] == contents[..off]
        invariant Completes(sys, old(calls), len) <==> ok && Completes(sys, calls, len - off)
        decreases ok, len - off
      {
        var chunk := Chunk(len - off);
        var done, got := ReadFile(buf, off, chunk);
        assert buf[..off + got] == buf[..off] + buf[off..off + got];
        if !done || got == 0 {
          ok := false;
        } else {
          off := off + got;
        }
      }
      if !ok || off != len {
        return None;
      }
      r := Some((buf, len));
    }
  }

  /** Every call reports success and moves at least one byte of a chunk that is not empty. */
  ghost predicate MakesProgress(sys: System) {
    forall n: nat, chunk: nat :: 0 < chunk ==> sys(n, chunk).ok && sys(n, chunk).moved > 0
  }

  /** Any split into partial transfers completes, as long as no call fails or stalls. */
  lemma {:induction false} ProgressCompletes(sys: System, n: nat, left: nat)
    requires IsSystem(sys) && MakesProgress(sys)
    ensures Completes(sys, n, left)
    decreases left
  {
    if left > 0 {
      var outcome := sys(n, Chunk(left));
      assert outcome.ok && 0 < outcome.moved <= Chunk(left);
      ProgressCompletes(sys, n + 1, left - outcome.moved);
    }
  }

  /** What was written is read back, however both transfers are split. */
  method WriteThenRead(file: File, data: seq<byte>) returns (back: seq<byte>)
    requires file.Valid() && MakesProgress(file.sys)
    modifies file
    ensures back == data == file.contents
  {
    ProgressCompletes(file.sys, file.calls, |data|);
    var written := file.WriteAllBytes(data, true);
    ProgressCompletes(file.sys, file.calls, |data|);
    var r := file.ReadAllBytes(true, true, true);
    back := r.value.0[..r.value.1];
  }
}
