/** The flash operations the receiver is configured with, on a memory updated in place: the guarded
    device functions of flash/flash_bench.c and ota/main_ota_bench.c, and the host mock's. */
module FlashDevice {
  import opened Bytes
  import opened FlashMemory
  import Crc32

  predicate Guarded(offset: nat, count: nat) { StagingRange(offset, count) && PageAligned(offset, count) }

  /** The guard of a range is the guard of its pieces. */
  lemma GuardSplit(offset: nat, done: nat, piece: nat, count: nat)
    requires 0 < piece && done + piece <= count && done % SECTOR == 0 && (piece == SECTOR || done + piece == count)
    requires done > 0 ==> Guarded(offset, done)
    ensures Guarded(offset + done, piece) ==> Guarded(offset, done + piece)
    ensures Guarded(offset, count) ==> Guarded(offset + done, piece)
  {
    assert done % PAGE == 0 && (offset + done) % PAGE == offset % PAGE;
    assert piece == SECTOR ==> piece % PAGE == 0;
    assert (done + piece) % PAGE == piece % PAGE;
  }

  lemma ProgramJoins(m: seq<byte>, offset: nat, a: seq<byte>, b: seq<byte>)
    requires offset + |a| + |b| <= |m|
    ensures FlashMemory.Program(FlashMemory.Program(m, offset, a), offset + |a|, b)
            == FlashMemory.Program(m, offset, a + b)
  {
    hide Clears;
  }

  lemma ProgramNothing(m: seq<byte>, offset: nat)
    requires offset <= |m|
    ensures FlashMemory.Program(m, offset, []) == m
  {
  }

  class Flash {
    const port: Port
    const mem: array<byte>

    constructor (port: Port, size: nat)
      ensures this.port == port && this.mem.Length == size && fresh(this.mem)
    {
      this.port := port;
      this.mem := new byte[size];
    }

    /** flash_range_erase: every bit of the range is set. */
    method EraseRange(offset: nat, count: nat)
      requires offset + count <= mem.Length
      modifies mem
      ensures mem[..] == FlashMemory.Erase(old(mem[..]), offset, count)
    {
      for i := 0 to count
        invariant forall k :: 0 <= k < mem.Length ==>
                    mem[k] == if offset <= k < offset + i then 0xFF else old(mem[k])
      {
        mem[offset + i] := 0xFF;
      }
    }

    /** flash_range_program: a byte can only lose bits. */
    method ProgramRange(offset: nat, data: array<byte>, start: nat, count: nat)
      requires offset + count <= mem.Length && start + count <= data.Length && data != mem
      modifies mem
      ensures mem[..] == FlashMemory.Program(old(mem[..]), offset, data[start..start + count])
    {
      hide Clears;
      for i := 0 to count
        invariant forall k :: 0 <= k < mem.Length ==>
                    mem[k] == if offset <= k < offset + i then Clears(old(mem[k]), data[start + (k - offset)])
                      else old(mem[k])
      {
        mem[offset + i] := Clears(mem[offset + i], data[start + i]);
      }
    }

    /** Erase through the configured port: the host checks its array, the device its guard. */
    method Erase(offset: nat, count: nat) returns (ok: bool)
      modifies mem
      ensures ok == EraseAccepted(port, mem.Length, offset, count)
      ensures mem[..] == if ok then FlashMemory.Erase(old(mem[..]), offset, count) else old(mem[..])
    {
      ok := offset + count <= mem.Length;
      if port == Device && (!StagingRange(offset, count) || !SectorAligned(offset, count)) {
        ok := false;
      }
      if ok { EraseRange(offset, count); }
    }

    /** One guarded program operation of the device. */
    method ProgramGuarded(offset: nat, data: array<byte>, start: nat, count: nat) returns (ok: bool)
      requires start + count <= data.Length && data != mem
      modifies mem
      ensures ok == (offset + count <= mem.Length && Guarded(offset, count))
      ensures ok ==> mem[..] == FlashMemory.Program(old(mem[..]), offset, data[start..start + count])
      ensures !ok ==> mem[..] == old(mem[..])
    {
      ok := offset + count <= mem.Length && StagingRange(offset, count) && PageAligned(offset, count);
      if ok { ProgramRange(offset, data, start, count); }
    }

    /** The device programs in pieces of a sector, each guarded on its own; together they accept
        exactly what one guard over the whole range would, and write the same bytes. */
    method ProgramPieces(offset: nat, data: array<byte>, count: nat) returns (ok: bool, ghost written: nat)
      requires count <= data.Length && data != mem && offset + count <= mem.Length
      modifies mem
      ensures ok == (count == 0 || Guarded(offset, count))
      ensures written <= count && (ok ==> written == count)
      ensures mem[..] == FlashMemory.Program(old(mem[..]), offset, data[..written])
    {
      hide Clears, Guarded, FlashMemory.Program;
      var done := 0;
      ProgramNothing(mem[..], offset);
      while done < count
        invariant 0 <= done <= count && (done < count ==> done % SECTOR == 0)
        invariant done > 0 ==> Guarded(offset, done)
        invariant mem[..] == FlashMemory.Program(old(mem[..]), offset, data[..done])
      {
        var piece := count - done;
        if piece > SECTOR { piece := SECTOR; }
        GuardSplit(offset, done, piece, count);
        ok := ProgramGuarded(offset + done, data, done, piece);
        if !ok { return false, done; }
        assert data[..done + piece] == data[..done] + data[done..done + piece];
        ProgramJoins(old(mem[..]), offset, data[..done], data[done..done + piece]);
        done := done + piece;
      }
      return true, done;
    }

    /** Program through the configured port. */
    method Program(offset: nat, data: array<byte>, count: nat) returns (ok: bool)
      requires count <= data.Length && data != mem && offset + count <= mem.Length
      modifies mem
      ensures ok == ProgramAccepted(port, mem.Length, offset, count)
      ensures ok ==> mem[..] == FlashMemory.Program(old(mem[..]), offset, data[..count])
      ensures forall k :: 0 <= k < mem.Length && !(offset <= k < offset + count) ==> mem[k] == old(mem[k])
    {
      ghost var written := count;
      if port == Host {
        ok := true;
        ProgramRange(offset, data, 0, count);
      } else {
        ok, written := ProgramPieces(offset, data, count);
      }
      assert forall k :: 0 <= k < mem.Length ==>
        mem[..][k] == FlashMemory.Program(old(mem[..]), offset, data[..written])[k];
    }

    /** The CRC of a range of flash; 0 outside the memory, as the host mock returns. */
    method Crc(offset: nat, count: nat) returns (crc: bv32)
      ensures crc == if offset + count <= mem.Length then Crc32.Of(mem[offset..offset + count]) else 0
    {
      if offset + count > mem.Length { return 0; }
      crc := Crc32.OneShot(mem[offset..offset + count]);
    }

    /** What a failing operation leaves behind is up to the hardware. */
    method Disturb(offset: nat, residue: seq<byte>)
      modifies mem
      ensures mem[..] == if |residue| == BLOCK && offset + BLOCK <= mem.Length
                         then Paste(old(mem[..]), offset, residue) else old(mem[..])
    {
      if |residue| == BLOCK && offset + BLOCK <= mem.Length {
        for i := 0 to BLOCK
          invariant forall k :: 0 <= k < mem.Length ==>
                      mem[k] == if offset <= k < offset + i then residue[k - offset] else old(mem[k])
        {
          mem[offset + i] := residue[i];
        }
      }
    }

    /** An erase that the hardware may fail. */
    method TryErase(offset: nat, count: nat, fails: bool, residue: seq<byte>) returns (ok: bool)
      modifies mem
      ensures ok == (!fails && EraseAccepted(port, mem.Length, offset, count))
      ensures ok ==> mem[..] == FlashMemory.Erase(old(mem[..]), offset, count)
      ensures !ok ==> mem[..] == if fails && |residue| == BLOCK && offset + BLOCK <= mem.Length
                                 then Paste(old(mem[..]), offset, residue) else old(mem[..])
    {
      if fails {
        ok := false;
        Disturb(offset, residue);
      } else {
        ok := Erase(offset, count);
      }
    }

    /** A program operation that the hardware may fail; at worst it spoils its block. */
    method TryProgram(offset: nat, data: array<byte>, count: nat, fails: bool, residue: seq<byte>) returns (ok: bool)
      requires count <= data.Length && data != mem && count <= BLOCK && offset + BLOCK <= mem.Length
      modifies mem
      ensures ok == (!fails && ProgramAccepted(port, mem.Length, offset, count))
      ensures ok ==> mem[..] == FlashMemory.Program(old(mem[..]), offset, data[..count])
      ensures forall k :: 0 <= k < mem.Length && !(offset <= k < offset + BLOCK) ==> mem[k] == old(mem[k])
    {
      if fails {
        ok := false;
        ghost var was := mem[..];
        Disturb(offset, residue);
        assert forall k :: 0 <= k < mem.Length && !(offset <= k < offset + BLOCK) ==> mem[..][k] == was[k];
      } else {
        ok := Program(offset, data, count);
      }
    }
  }
}
