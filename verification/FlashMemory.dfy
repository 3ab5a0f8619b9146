/** NOR flash, the staging guard of flash/flash_map.h, and the two sets of flash operations the
    receiver is run with: the host mock and the guarded device functions. */
module FlashMemory {
  import opened Bytes
  import Crc32

  const PAGE: nat := 256
  const SECTOR: nat := 4096
  const BLOCK: nat := 65536
  const STAGING_OFFSET: nat := 0x0010_0000
  const STAGING_BYTES: nat := 0x002F_D000
  const STAGING_END: nat := 0x003F_D000
  const FLASH_BYTES: nat := 0x0040_0000

  predicate StagingRange(offset: nat, count: nat) {
    count != 0 && STAGING_OFFSET <= offset && offset + count <= STAGING_END
  }

  predicate StagingByte(k: nat) { 0x0010_0000 <= k < 0x003F_D000 }

  /** Every byte of a staging range lies in the staging area, and it has some. */
  lemma StagingRangeMeans(offset: nat, count: nat)
    ensures StagingRange(offset, count) <==>
              count > 0 && forall k: nat :: offset <= k < offset + count ==> StagingByte(k)
  {
    if count > 0 { assert StagingByte(offset) && StagingByte(offset + count - 1) ==> StagingRange(offset, count); }
  }

  predicate SectorAligned(offset: nat, count: nat) { offset % SECTOR == 0 && count % SECTOR == 0 }

  predicate PageAligned(offset: nat, count: nat) { offset % PAGE == 0 && count % PAGE == 0 }

  /** Erasing sets every bit of the range. */
  function Erase(mem: seq<byte>, offset: nat, count: nat): (r: seq<byte>)
    requires offset + count <= |mem|
    ensures |r| == |mem|
  {
    Paste(mem, offset, Rep(0xFF as byte, count))
  }

  /** A programmed byte keeps only the bits that were still set. */
  function Clears(was: byte, b: byte): byte { was & b }

  /** Programming can only clear bits. */
  function Program(mem: seq<byte>, offset: nat, data: seq<byte>): (r: seq<byte>)
    requires offset + |data| <= |mem|
    ensures |r| == |mem|
    ensures forall i :: 0 <= i < |mem| ==>
              r[i] == if offset <= i < offset + |data| then Clears(mem[i], data[i - offset]) else mem[i]
  {
    seq(|mem|, i requires 0 <= i < |mem| =>
      if offset <= i < offset + |data| then Clears(mem[i], data[i - offset]) else mem[i])
  }

  /** Bytes programmed onto erased flash read back as written. */
  lemma ProgramErased(mem: seq<byte>, offset: nat, count: nat, data: seq<byte>)
    requires offset + count <= |mem| && |data| <= count
    ensures Program(Erase(mem, offset, count), offset, data)[offset..offset + |data|] == data
    ensures forall i :: 0 <= i < |mem| && !(offset <= i < offset + count) ==>
              Program(Erase(mem, offset, count), offset, data)[i] == mem[i]
  {
    forall i | 0 <= i < |data| ensures Clears(0xFF, data[i]) == data[i] {}
  }

  /** The flash CRC function: 0 outside the memory, as the host mock returns. */
  function FlashCrc(mem: seq<byte>, offset: nat, count: nat): bv32 {
    if offset + count <= |mem| then Crc32.Of(mem[offset..offset + count]) else 0
  }

  /** Which flash functions the receiver was configured with. */
  datatype Port = Host | Device

  predicate EraseAccepted(port: Port, size: nat, offset: nat, count: nat) {
    && offset + count <= size
    && (port == Device ==> StagingRange(offset, count) && SectorAligned(offset, count))
  }

  predicate ProgramAccepted(port: Port, size: nat, offset: nat, count: nat) {
    && offset + count <= size
    && (port == Device ==> count == 0 || (StagingRange(offset, count) && PageAligned(offset, count)))
  }
}
