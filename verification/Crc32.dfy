/** CRC-32 of ota/ota_protocol.c: a sixteen-entry nibble table against bitwise reflected division. */
module Crc32 {
  import opened Bytes

  const INIT: bv32 := 0xFFFF_FFFF

  const NIBBLE: seq<bv32> := [
    0x0000_0000, 0x1DB7_1064, 0x3B6E_20C8, 0x26D9_30AC, 0x76DC_4190, 0x6B6B_51F4, 0x4DB2_6158, 0x5005_713C,
    0xEDB8_8320, 0xF00F_9344, 0xD6D6_A3E8, 0xCB61_B38C, 0x9B64_C2B0, 0x86D3_D2D4, 0xA00A_E278, 0xBDBD_F21C]

  function Xor(a: bv32, b: bv32): bv32 { a ^ b }

  function Shr(c: bv32): bv32 { c >> 1 }

  predicate Odd(c: bv32) { c & 1 != 0 }

  /** One step of reflected division by the IEEE 802.3 generator polynomial. */
  function BitStep(crc: bv32): bv32 {
    if Odd(crc) then Xor(Shr(crc), 0xEDB8_8320) else Shr(crc)
  }

  function FourBits(crc: bv32): bv32 { BitStep(BitStep(BitStep(BitStep(crc)))) }

  function ByteStep(crc: bv32, b: byte): bv32 { FourBits(FourBits(crc ^ (b as bv32))) }

  /** The register after the bytes of data: division bit by bit, no table. */
  function Update(crc: bv32, data: seq<byte>): bv32 {
    if data == [] then crc else ByteStep(Update(crc, data[..|data| - 1]), data[|data| - 1])
  }

  function Finish(crc: bv32): bv32 { crc ^ 0xFFFF_FFFF }

  function Of(data: seq<byte>): bv32 { Finish(Update(INIT, data)) }

  lemma RawApart(a: bv32, b: bv32, c: bv32)
    ensures (a ^ b) >> 1 == (a >> 1) ^ (b >> 1)
    ensures (a ^ b) ^ c == a ^ (b ^ c)
  {
  }

  lemma RawOdd(a: bv32, b: bv32)
    ensures a & 1 == 0 ==> (a ^ b) & 1 == b & 1
  {
  }

  /** Division steps are linear: the bits that drive them can be taken apart from the rest. */
  lemma BitStepApart(high: bv32, low: bv32)
    requires !Odd(high)
    ensures BitStep(Xor(high, low)) == Xor(Shr(high), BitStep(low))
  {
    hide Xor, Shr, Odd;
    OddApart(high, low);
    XorApart(high, low);
  }

  lemma OddApart(high: bv32, low: bv32)
    requires !Odd(high)
    ensures Odd(Xor(high, low)) == Odd(low)
  {
    RawOdd(high, low);
  }

  lemma XorApart(a: bv32, b: bv32)
    ensures Shr(Xor(a, b)) == Xor(Shr(a), Shr(b))
    ensures Xor(Xor(Shr(a), Shr(b)), 0xEDB8_8320) == Xor(Shr(a), Xor(Shr(b), 0xEDB8_8320))
  {
    RawApart(a, b, 0);
    RawApart(a >> 1, b >> 1, 0xEDB8_8320);
  }

  lemma FourBitsApart(high: bv32, low: bv32)
    requires !Odd(high) && !Odd(Shr(high)) && !Odd(Shr(Shr(high))) && !Odd(Shr(Shr(Shr(high))))
    ensures FourBits(Xor(high, low)) == Xor(Shr(Shr(Shr(Shr(high)))), FourBits(low))
  {
    hide BitStep, Xor, Shr, Odd;
    BitStepApart(high, low);
    BitStepApart(Shr(high), BitStep(low));
    BitStepApart(Shr(Shr(high)), BitStep(BitStep(low)));
    BitStepApart(Shr(Shr(Shr(high))), BitStep(BitStep(BitStep(low))));
  }

  /** A table entry is what four division steps make of its index. */
  lemma EntryDivides(d: bv32)
    requires d < 16
    ensures (d as nat) < |NIBBLE| && NIBBLE[d as nat] == FourBits(d)
  {
    hide FourBits;
    if d < 4 { Entries0(); assert d == 0 || d == 1 || d == 2 || d == 3; }
    else if d < 8 { Entries4(); assert d == 4 || d == 5 || d == 6 || d == 7; }
    else if d < 12 { Entries8(); assert d == 8 || d == 9 || d == 10 || d == 11; }
    else { Entries12(); assert d == 12 || d == 13 || d == 14 || d == 15; }
  }

  lemma Entries0()
    ensures NIBBLE[0] == FourBits(0) && NIBBLE[1] == FourBits(1) && NIBBLE[2] == FourBits(2) && NIBBLE[3] == FourBits(3)
  {
  }

  lemma Entries4()
    ensures NIBBLE[4] == FourBits(4) && NIBBLE[5] == FourBits(5) && NIBBLE[6] == FourBits(6) && NIBBLE[7] == FourBits(7)
  {
  }

  lemma Entries8()
    ensures NIBBLE[8] == FourBits(8) && NIBBLE[9] == FourBits(9) && NIBBLE[10] == FourBits(10)
            && NIBBLE[11] == FourBits(11)
  {
  }

  lemma Entries12()
    ensures NIBBLE[12] == FourBits(12) && NIBBLE[13] == FourBits(13) && NIBBLE[14] == FourBits(14)
            && NIBBLE[15] == FourBits(15)
  {
  }

  function HighPart(crc: bv32): bv32 { crc & 0xFFFF_FFF0 }

  function Nibble(crc: bv32): bv32 { crc & 0xF }

  lemma NibbleApart(crc: bv32)
    ensures Xor(HighPart(crc), Nibble(crc)) == crc && Nibble(crc) < 16
  {
  }

  lemma HighShifts(crc: bv32)
    ensures var h := HighPart(crc); !Odd(h) && !Odd(Shr(h)) && !Odd(Shr(Shr(h))) && !Odd(Shr(Shr(Shr(h))))
  {
    RawShifts(crc);
  }

  lemma RawShifts(crc: bv32)
    ensures var h := crc & 0xFFFF_FFF0;
            h & 1 == 0 && (h >> 1) & 1 == 0 && ((h >> 1) >> 1) & 1 == 0 && (((h >> 1) >> 1) >> 1) & 1 == 0
  {
  }

  lemma HighGone(crc: bv32)
    ensures Shr(Shr(Shr(Shr(HighPart(crc))))) == crc >> 4
  {
    RawGone(crc);
  }

  lemma RawGone(crc: bv32)
    ensures ((((crc & 0xFFFF_FFF0) >> 1) >> 1) >> 1) >> 1 == crc >> 4
  {
  }

  /** The low nibble meets the table, the rest just moves down. */
  lemma NibbleStep(crc: bv32)
    ensures (Nibble(crc) as nat) < |NIBBLE|
    ensures Xor(crc >> 4, NIBBLE[Nibble(crc) as nat]) == FourBits(crc)
  {
    hide FourBits, Xor, Shr, Odd, HighPart, Nibble;
    NibbleApart(crc);
    HighShifts(crc);
    HighGone(crc);
    FourBitsApart(HighPart(crc), Nibble(crc));
    EntryDivides(Nibble(crc));
  }

  method NibbleLookup(crc: bv32) returns (r: bv32)
    ensures r == FourBits(crc)
  {
    hide FourBits;
    NibbleStep(crc);
    r := Xor(crc >> 4, NIBBLE[Nibble(crc) as nat]);
  }

  /** The body of the source's loop: one byte, two table lookups. */
  method TableByte(init: bv32, b: byte) returns (crc: bv32)
    ensures crc == ByteStep(init, b)
  {
    crc := init ^ (b as bv32);
    crc := NibbleLookup(crc);
    crc := NibbleLookup(crc);
  }

  /** ota_crc32_update: the table-driven loop computes the bitwise register. */
  method TableUpdate(init: bv32, data: seq<byte>) returns (crc: bv32)
    ensures crc == Update(init, data)
  {
    crc := init;
    var i := 0;
    while i < |data|
      invariant 0 <= i <= |data|
      invariant crc == Update(init, data[..i])
    {
      assert data[..i + 1][..i] == data[..i];
      crc := TableByte(crc, data[i]);
      i := i + 1;
    }
    assert data[..i] == data;
  }

  /** ota_crc32. */
  method OneShot(data: seq<byte>) returns (crc: bv32)
    ensures crc == Of(data)
  {
    crc := TableUpdate(INIT, data);
    crc := Finish(crc);
  }

  /** The register composes over concatenation, so a chunked computation equals the one-shot one. */
  lemma {:induction false} UpdateConcat(crc: bv32, a: seq<byte>, b: seq<byte>)
    ensures Update(crc, a + b) == Update(Update(crc, a), b)
    decreases |b|
  {
    if b == [] {
      assert a + b == a;
    } else {
      var n := |b| - 1;
      assert (a + b)[..|a + b| - 1] == a + b[..n];
      UpdateConcat(crc, a, b[..n]);
    }
  }
}
