/** The two bit-level primitives of common/packet.c: the masked 32-bit search for the sync word and
    the shifted byte extraction, against reading the bits one by one. */
module BitSearch {
  import opened Bytes

  /** 0x93C7, most significant bit first. */
  const SYNC: seq<bool> := [
    true, false, false, true, false, false, true, true, true, true, false, false, false, true, true, true]

  /** The sync word for each bit phase, and the mask of the bits it occupies. */
  const PATTERN: seq<bv32> := [0x93C7_0000, 0x49E3_8000, 0x24F1_C000, 0x1278_E000, 0x093C_7000, 0x049E_3800,
    0x024F_1C00, 0x0127_8E00]
  const MASK: seq<bv32> := [0xFFFF_0000, 0x7FFF_8000, 0x3FFF_C000, 0x1FFF_E000, 0x0FFF_F000, 0x07FF_F800, 0x03FF_FC00,
    0x01FF_FE00]

  predicate SyncAt(bits: seq<bool>, s: nat) { s + 16 <= |bits| && bits[s..s + 16] == SYNC }

  /** Bit by bit: the first position from `from` on, up to and including `last`, where the sync word starts. */
  function FirstSync(bits: seq<bool>, from: nat, last: int): (r: int)
    decreases last - from
  {
    if from > last then -1 else if SyncAt(bits, from) then from else FirstSync(bits, from + 1, last)
  }

  ghost predicate NoSync(bits: seq<bool>, from: nat, end: int) { forall s: nat :: from <= s < end ==> !SyncAt(bits, s) }

  lemma {:induction false} FirstSyncIs(bits: seq<bool>, from: nat, last: int)
    ensures var r := FirstSync(bits, from, last);
            if r < 0 then r == -1 && NoSync(bits, from, last + 1)
            else from <= r <= last && SyncAt(bits, r) && NoSync(bits, from, r)
    decreases last - from
  {
    if from <= last && !SyncAt(bits, from) { FirstSyncIs(bits, from + 1, last); }
  }

  // ---- the masked search --------------------------------------------------------------------------

  function Word32(b0: byte, b1: byte, b2: byte, b3: byte): bv32 {
    ((b0 as bv32) << 24) | ((b1 as bv32) << 16) | ((b2 as bv32) << 8) | (b3 as bv32)
  }

  predicate Matches(word: bv32, phase: nat)
    requires phase < 8
  {
    word & MASK[phase] == PATTERN[phase]
  }

  // One masked comparison looks at exactly the sixteen bits from its phase on.

  lemma Phase0(b0: byte, b1: byte, b2: byte, b3: byte)
    ensures Matches(Word32(b0, b1, b2, b3), 0) <==>
              && BitOf(b0, 0) && !BitOf(b0, 1) && !BitOf(b0, 2) && BitOf(b0, 3)
              && !BitOf(b0, 4) && !BitOf(b0, 5) && BitOf(b0, 6) && BitOf(b0, 7)
              && BitOf(b1, 0) && BitOf(b1, 1) && !BitOf(b1, 2) && !BitOf(b1, 3)
              && !BitOf(b1, 4) && BitOf(b1, 5) && BitOf(b1, 6) && BitOf(b1, 7)
  {
  }

  lemma Phase1(b0: byte, b1: byte, b2: byte, b3: byte)
    ensures Matches(Word32(b0, b1, b2, b3), 1) <==>
              && BitOf(b0, 1) && !BitOf(b0, 2) && !BitOf(b0, 3) && BitOf(b0, 4)
              && !BitOf(b0, 5) && !BitOf(b0, 6) && BitOf(b0, 7) && BitOf(b1, 0)
              && BitOf(b1, 1) && BitOf(b1, 2) && !BitOf(b1, 3) && !BitOf(b1, 4)
              && !BitOf(b1, 5) && BitOf(b1, 6) && BitOf(b1, 7) && BitOf(b2, 0)
  {
  }

  lemma Phase2(b0: byte, b1: byte, b2: byte, b3: byte)
    ensures Matches(Word32(b0, b1, b2, b3), 2) <==>
              && BitOf(b0, 2) && !BitOf(b0, 3) && !BitOf(b0, 4) && BitOf(b0, 5)
              && !BitOf(b0, 6) && !BitOf(b0, 7) && BitOf(b1, 0) && BitOf(b1, 1)
              && BitOf(b1, 2) && BitOf(b1, 3) && !BitOf(b1, 4) && !BitOf(b1, 5)
              && !BitOf(b1, 6) && BitOf(b1, 7) && BitOf(b2, 0) && BitOf(b2, 1)
  {
  }

  lemma Phase3(b0: byte, b1: byte, b2: byte, b3: byte)
    ensures Matches(Word32(b0, b1, b2, b3), 3) <==>
              && BitOf(b0, 3) && !BitOf(b0, 4) && !BitOf(b0, 5) && BitOf(b0, 6)
              && !BitOf(b0, 7) && !BitOf(b1, 0) && BitOf(b1, 1) && BitOf(b1, 2)
              && BitOf(b1, 3) && BitOf(b1, 4) && !BitOf(b1, 5) && !BitOf(b1, 6)
              && !BitOf(b1, 7) && BitOf(b2, 0) && BitOf(b2, 1) && BitOf(b2, 2)
  {
  }

  lemma Phase4(b0: byte, b1: byte, b2: byte, b3: byte)
    ensures Matches(Word32(b0, b1, b2, b3), 4) <==>
              && BitOf(b0, 4) && !BitOf(b0, 5) && !BitOf(b0, 6) && BitOf(b0, 7)
              && !BitOf(b1, 0) && !BitOf(b1, 1) && BitOf(b1, 2) && BitOf(b1, 3)
              && BitOf(b1, 4) && BitOf(b1, 5) && !BitOf(b1, 6) && !BitOf(b1, 7)
              && !BitOf(b2, 0) && BitOf(b2, 1) && BitOf(b2, 2) && BitOf(b2, 3)
  {
  }

  lemma Phase5(b0: byte, b1: byte, b2: byte, b3: byte)
    ensures Matches(Word32(b0, b1, b2, b3), 5) <==>
              && BitOf(b0, 5) && !BitOf(b0, 6) && !BitOf(b0, 7) && BitOf(b1, 0)
              && !BitOf(b1, 1) && !BitOf(b1, 2) && BitOf(b1, 3) && BitOf(b1, 4)
              && BitOf(b1, 5) && BitOf(b1, 6) && !BitOf(b1, 7) && !BitOf(b2, 0)
              && !BitOf(b2, 1) && BitOf(b2, 2) && BitOf(b2, 3) && BitOf(b2, 4)
  {
  }

  lemma Phase6(b0: byte, b1: byte, b2: byte, b3: byte)
    ensures Matches(Word32(b0, b1, b2, b3), 6) <==>
              && BitOf(b0, 6) && !BitOf(b0, 7) && !BitOf(b1, 0) && BitOf(b1, 1)
              && !BitOf(b1, 2) && !BitOf(b1, 3) && BitOf(b1, 4) && BitOf(b1, 5)
              && BitOf(b1, 6) && BitOf(b1, 7) && !BitOf(b2, 0) && !BitOf(b2, 1)
              && !BitOf(b2, 2) && BitOf(b2, 3) && BitOf(b2, 4) && BitOf(b2, 5)
  {
  }

  lemma Phase7(b0: byte, b1: byte, b2: byte, b3: byte)
    ensures Matches(Word32(b0, b1, b2, b3), 7) <==>
              && BitOf(b0, 7) && !BitOf(b1, 0) && !BitOf(b1, 1) && BitOf(b1, 2)
              && !BitOf(b1, 3) && !BitOf(b1, 4) && BitOf(b1, 5) && BitOf(b1, 6)
              && BitOf(b1, 7) && BitOf(b2, 0) && !BitOf(b2, 1) && !BitOf(b2, 2)
              && !BitOf(b2, 3) && BitOf(b2, 4) && BitOf(b2, 5) && BitOf(b2, 6)
  {
  }

  function BitAt(b0: byte, b1: byte, b2: byte, i: nat): bool
    requires i < 24
  {
    if i < 8 then BitOf(b0, i) else if i < 16 then BitOf(b1, i - 8) else BitOf(b2, i - 16)
  }

  lemma MaskedCompare(b0: byte, b1: byte, b2: byte, b3: byte, phase: nat, w: seq<bool>)
    requires phase < 8 && |w| == 16 && forall j: nat :: j < 16 ==> w[j] == BitAt(b0, b1, b2, phase + j)
    ensures Matches(Word32(b0, b1, b2, b3), phase) <==> w == SYNC
  {
    hide BitOf, Matches, Word32;
    Sixteen(w, SYNC);
    if phase == 0 { Phase0(b0, b1, b2, b3); } else if phase == 1 { Phase1(b0, b1, b2, b3); }
    else if phase == 2 { Phase2(b0, b1, b2, b3); } else if phase == 3 { Phase3(b0, b1, b2, b3); }
    else if phase == 4 { Phase4(b0, b1, b2, b3); } else if phase == 5 { Phase5(b0, b1, b2, b3); }
    else if phase == 6 { Phase6(b0, b1, b2, b3); } else { Phase7(b0, b1, b2, b3); }
  }

  /** The byte at an index, or the zero padding past the end of the buffer. */
  function Padded(buf: seq<byte>, i: nat): byte { if i < |buf| then buf[i] else 0 }

  /** A masked comparison on the padded word decides whether the sync word starts there, as long as
      its sixteen bits lie inside the buffer: the padding never takes part. */
  lemma WordMatch(buf: seq<byte>, index: nat, phase: nat)
    requires phase < 8 && 8 * index + phase + 16 <= 8 * |buf|
    ensures Matches(Word32(Padded(buf, index), Padded(buf, index + 1), Padded(buf, index + 2),
            Padded(buf, index + 3)), phase)
            <==> SyncAt(Bits(buf), 8 * index + phase)
  {
    hide Matches, Word32, BitOf, ByteBits, Bits;
    var b0, b1, b2, b3 := Padded(buf, index), Padded(buf, index + 1), Padded(buf, index + 2), Padded(buf, index + 3);
    var s := 8 * index + phase;
    var w := Bits(buf)[s..s + 16];
    forall j: nat | j < 16 ensures w[j] == BitAt(b0, b1, b2, phase + j) {
      var i := phase + j;
      assert w[j] == Bits(buf)[8 * index + i];
      if i < 8 { BitInByte(buf, index, i); BitOfByte(b0, i); }
      else if i < 16 { BitInByte(buf, index + 1, i - 8); BitOfByte(b1, i - 8); }
      else { BitInByte(buf, index + 2, i - 16); BitOfByte(b2, i - 16); }
    }
    MaskedCompare(b0, b1, b2, b3, phase, w);
  }

  lemma Sixteen(a: seq<bool>, b: seq<bool>)
    requires |a| == |b| == 16
    ensures a == b <==>
              && a[0] == b[0] && a[1] == b[1] && a[2] == b[2] && a[3] == b[3] && a[4] == b[4] && a[5] == b[5]
              && a[6] == b[6] && a[7] == b[7] && a[8] == b[8] && a[9] == b[9] && a[10] == b[10] && a[11] == b[11]
              && a[12] == b[12] && a[13] == b[13] && a[14] == b[14] && a[15] == b[15]
  {
  }

  /** The outcome of bmc_find_sync_in_bits. */
  datatype Found = SyncEnd(bit: nat) | NotFound | InvalidArgument

  /** Search the sync words that end in [start, end): what a bit-by-bit scan would find. */
  ghost function Search(buf: seq<byte>, start: nat, end: nat): Found {
    if start >= end || end > 8 * |buf| then InvalidArgument
    else
      var r := FirstSync(Bits(buf), if start >= 15 then start - 15 else 0, end - 16);
      if r < 0 then NotFound else SyncEnd(r + 15)
  }

  /** bmc_find_sync_in_bits. */
  method FindSync(buf: seq<byte>, start: nat, end: nat) returns (r: Found)
    ensures r == Search(buf, start, end)
  {
    hide BitOf, Matches, Word32, Bits, SyncAt, Padded;
    if start >= end || end > 8 * |buf| { return InvalidArgument; }
    if end < 16 { return NotFound; }
    var minS := if start >= 15 then start - 15 else 0;
    var maxS := end - 16;
    if minS > maxS { return NotFound; }
    var index := minS / 8;
    while index <= maxS / 8
      invariant minS / 8 <= index <= maxS / 8 + 1
      invariant FirstSync(Bits(buf), minS, maxS)
                == FirstSync(Bits(buf), if 8 * index > minS then 8 * index else minS, maxS)
    {
      var word := Word32(Padded(buf, index), Padded(buf, index + 1), Padded(buf, index + 2), Padded(buf, index + 3));
      var phase := 0;
      while phase < 8
        invariant 0 <= phase <= 8
        invariant FirstSync(Bits(buf), minS, maxS)
                  == FirstSync(Bits(buf), if 8 * index + phase > minS then 8 * index + phase else minS, maxS)
      {
        var s := 8 * index + phase;
        if s > maxS { break; }
        if s >= minS {
          WordMatch(buf, index, phase);
          if Matches(word, phase) { return SyncEnd(s + 15); }
        }
        phase := phase + 1;
      }
      if 8 * index + phase > maxS { return NotFound; }
      index := index + 1;
    }
    return NotFound;
  }

  // ---- shifted extraction -------------------------------------------------------------------------

  function ShiftByte(a: byte, b: byte, k: nat): byte
    requires 0 < k < 8
  {
    (a << k) | (b >> (8 - k))
  }

  lemma ShiftedBit(a: byte, b: byte, k: nat, j: nat)
    requires 0 < k < 8 && j < 8
    ensures BitOf(ShiftByte(a, b, k), j) == if k + j < 8 then BitOf(a, k + j) else BitOf(b, k + j - 8)
  {
    hide BitOf, ShiftByte;
    if k < 4 { ShiftedLess(a, b, k, j); } else { ShiftedMore(a, b, k, j); }
  }

  lemma ShiftedLess(a: byte, b: byte, k: nat, j: nat)
    requires 0 < k < 4 && j < 8
    ensures BitOf(ShiftByte(a, b, k), j) == if k + j < 8 then BitOf(a, k + j) else BitOf(b, k + j - 8)
  {
    if k == 1 {} else if k == 2 {} else {}
  }

  lemma ShiftedMore(a: byte, b: byte, k: nat, j: nat)
    requires 4 <= k < 8 && j < 8
    ensures BitOf(ShiftByte(a, b, k), j) == if k + j < 8 then BitOf(a, k + j) else BitOf(b, k + j - 8)
  {
    if k == 4 {} else if k == 5 {} else if k == 6 {} else {}
  }

  lemma ShiftedByte(a: byte, b: byte, k: nat, j: nat)
    requires 0 < k < 8 && j < 8
    ensures ByteBits(ShiftByte(a, b, k))[j] == if k + j < 8 then ByteBits(a)[k + j] else ByteBits(b)[k + j - 8]
  {
    hide BitOf, ShiftByte, ByteBits;
    ShiftedBit(a, b, k, j);
    BitOfByte(ShiftByte(a, b, k), j);
    if k + j < 8 { BitOfByte(a, k + j); } else { BitOfByte(b, k + j - 8); }
  }

  datatype ReadBytes = Extracted(bytes: seq<byte>) | BufferTooSmall

  /** bmc_extract_bits_as_bytes: the bytes read out are the bits of the range. */
  method ExtractBytes(buf: seq<byte>, start: nat, n: nat) returns (r: ReadBytes)
    ensures n > 0 && start + 8 * n > 8 * |buf| ==> r == BufferTooSmall
    ensures n == 0 ==> r == Extracted([])
    ensures n > 0 && start + 8 * n <= 8 * |buf| ==>
              r.Extracted? && |r.bytes| == n && Bits(r.bytes) == Bits(buf)[start..start + 8 * n]
  {
    hide BitOf, Bits, ShiftByte;
    if n == 0 { return Extracted([]); }
    if start + 8 * n > 8 * |buf| { return BufferTooSmall; }
    var index, k := start / 8, start % 8;
    if k == 0 {
      SliceBits(buf, index, n);
      return Extracted(buf[index..index + n]);
    }
    var out: seq<byte> := [];
    while |out| < n
      invariant |out| <= n
      invariant Bits(out) == Bits(buf)[start..start + 8 * |out|]
    {
      NextByte(buf, start, out);
      out := out + [ShiftByte(buf[index + |out|], buf[index + |out| + 1], k)];
    }
    return Extracted(out);
  }

  lemma SliceBits(buf: seq<byte>, index: nat, n: nat)
    requires index + n <= |buf|
    ensures Bits(buf[index..index + n]) == Bits(buf)[8 * index..8 * index + 8 * n]
  {
    hide BitOf;
  }

  lemma NextByte(buf: seq<byte>, start: nat, out: seq<byte>)
    requires start % 8 != 0 && start + 8 * |out| + 8 <= 8 * |buf|
    requires Bits(out) == Bits(buf)[start..start + 8 * |out|]
    ensures start / 8 + |out| + 1 < |buf|
    ensures Bits(out + [ShiftByte(buf[start / 8 + |out|], buf[start / 8 + |out| + 1], start % 8)])
            == Bits(buf)[start..start + 8 * (|out| + 1)]
  {
    hide BitOf, Bits, ByteBits, ShiftByte;
    var i, k := start / 8 + |out|, start % 8;
    var b := ShiftByte(buf[i], buf[i + 1], k);
    BitsConcat(out, [b]);
    OneByte(b);
    var r := Bits(buf)[start + 8 * |out|..start + 8 * |out| + 8];
    forall j: nat | j < 8 ensures ByteBits(b)[j] == r[j] {
      ShiftedByte(buf[i], buf[i + 1], k, j);
      assert r[j] == Bits(buf)[8 * i + (k + j)];
      if k + j < 8 { BitInByte(buf, i, k + j); } else { BitInByte(buf, i + 1, k + j - 8); }
    }
    assert ByteBits(b) == r;
  }
}
