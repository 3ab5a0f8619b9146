/** CRC-16-CCITT of common/crc16.c: the 256-entry table against polynomial long division. */
module Crc16 {
  import opened Bytes

  /** The table of the source, eight entries a row as it is laid out there. */
  const TABLE: seq<seq<bv16>> := [
    [0x0000, 0x1021, 0x2042, 0x3063, 0x4084, 0x50A5, 0x60C6, 0x70E7],
    [0x8108, 0x9129, 0xA14A, 0xB16B, 0xC18C, 0xD1AD, 0xE1CE, 0xF1EF],
    [0x1231, 0x0210, 0x3273, 0x2252, 0x52B5, 0x4294, 0x72F7, 0x62D6],
    [0x9339, 0x8318, 0xB37B, 0xA35A, 0xD3BD, 0xC39C, 0xF3FF, 0xE3DE],
    [0x2462, 0x3443, 0x0420, 0x1401, 0x64E6, 0x74C7, 0x44A4, 0x5485],
    [0xA56A, 0xB54B, 0x8528, 0x9509, 0xE5EE, 0xF5CF, 0xC5AC, 0xD58D],
    [0x3653, 0x2672, 0x1611, 0x0630, 0x76D7, 0x66F6, 0x5695, 0x46B4],
    [0xB75B, 0xA77A, 0x9719, 0x8738, 0xF7DF, 0xE7FE, 0xD79D, 0xC7BC],
    [0x48C4, 0x58E5, 0x6886, 0x78A7, 0x0840, 0x1861, 0x2802, 0x3823],
    [0xC9CC, 0xD9ED, 0xE98E, 0xF9AF, 0x8948, 0x9969, 0xA90A, 0xB92B],
    [0x5AF5, 0x4AD4, 0x7AB7, 0x6A96, 0x1A71, 0x0A50, 0x3A33, 0x2A12],
    [0xDBFD, 0xCBDC, 0xFBBF, 0xEB9E, 0x9B79, 0x8B58, 0xBB3B, 0xAB1A],
    [0x6CA6, 0x7C87, 0x4CE4, 0x5CC5, 0x2C22, 0x3C03, 0x0C60, 0x1C41],
    [0xEDAE, 0xFD8F, 0xCDEC, 0xDDCD, 0xAD2A, 0xBD0B, 0x8D68, 0x9D49],
    [0x7E97, 0x6EB6, 0x5ED5, 0x4EF4, 0x3E13, 0x2E32, 0x1E51, 0x0E70],
    [0xFF9F, 0xEFBE, 0xDFDD, 0xCFFC, 0xBF1B, 0xAF3A, 0x9F59, 0x8F78],
    [0x9188, 0x81A9, 0xB1CA, 0xA1EB, 0xD10C, 0xC12D, 0xF14E, 0xE16F],
    [0x1080, 0x00A1, 0x30C2, 0x20E3, 0x5004, 0x4025, 0x7046, 0x6067],
    [0x83B9, 0x9398, 0xA3FB, 0xB3DA, 0xC33D, 0xD31C, 0xE37F, 0xF35E],
    [0x02B1, 0x1290, 0x22F3, 0x32D2, 0x4235, 0x5214, 0x6277, 0x7256],
    [0xB5EA, 0xA5CB, 0x95A8, 0x8589, 0xF56E, 0xE54F, 0xD52C, 0xC50D],
    [0x34E2, 0x24C3, 0x14A0, 0x0481, 0x7466, 0x6447, 0x5424, 0x4405],
    [0xA7DB, 0xB7FA, 0x8799, 0x97B8, 0xE75F, 0xF77E, 0xC71D, 0xD73C],
    [0x26D3, 0x36F2, 0x0691, 0x16B0, 0x6657, 0x7676, 0x4615, 0x5634],
    [0xD94C, 0xC96D, 0xF90E, 0xE92F, 0x99C8, 0x89E9, 0xB98A, 0xA9AB],
    [0x5844, 0x4865, 0x7806, 0x6827, 0x18C0, 0x08E1, 0x3882, 0x28A3],
    [0xCB7D, 0xDB5C, 0xEB3F, 0xFB1E, 0x8BF9, 0x9BD8, 0xABBB, 0xBB9A],
    [0x4A75, 0x5A54, 0x6A37, 0x7A16, 0x0AF1, 0x1AD0, 0x2AB3, 0x3A92],
    [0xFD2E, 0xED0F, 0xDD6C, 0xCD4D, 0xBDAA, 0xAD8B, 0x9DE8, 0x8DC9],
    [0x7C26, 0x6C07, 0x5C64, 0x4C45, 0x3CA2, 0x2C83, 0x1CE0, 0x0CC1],
    [0xEF1F, 0xFF3E, 0xCF5D, 0xDF7C, 0xAF9B, 0xBFBA, 0x8FD9, 0x9FF8],
    [0x6E17, 0x7E36, 0x4E55, 0x5E74, 0x2E93, 0x3EB2, 0x0ED1, 0x1EF0]]

  const INIT: bv16 := 0xFFFF

  function Xor(a: bv16, b: bv16): bv16 { a ^ b }

  function Shl(c: bv16): bv16 { c << 1 }

  predicate Top(c: bv16) { c & 0x8000 != 0 }

  function Low(b: byte): bv16 { b as bv16 }

  function High(b: byte): bv16 { (b as bv16) << 8 }

  /** One step of division by x^16 + x^12 + x^5 + 1. */
  function BitStep(c: bv16): bv16 {
    if Top(c) then Xor(Shl(c), 0x1021) else Shl(c)
  }

  function EightSteps(c: bv16): bv16 {
    BitStep(BitStep(BitStep(BitStep(BitStep(BitStep(BitStep(BitStep(c))))))))
  }

  function ByteStep(c: bv16, b: byte): bv16 { EightSteps(Xor(c, High(b))) }

  function Update(c: bv16, data: seq<byte>): bv16 {
    if data == [] then c else ByteStep(Update(c, data[..|data| - 1]), data[|data| - 1])
  }

  function Of(data: seq<byte>): bv16 { Update(INIT, data) }

  function Lookup(b: byte): bv16
    requires ((b >> 3) as nat) < |TABLE| && ((b & 7) as nat) < |TABLE[(b >> 3) as nat]|
  {
    TABLE[(b >> 3) as nat][(b & 7) as nat]
  }

  lemma LookupPart0(b: byte)
    requires 0x00 <= b <= 0x1F
    ensures ((b >> 3) as nat) < |TABLE| && ((b & 7) as nat) < |TABLE[(b >> 3) as nat]|
    ensures Lookup(b) == EightSteps(High(b))
  {
    var r, d := b >> 3, b & 7;
    assert d == 0 || d == 1 || d == 2 || d == 3 || d == 4 || d == 5 || d == 6 || d == 7;
    assert r == 0 || r == 1 || r == 2 || r == 3;
  }

  lemma LookupPart1(b: byte)
    requires 0x20 <= b <= 0x3F
    ensures ((b >> 3) as nat) < |TABLE| && ((b & 7) as nat) < |TABLE[(b >> 3) as nat]|
    ensures Lookup(b) == EightSteps(High(b))
  {
    var r, d := b >> 3, b & 7;
    assert d == 0 || d == 1 || d == 2 || d == 3 || d == 4 || d == 5 || d == 6 || d == 7;
    assert r == 4 || r == 5 || r == 6 || r == 7;
  }

  lemma LookupPart2(b: byte)
    requires 0x40 <= b <= 0x5F
    ensures ((b >> 3) as nat) < |TABLE| && ((b & 7) as nat) < |TABLE[(b >> 3) as nat]|
    ensures Lookup(b) == EightSteps(High(b))
  {
    var r, d := b >> 3, b & 7;
    assert d == 0 || d == 1 || d == 2 || d == 3 || d == 4 || d == 5 || d == 6 || d == 7;
    assert r == 8 || r == 9 || r == 10 || r == 11;
  }

  lemma LookupPart3(b: byte)
    requires 0x60 <= b <= 0x7F
    ensures ((b >> 3) as nat) < |TABLE| && ((b & 7) as nat) < |TABLE[(b >> 3) as nat]|
    ensures Lookup(b) == EightSteps(High(b))
  {
    var r, d := b >> 3, b & 7;
    assert d == 0 || d == 1 || d == 2 || d == 3 || d == 4 || d == 5 || d == 6 || d == 7;
    assert r == 12 || r == 13 || r == 14 || r == 15;
  }

  lemma LookupPart4(b: byte)
    requires 0x80 <= b <= 0x9F
    ensures ((b >> 3) as nat) < |TABLE| && ((b & 7) as nat) < |TABLE[(b >> 3) as nat]|
    ensures Lookup(b) == EightSteps(High(b))
  {
    var r, d := b >> 3, b & 7;
    assert d == 0 || d == 1 || d == 2 || d == 3 || d == 4 || d == 5 || d == 6 || d == 7;
    assert r == 16 || r == 17 || r == 18 || r == 19;
  }

  lemma LookupPart5(b: byte)
    requires 0xA0 <= b <= 0xBF
    ensures ((b >> 3) as nat) < |TABLE| && ((b & 7) as nat) < |TABLE[(b >> 3) as nat]|
    ensures Lookup(b) == EightSteps(High(b))
  {
    var r, d := b >> 3, b & 7;
    assert d == 0 || d == 1 || d == 2 || d == 3 || d == 4 || d == 5 || d == 6 || d == 7;
    assert r == 20 || r == 21 || r == 22 || r == 23;
  }

  lemma LookupPart6(b: byte)
    requires 0xC0 <= b <= 0xDF
    ensures ((b >> 3) as nat) < |TABLE| && ((b & 7) as nat) < |TABLE[(b >> 3) as nat]|
    ensures Lookup(b) == EightSteps(High(b))
  {
    var r, d := b >> 3, b & 7;
    assert d == 0 || d == 1 || d == 2 || d == 3 || d == 4 || d == 5 || d == 6 || d == 7;
    assert r == 24 || r == 25 || r == 26 || r == 27;
  }

  lemma LookupPart7(b: byte)
    requires 0xE0 <= b <= 0xFF
    ensures ((b >> 3) as nat) < |TABLE| && ((b & 7) as nat) < |TABLE[(b >> 3) as nat]|
    ensures Lookup(b) == EightSteps(High(b))
  {
    var r, d := b >> 3, b & 7;
    assert d == 0 || d == 1 || d == 2 || d == 3 || d == 4 || d == 5 || d == 6 || d == 7;
    assert r == 28 || r == 29 || r == 30 || r == 31;
  }

  lemma LookupCorrect(b: byte)
    ensures ((b >> 3) as nat) < |TABLE| && ((b & 7) as nat) < |TABLE[(b >> 3) as nat]|
    ensures Lookup(b) == EightSteps(High(b))
  {
    if b < 0x20 { LookupPart0(b); }
    else if b < 0x40 { LookupPart1(b); }
    else if b < 0x60 { LookupPart2(b); }
    else if b < 0x80 { LookupPart3(b); }
    else if b < 0xA0 { LookupPart4(b); }
    else if b < 0xC0 { LookupPart5(b); }
    else if b < 0xE0 { LookupPart6(b); }
    else { LookupPart7(b); }
  }

  // ---- the table ---------------------------------------------------------------------------

  function TableIndex(c: bv16, b: byte): byte { (((c >> 8) ^ (b as bv16)) & 0xFF) as byte }

  method TableEntry(index: byte) returns (entry: bv16)
    ensures entry == EightSteps(High(index))
  {
    hide EightSteps;
    LookupCorrect(index);
    entry := TABLE[(index >> 3) as nat][(index & 7) as nat];
  }

  /** The body of the source's loop. */
  method TableByte(init: bv16, b: byte) returns (crc: bv16)
    ensures crc == ByteStep(init, b)
  {
    hide EightSteps, BitStep, Xor;
    var index := TableIndex(init, b);
    crc := TableEntry(index);
    crc := (init << 8) ^ crc;
    SplitByte(init, b, index);
  }

  /** Only the upper byte of the register meets the table; the lower one just moves up. */
  lemma SplitByte(c: bv16, b: byte, index: byte)
    requires index == TableIndex(c, b)
    ensures (c << 8) ^ EightSteps(High(index)) == ByteStep(c, b)
  {
    hide EightSteps, Xor, TableIndex, High, Low;
    SplitRegister(c, b);
    ShiftKeepsLow(c);
    LowByteMovesUp(High(index), LowByte(c));
    XorSwapped(EightSteps(High(index)), c << 8);
  }

  function LowByte(c: bv16): byte { (c & 0xFF) as byte }

  lemma SplitRegister(c: bv16, b: byte)
    ensures Xor(c, High(b)) == Xor(High(TableIndex(c, b)), Low(LowByte(c)))
  {
    hide Xor, High, Low, LowByte, HighByte, TableIndex;
    Halves(c);
    IndexIsSum(c, b);
    HighOfSum(HighByte(c), b);
    XorLaws(High(HighByte(c)), High(b), Low(LowByte(c)));
  }

  function HighByte(c: bv16): byte { (c >> 8) as byte }

  lemma Halves(c: bv16)
    ensures c == Xor(High(HighByte(c)), Low(LowByte(c)))
  {
  }

  lemma IndexIsSum(c: bv16, b: byte)
    ensures TableIndex(c, b) == HighByte(c) ^ b
  {
  }

  lemma HighOfSum(a: byte, b: byte)
    ensures High(a ^ b) == Xor(High(a), High(b))
  {
  }

  lemma ShiftKeepsLow(c: bv16)
    ensures c << 8 == High(LowByte(c))
  {
    RawShiftLow(c);
  }

  lemma RawShiftLow(c: bv16)
    ensures c << 8 == (((c & 0xFF) as byte) as bv16) << 8
  {
  }

  lemma XorSwapped(a: bv16, b: bv16)
    ensures Xor(a, b) == b ^ a
  {
  }

  /** crc16_ccitt_update: the table-driven loop computes the bitwise register. */
  method TableUpdate(init: bv16, data: seq<byte>) returns (crc: bv16)
    ensures crc == Update(init, data)
  {
    crc := init;
    var i := 0;
    while i < |data|
      invariant 0 <= i <= |data|
      invariant crc == Update(init, data[..i])
    {
      assert data[..i + 1][..i] == data[..i];
      crc := TableByte(crc, data[i]);
      i := i + 1;
    }
    assert data[..i] == data;
  }

  lemma {:induction false} UpdateConcat(c: bv16, a: seq<byte>, b: seq<byte>)
    ensures Update(c, a + b) == Update(Update(c, a), b)
    decreases |b|
  {
    hide ByteStep;
    if b == [] {
      assert a + b == a;
    } else {
      var n := |b| - 1;
      assert (a + b)[..|a + b| - 1] == a + b[..n];
      UpdateConcat(c, a, b[..n]);
    }
  }

  // ---- the steps are linear and injective ----------------------------------------------------

  function Steps(c: bv16, n: nat): bv16 { if n == 0 then c else BitStep(Steps(c, n - 1)) }

  lemma EightStepsUnrolled(c: bv16)
    ensures EightSteps(c) == Steps(c, 8)
  {
    hide BitStep;
    assert Steps(c, 2) == BitStep(Steps(c, 1));
    assert Steps(c, 4) == BitStep(Steps(c, 3));
    assert Steps(c, 6) == BitStep(Steps(c, 5));
  }

  lemma RawShift(c: bv16, d: bv16)
    ensures (c ^ d) << 1 == (c << 1) ^ (d << 1)
  {
  }

  lemma TopOfXor(c: bv16, d: bv16)
    ensures Top(Xor(c, d)) == (Top(c) != Top(d))
  {
  }

  lemma ShlOfXor(c: bv16, d: bv16)
    ensures Shl(Xor(c, d)) == Xor(Shl(c), Shl(d))
  {
  }

  lemma XorSwaps(c: bv16, d: bv16, e: bv16)
    ensures Xor(Xor(c, e), d) == Xor(Xor(c, d), e)
  {
  }

  lemma XorAssociates(c: bv16, d: bv16, e: bv16)
    ensures Xor(c, Xor(d, e)) == Xor(Xor(c, d), e)
  {
  }

  lemma XorBoth(c: bv16, d: bv16, e: bv16)
    ensures Xor(Xor(c, e), Xor(d, e)) == Xor(c, d)
  {
    hide Xor;
    XorAssociates(Xor(c, e), d, e);
    XorSwaps(c, d, e);
    XorTwice(Xor(c, d), e);
  }

  lemma XorShift(c: bv16, d: bv16)
    ensures Shl(Xor(c, d)) == Xor(Shl(c), Shl(d))
    ensures Top(Xor(c, d)) == (Top(c) != Top(d))
  {
    hide Xor, Shl, Top;
    ShlOfXor(c, d);
    TopOfXor(c, d);
  }

  lemma XorLaws(c: bv16, d: bv16, e: bv16)
    ensures Xor(Xor(c, e), d) == Xor(Xor(c, d), e)
    ensures Xor(c, Xor(d, e)) == Xor(Xor(c, d), e)
    ensures Xor(Xor(c, e), Xor(d, e)) == Xor(c, d)
  {
    hide Xor;
    XorSwaps(c, d, e);
    XorAssociates(c, d, e);
    XorBoth(c, d, e);
  }

  lemma BitStepLinear(c: bv16, d: bv16)
    ensures BitStep(Xor(c, d)) == Xor(BitStep(c), BitStep(d))
  {
    hide Xor, Shl, Top;
    XorShift(c, d);
    XorLaws(Shl(c), Shl(d), 0x1021);
  }

  lemma {:induction false} StepsLinear(c: bv16, d: bv16, n: nat)
    ensures Steps(Xor(c, d), n) == Xor(Steps(c, n), Steps(d, n))
  {
    hide BitStep, Xor;
    if n > 0 {
      StepsLinear(c, d, n - 1);
      BitStepLinear(Steps(c, n - 1), Steps(d, n - 1));
    }
  }

  lemma BitStepInjective(c: bv16, d: bv16)
    requires BitStep(c) == BitStep(d)
    ensures c == d
  {
    hide Xor, Shl, Top;
    LowBit(c, d);
    LowBit(d, c);
    if Top(c) {
      XorCancels(Shl(c), Shl(d), 0x1021);
    }
    SameShift(c, d);
  }

  lemma XorCancels(c: bv16, d: bv16, y: bv16)
    ensures Xor(c, y) == Xor(d, y) ==> c == d
  {
    assert (c ^ y) ^ y == c && (d ^ y) ^ y == d;
  }

  lemma SameShift(c: bv16, d: bv16)
    ensures Shl(c) == Shl(d) && Top(c) == Top(d) ==> c == d
  {
  }

  lemma LowBit(c: bv16, d: bv16)
    ensures Xor(Shl(c), 0x1021) != Shl(d)
  {
    assert (c << 1) & 1 == 0 && (d << 1) & 1 == 0;
    assert ((c << 1) ^ 0x1021) & 1 == ((c << 1) & 1) ^ 1;
  }

  lemma {:induction false} StepsInjective(c: bv16, d: bv16, n: nat)
    requires Steps(c, n) == Steps(d, n)
    ensures c == d
  {
    hide BitStep;
    if n > 0 {
      BitStepInjective(Steps(c, n - 1), Steps(d, n - 1));
      StepsInjective(c, d, n - 1);
    }
  }

  lemma EightStepsInjective(c: bv16, d: bv16)
    requires EightSteps(c) == EightSteps(d)
    ensures c == d
  {
    hide EightSteps, BitStep;
    EightStepsUnrolled(c);
    EightStepsUnrolled(d);
    StepsInjective(c, d, 8);
  }

  lemma LowByteMovesUp(x: bv16, b: byte)
    ensures EightSteps(Xor(x, Low(b))) == Xor(EightSteps(x), High(b))
  {
    hide EightSteps, BitStep, Xor, Low, High;
    var y := Low(b);
    EightStepsUnrolled(Xor(x, y));
    EightStepsUnrolled(x);
    EightStepsUnrolled(y);
    StepsLinear(x, y, 8);
    LowByteAlone(b);
  }

  lemma LowByteAlone(b: byte)
    ensures EightSteps(Low(b)) == High(b)
  {
    hide Xor;
    var y := b as bv16;
    assert y & 0x8000 == 0 && (y << 1) & 0x8000 == 0 && (y << 2) & 0x8000 == 0 && (y << 3) & 0x8000 == 0;
    assert (y << 4) & 0x8000 == 0 && (y << 5) & 0x8000 == 0 && (y << 6) & 0x8000 == 0 && (y << 7) & 0x8000 == 0;
    assert (y << 1) << 1 == y << 2 && (y << 2) << 1 == y << 3 && (y << 3) << 1 == y << 4 && (y << 4) << 1 == y << 5;
    assert (y << 5) << 1 == y << 6 && (y << 6) << 1 == y << 7 && (y << 7) << 1 == y << 8;
  }

  // ---- error detection ---------------------------------------------------------------------

  lemma ByteStepInjective(c: bv16, d: bv16, b: byte)
    requires ByteStep(c, b) == ByteStep(d, b)
    ensures c == d
  {
    hide EightSteps, Xor, High;
    EightStepsInjective(Xor(c, High(b)), Xor(d, High(b)));
    XorCancels(c, d, High(b));
  }

  /** A division step undone. */
  function BitBack(c: bv16): bv16 { if c & 1 != 0 then ((c ^ 0x1021) >> 1) | 0x8000 else c >> 1 }

  lemma BitBackUndone(c: bv16)
    ensures BitStep(BitBack(c)) == c
  {
  }

  function StepsBack(c: bv16, n: nat): bv16
    decreases n
  {
    if n == 0 then c else StepsBack(BitBack(c), n - 1)
  }

  lemma {:induction false} StepsBackUndone(c: bv16, n: nat)
    ensures Steps(StepsBack(c, n), n) == c
    decreases n
  {
    hide BitStep, BitBack;
    if n > 0 {
      StepsBackUndone(BitBack(c), n - 1);
      BitBackUndone(c);
    }
  }

  /** The register a byte step led from. */
  function ByteBack(d: bv16, b: byte): bv16 { Xor(StepsBack(d, 8), High(b)) }

  /** One byte step is a bijection on the register, and ByteBack is its inverse. */
  lemma ByteStepBijective(c: bv16, d: bv16, b: byte)
    ensures ByteStep(c, b) == d <==> c == ByteBack(d, b)
  {
    hide EightSteps, Xor, High, StepsBack, ByteStep;
    var x := StepsBack(d, 8);
    StepsBackUndone(d, 8);
    EightStepsUnrolled(x);
    XorTwice(x, High(b));
    assert ByteStep(ByteBack(d, b), b) == d by { UndoneByte(d, b); }
    if ByteStep(c, b) == d { ByteStepInjective(c, ByteBack(d, b), b); }
  }

  lemma UndoneByte(d: bv16, b: byte)
    requires Xor(ByteBack(d, b), High(b)) == StepsBack(d, 8) && EightSteps(StepsBack(d, 8)) == d
    ensures ByteStep(ByteBack(d, b), b) == d
  {
    hide EightSteps, Xor, High, StepsBack, ByteBack;
  }

  lemma XorTwice(c: bv16, y: bv16)
    ensures Xor(Xor(c, y), y) == c
  {
  }

  /** Bytes that agree keep two different registers different. */
  lemma {:induction false} UpdateInjective(c: bv16, d: bv16, data: seq<byte>)
    requires Update(c, data) == Update(d, data)
    ensures c == d
    decreases |data|
  {
    hide ByteStep;
    if data != [] {
      var n := |data| - 1;
      ByteStepInjective(Update(c, data[..n]), Update(d, data[..n]), data[n]);
      UpdateInjective(c, d, data[..n]);
    }
  }

  /** Two byte steps are sixteen bit steps on the register plus both bytes. */
  lemma TwoBytes(c: bv16, a0: byte, a1: byte)
    ensures ByteStep(ByteStep(c, a0), a1) == EightSteps(EightSteps(Xor(Xor(c, High(a0)), Low(a1))))
  {
    hide EightSteps, Xor, High, Low;
    LowByteMovesUp(Xor(c, High(a0)), a1);
  }

  /** From one register, two different byte pairs never lead to the same register. */
  lemma TwoBytesInjective(c: bv16, a0: byte, a1: byte, b0: byte, b1: byte)
    requires ByteStep(ByteStep(c, a0), a1) == ByteStep(ByteStep(c, b0), b1)
    ensures a0 == b0 && a1 == b1
  {
    hide ByteStep, EightSteps, Xor, High, Low;
    var x, y := Xor(Xor(c, High(a0)), Low(a1)), Xor(Xor(c, High(b0)), Low(b1));
    TwoBytes(c, a0, a1);
    TwoBytes(c, b0, b1);
    EightStepsInjective(EightSteps(x), EightSteps(y));
    EightStepsInjective(x, y);
    Unpair(c, a0, a1);
    Unpair(c, b0, b1);
  }

  lemma Unpair(c: bv16, a0: byte, a1: byte)
    ensures LowByte(Xor(Xor(Xor(c, High(a0)), Low(a1)), c)) == a1
    ensures LowByte(Xor(Xor(Xor(c, High(a0)), Low(a1)), c) >> 8) == a0
  {
    RawPair(c, a0, a1);
    RawUnpair(a0, a1);
  }

  lemma RawPair(c: bv16, a0: byte, a1: byte)
    ensures ((c ^ ((a0 as bv16) << 8)) ^ (a1 as bv16)) ^ c == ((a0 as bv16) << 8) | (a1 as bv16)
  {
  }

  lemma RawUnpair(a0: byte, a1: byte)
    ensures ((((a0 as bv16) << 8) | (a1 as bv16)) & 0xFF) as byte == a1
    ensures (((((a0 as bv16) << 8) | (a1 as bv16)) >> 8) & 0xFF) as byte == a0
  {
  }

  /** Any change confined to two adjacent bytes changes the CRC. */
  lemma AdjacentBytesDetected(a: seq<byte>, b: seq<byte>, i: nat)
    requires |a| == |b| && i + 2 <= |a| && a != b
    requires a[..i] == b[..i] && a[i + 2..] == b[i + 2..]
    ensures Of(a) != Of(b)
  {
    hide ByteStep;
    if Of(a) == Of(b) {
      var c := Update(INIT, a[..i]);
      SplitAt(a, i);
      SplitAt(b, i);
      UpdateInjective(ByteStep(ByteStep(c, a[i]), a[i + 1]), ByteStep(ByteStep(c, b[i]), b[i + 1]), a[i + 2..]);
      TwoBytesInjective(c, a[i], a[i + 1], b[i], b[i + 1]);
      Rejoin(a, b, i);
      assert false;
    }
  }

  lemma Rejoin(a: seq<byte>, b: seq<byte>, i: nat)
    requires |a| == |b| && i + 2 <= |a|
    requires a[..i] == b[..i] && a[i] == b[i] && a[i + 1] == b[i + 1] && a[i + 2..] == b[i + 2..]
    ensures a == b
  {
    assert a == a[..i] + [a[i], a[i + 1]] + a[i + 2..];
    assert b == b[..i] + [b[i], b[i + 1]] + b[i + 2..];
  }

  lemma SplitAt(s: seq<byte>, i: nat)
    requires i + 2 <= |s|
    ensures Of(s) == Update(ByteStep(ByteStep(Update(INIT, s[..i]), s[i]), s[i + 1]), s[i + 2..])
  {
    hide ByteStep;
    assert s == s[..i + 2] + s[i + 2..];
    UpdateConcat(INIT, s[..i + 2], s[i + 2..]);
    assert s[..i + 2][..i + 1] == s[..i + 1];
    assert s[..i + 1][..i] == s[..i];
    assert Update(INIT, s[..i + 1]) == ByteStep(Update(INIT, s[..i]), s[i]);
    assert Update(INIT, s[..i + 2]) == ByteStep(Update(INIT, s[..i + 1]), s[i + 1]);
  }

  // ---- the register is a polynomial remainder --------------------------------------------------

  /** Schoolbook long division by x^16 + x^12 + x^5 + 1: window holds the sixteen leading
      coefficients, rest the ones not brought down yet. */
  function Remainder(window: bv16, rest: seq<bool>): bv16
    decreases |rest|
  {
    if rest == [] then window else Remainder(BringDown(window, rest[0]), rest[1..])
  }

  function BringDown(window: bv16, incoming: bool): bv16 {
    if Top(window) then Xor(Down(window, incoming), 0x1021) else Down(window, incoming)
  }

  function Down(p: bv16, incoming: bool): bv16 { Shl(p) | (if incoming then 1 else 0) }

  /** Sixteen bits as a polynomial of degree below sixteen, highest power first. */
  function Poly(s: seq<bool>): bv16
    requires |s| == 16
  {
    Pair(FromBits(s[..8]), FromBits(s[8..]))
  }

  function Pair(h: byte, l: byte): bv16 { High(h) | Low(l) }

  /** One message bit through the shift register. */
  function SerialStep(c: bv16, bit: bool): bv16 { BitStep(if bit then Xor(c, 0x8000) else c) }

  function Serial(c: bv16, bits: seq<bool>): bv16
    decreases |bits|
  {
    if bits == [] then c else Serial(SerialStep(c, bits[0]), bits[1..])
  }

  lemma {:induction false} SerialConcat(c: bv16, a: seq<bool>, b: seq<bool>)
    ensures Serial(c, a + b) == Serial(Serial(c, a), b)
    decreases |a|
  {
    hide SerialStep;
    if a == [] {
      assert a + b == b;
    } else {
      assert (a + b)[1..] == a[1..] + b;
      SerialConcat(SerialStep(c, a[0]), a[1..], b);
    }
  }

  /** Long division runs sixteen coefficients ahead of the shift register: its window is the
      register added to the message bits the register has not taken in yet. */
  lemma {:induction false} DivisionLookahead(c: bv16, bits: seq<bool>)
    requires |bits| >= 16
    ensures Remainder(Xor(c, Poly(bits[..16])), bits[16..])
            == Xor(Serial(c, bits[..|bits| - 16]), Poly(bits[|bits| - 16..]))
    decreases |bits|
  {
    hide Poly, SerialStep, BringDown, Xor;
    if |bits| > 16 {
      var next, rest := bits[1..], bits[16..];
      var p := Poly(bits[..16]);
      PolyShift(bits[..16], bits[16], next[..16]);
      DivisionStep(c, p, bits[16]);
      assert rest[1..] == next[16..];
      DivisionLookahead(SerialStep(c, bits[0]), next);
      assert bits[|bits| - 16..] == next[|next| - 16..];
      var taken := bits[..|bits| - 16];
      assert taken[1..] == next[..|next| - 16];
    } else {
      assert bits[..0] == [];
      assert bits[..16] == bits && bits[0..] == bits;
    }
  }

  lemma PolyShift(now: seq<bool>, incoming: bool, next: seq<bool>)
    requires |now| == |next| == 16 && next == now[1..] + [incoming]
    ensures Poly(next) == Down(Poly(now), incoming)
    ensures now[0] == Top(Poly(now))
  {
    hide FromBits, Pair, Down, Top;
    var h, l := now[..8], now[8..];
    var h', l' := next[..8], next[8..];
    ByteShift(h, l[0], h');
    ByteShift(l, incoming, l');
    PairShift(FromBits(h), FromBits(l), l[0], incoming);
  }

  function ShlByte(b: byte, incoming: bool): byte { (b << 1) | (if incoming then 1 else 0) }

  lemma ByteShift(now: seq<bool>, incoming: bool, next: seq<bool>)
    requires |now| == |next| == 8 && next == now[1..] + [incoming]
    ensures FromBits(next) == ShlByte(FromBits(now), incoming)
    ensures now[0] == BitOf(FromBits(now), 0)
  {
    hide FromBits, ShlByte, BitOf;
    var x := FromBits(now);
    ByteBitsFrom(now);
    ShiftedBits(x, incoming);
    FromByteBits(ShlByte(x, incoming));
    assert ByteBits(x) == now;
    assert ByteBits(ShlByte(x, incoming)) == next;
  }

  lemma ShiftedBits(x: byte, incoming: bool)
    ensures ByteBits(ShlByte(x, incoming)) == ByteBits(x)[1..] + [incoming]
  {
    if incoming {} else {}
  }

  lemma PairShift(h: byte, l: byte, carry: bool, incoming: bool)
    requires carry == BitOf(l, 0)
    ensures Pair(ShlByte(h, carry), ShlByte(l, incoming)) == Down(Pair(h, l), incoming)
    ensures BitOf(h, 0) == Top(Pair(h, l))
  {
    if carry { if incoming {} else {} } else { if incoming {} else {} }
  }

  lemma DivisionStep(c: bv16, p: bv16, incoming: bool)
    ensures BringDown(Xor(c, p), incoming) == Xor(SerialStep(c, Top(p)), Down(p, incoming))
  {
    hide Xor, Down, Shl, Top;
    XorShift(c, p);
    DownXor(c, p, incoming);
    TopXor(c);
    XorLaws(Shl(c), Down(p, incoming), 0x1021);
  }

  lemma DownXor(c: bv16, p: bv16, incoming: bool)
    ensures Down(Xor(c, p), incoming) == Xor(Shl(c), Down(p, incoming))
  {
    RawShift(c, p);
    if incoming { OrOne(c << 1, p << 1); }
  }

  lemma OrOne(a: bv16, b: bv16)
    requires a & 1 == 0 && b & 1 == 0
    ensures (a ^ b) | 1 == a ^ (b | 1)
  {
  }

  lemma TopXor(c: bv16)
    ensures Shl(Xor(c, 0x8000)) == Shl(c)
    ensures Top(Xor(c, 0x8000)) == !Top(c)
  {
  }

  /** Feeding a byte bit by bit is adding it to the upper half and stepping eight times. */
  lemma {:induction false} SerialByte(c: bv16, b: byte, k: nat)
    requires k <= 8
    ensures Xor(Serial(c, ByteBits(b)[..k]), ShiftedByte(b, k)) == Steps(Xor(c, High(b)), k)
  {
    hide BitStep, SerialStep, BitOf, Xor, Top, Shl;
    var s := ByteBits(b);
    if k > 0 {
      SerialByte(c, b, k - 1);
      assert s[..k] == s[..k - 1] + [s[k - 1]];
      SerialConcat(c, s[..k - 1], [s[k - 1]]);
      var ck := Serial(c, s[..k - 1]);
      assert [s[k - 1]][1..] == [];
      assert Serial(ck, [s[k - 1]]) == SerialStep(ck, s[k - 1]);
      ShiftedByteTop(b, k - 1);
      SerialIntoStep(ck, ShiftedByte(b, k - 1));
    }
  }

  function ShiftedByte(b: byte, k: nat): bv16 {
    if k == 0 then High(b) else Shl(ShiftedByte(b, k - 1))
  }

  lemma ShiftedByteTop(b: byte, k: nat)
    requires k < 8
    ensures Top(ShiftedByte(b, k)) == ByteBits(b)[k]
    ensures ShiftedByte(b, 8) == 0
  {
    hide ByteBits, BitOf, Top;
    ShiftedFirst(b);
    ShiftedLast(b);
    BitOfByte(b, k);
    if k < 4 { TopFirst(b, k); } else { TopLast(b, k); }
  }

  lemma ShiftedFirst(b: byte)
    ensures var y := High(b);
            && ShiftedByte(b, 0) == y && ShiftedByte(b, 1) == y << 1 && ShiftedByte(b, 2) == y << 2
            && ShiftedByte(b, 3) == y << 3 && ShiftedByte(b, 4) == y << 4
  {
    var y := High(b);
    assert (y << 1) << 1 == y << 2 && (y << 2) << 1 == y << 3 && (y << 3) << 1 == y << 4;
  }

  lemma ShiftedLast(b: byte)
    ensures var y := High(b);
            && ShiftedByte(b, 5) == y << 5 && ShiftedByte(b, 6) == y << 6 && ShiftedByte(b, 7) == y << 7
            && ShiftedByte(b, 8) == 0
  {
    hide High;
    ShiftedFirst(b);
    var y := High(b);
    assert (y << 4) << 1 == y << 5 && (y << 5) << 1 == y << 6 && (y << 6) << 1 == y << 7;
    assert ShiftedByte(b, 5) == Shl(ShiftedByte(b, 4)) && ShiftedByte(b, 6) == Shl(ShiftedByte(b, 5));
    assert ShiftedByte(b, 7) == Shl(ShiftedByte(b, 6)) && ShiftedByte(b, 8) == Shl(ShiftedByte(b, 7));
    NothingAbove(b);
  }

  lemma NothingAbove(b: byte)
    ensures (High(b) << 7) << 1 == 0
  {
  }

  lemma TopFirst(b: byte, k: nat)
    requires k < 4
    ensures Top(High(b) << k) == BitOf(b, k)
  {
    if k == 0 {} else if k == 1 {} else if k == 2 {} else {}
  }

  lemma TopLast(b: byte, k: nat)
    requires 4 <= k < 8
    ensures Top(High(b) << k) == BitOf(b, k)
  {
    if k == 4 {} else if k == 5 {} else if k == 6 {} else {}
  }

  lemma SerialIntoStep(c: bv16, y: bv16)
    ensures BitStep(Xor(c, y)) == Xor(SerialStep(c, Top(y)), Shl(y))
  {
    hide Xor, Top, Shl;
    XorShift(c, y);
    TopXor(c);
    XorLaws(Shl(c), Shl(y), 0x1021);
  }

  lemma {:induction false} SerialBytes(c: bv16, data: seq<byte>)
    ensures Serial(c, Bits(data)) == Update(c, data)
    decreases |data|
  {
    hide EightSteps, BitStep, SerialStep, BitOf, Xor;
    if data != [] {
      var n := |data| - 1;
      assert data == data[..n] + [data[n]];
      BitsConcat(data[..n], [data[n]]);
      SerialConcat(c, Bits(data[..n]), Bits([data[n]]));
      SerialBytes(c, data[..n]);
      var before := Update(c, data[..n]);
      assert Bits([data[n]]) == ByteBits(data[n])[..8];
      SerialByte(before, data[n], 8);
      ShiftedByteTop(data[n], 0);
      XorZero(Serial(before, Bits([data[n]])));
      EightStepsUnrolled(Xor(before, High(data[n])));
    }
  }

  lemma XorZero(a: bv16)
    ensures Xor(a, 0) == a
  {
  }

  /** The CRC is the remainder of the message times x^16, its sixteen leading coefficients
      complemented, divided by the generator. */
  lemma CrcIsRemainder(data: seq<byte>)
    ensures var dividend := Bits(data) + Rep(false, 16);
            Of(data) == Remainder(Xor(INIT, Poly(dividend[..16])), dividend[16..])
  {
    hide Xor;
    var dividend := Bits(data) + Rep(false, 16);
    DivisionLookahead(INIT, dividend);
    assert dividend[..|dividend| - 16] == Bits(data);
    assert dividend[|dividend| - 16..] == Rep(false, 16);
    assert Poly(Rep(false, 16)) == 0;
    XorZero(Of(data));
    SerialBytes(INIT, data);
  }
}
