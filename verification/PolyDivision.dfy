/** Long division of polynomials over GF(2), and CRC-32 as the remainder it leaves. A polynomial is the
    sequence of its coefficients, highest power first. */
module PolyDivision {
  import opened Bytes
  import opened Crc32

  // ---- polynomials -----------------------------------------------------------------------------------------

  function XorBits(a: seq<bool>, b: seq<bool>): (r: seq<bool>)
    requires |a| == |b|
    ensures |r| == |a|
  {
    seq(|a|, i requires 0 <= i < |a| => a[i] != b[i])
  }

  /** The powers of x in the generator of section 3.2.9 of IEEE Std 802.3-2018. */
  function Generator(): (g: seq<bool>)
    ensures |g| == 33
  {
    seq(33, i => InGenerator(32 - i))
  }

  predicate InGenerator(power: int) {
    power in {32, 26, 23, 22, 16, 12, 11, 10, 8, 7, 5, 4, 2, 1, 0}
  }

  /** Schoolbook long division by the generator: whatever the leading coefficient is, take that multiple of the
      generator away from the leading 33 coefficients, and go on with the next. */
  function Remainder(d: seq<bool>): (r: seq<bool>)
    requires |d| >= 32
    ensures |r| == 32
    decreases |d|
  {
    if |d| == 32 then d else Remainder(Reduced(d))
  }

  function Reduced(d: seq<bool>): (r: seq<bool>)
    requires |d| > 32
    ensures |r| == |d| - 1
  {
    (if d[0] then XorBits(d[..33], Generator())[1..] else d[1..33]) + d[33..]
  }

  /** A message has the bits of its bytes, least significant first. */
  function MessageBits(data: seq<byte>): (r: seq<bool>)
    ensures |r| == 8 * |data|
  {
    seq(8 * |data|, i requires 0 <= i < 8 * |data| => BitOf(data[i / 8], 7 - i % 8))
  }

  /** The first coefficients with those of r added: a preset. */
  function Preset(d: seq<bool>, r: seq<bool>): (p: seq<bool>)
    requires |r| <= |d|
    ensures |p| == |d|
  {
    XorBits(d[..|r|], r) + d[|r|..]
  }

  /** The coefficients in a register, the least significant bit standing for the highest power. */
  function Coefficients(c: bv32, n: nat): (r: seq<bool>)
    ensures |r| == n
  {
    if n == 0 then [] else [Odd(c)] + Coefficients(Shr(c), n - 1)
  }

  function Complemented(bits: seq<bool>): (r: seq<bool>)
    ensures |r| == |bits|
  {
    seq(|bits|, i requires 0 <= i < |bits| => !bits[i])
  }

  // ---- a register divides a bit at a time --------------------------------------------------------------------

  /** One step of the shift register that divides: shift, and take the generator away if a one falls out. */
  function DivStep(r: seq<bool>): (s: seq<bool>)
    requires |r| == 32
    ensures |s| == 32
  {
    var moved := r[1..] + [false];
    if r[0] then XorBits(moved, Generator()[1..]) else moved
  }

  /** The register after a message. */
  function Shifted(r: seq<bool>, m: seq<bool>): (s: seq<bool>)
    requires |r| == 32
    ensures |s| == 32
    decreases |m|
  {
    if m == [] then r else Shifted(DivStep(Preset(r, m[..1])), m[1..])
  }

  /** Long division of the augmented message, preset with r, leaves what the register started at r holds. */
  lemma {:induction false} DivisionByRegister(r: seq<bool>, m: seq<bool>)
    requires |r| == 32
    ensures Remainder(Preset(m + Rep(false, 32), r)) == Shifted(r, m)
    decreases |m|
  {
    hide Remainder, DivStep, Preset, Reduced;
    if m == [] {
      NothingDivided(r);
    } else {
      var d := Preset(m + Rep(false, 32), r);
      OneReduced(r, m);
      DivisionByRegister(DivStep(Preset(r, m[..1])), m[1..]);
      RemainderStep(d);
    }
  }

  lemma RemainderStep(d: seq<bool>)
    requires |d| > 32
    ensures Remainder(d) == Remainder(Reduced(d))
  {
    hide Reduced;
  }

  lemma NothingDivided(r: seq<bool>)
    requires |r| == 32
    ensures Remainder(Preset([] + Rep(false, 32), r)) == r
  {
    assert Preset([] + Rep(false, 32), r) == r;
  }

  lemma OneReduced(r: seq<bool>, m: seq<bool>)
    requires |r| == 32 && m != []
    ensures Reduced(Preset(m + Rep(false, 32), r)) == Preset(m[1..] + Rep(false, 32), DivStep(Preset(r, m[..1])))
  {
    hide Reduced, Preset, DivStep;
    var z := m + Rep(false, 32);
    var d, s := Preset(z, r), Preset(r, m[..1]);
    var a, b := Reduced(d), Preset(z[1..], DivStep(s));
    assert m[1..] + Rep(false, 32) == z[1..];
    forall i | 0 <= i < |a| ensures a[i] == b[i] {
      ReducedAt(d, i);
      PresetAt(z, r, i + 1);
      PresetAt(z, r, 0);
      PresetAt(z[1..], DivStep(s), i);
      PresetAt(r, m[..1], 0);
      if i < 32 { StepAt(s, i); }
      if i < 31 { PresetAt(r, m[..1], i + 1); }
    }
  }

  lemma ReducedAt(d: seq<bool>, i: nat)
    requires |d| > 32 && i < |d| - 1
    ensures Reduced(d)[i] == (d[i + 1] != (d[0] && i < 32 && Generator()[i + 1]))
  {
    hide Generator;
  }

  lemma PresetAt(d: seq<bool>, r: seq<bool>, i: nat)
    requires |r| <= |d| && i < |d|
    ensures Preset(d, r)[i] == (d[i] != (i < |r| && r[i]))
  {
  }

  lemma StepAt(r: seq<bool>, i: nat)
    requires |r| == 32 && i < 32
    ensures DivStep(r)[i] == ((i < 31 && r[i + 1]) != (r[0] && Generator()[i + 1]))
  {
    hide Generator;
  }

  // ---- linearity -----------------------------------------------------------------------------------------------

  /** Message bits that have not come to the front yet can be added before the step or after it. */
  lemma StepLinear(r: seq<bool>, t: seq<bool>)
    requires |r| == 32 && |t| < 32
    ensures DivStep(Preset(r, [false] + t)) == Preset(DivStep(r), t)
  {
    hide Preset, DivStep;
    var x := Preset(r, [false] + t);
    var a, b := DivStep(x), Preset(DivStep(r), t);
    PresetAt(r, [false] + t, 0);
    forall i | 0 <= i < 32 ensures a[i] == b[i] {
      StepAt(x, i);
      StepAt(r, i);
      PresetAt(DivStep(r), t, i);
      if i < 31 { PresetAt(r, [false] + t, i + 1); }
    }
  }

  function DivSteps(r: seq<bool>, n: nat): (s: seq<bool>)
    requires |r| == 32
    ensures |s| == 32
    decreases n
  {
    if n == 0 then r else DivSteps(DivStep(r), n - 1)
  }

  /** Up to 32 message bits may be added to the register all at once. */
  lemma {:induction false} ShiftedAtOnce(r: seq<bool>, m: seq<bool>)
    requires |r| == 32 && |m| <= 32
    ensures Shifted(r, m) == DivSteps(Preset(r, m), |m|)
    decreases |m|
  {
    hide DivStep, Preset;
    if m == [] {
      NothingAdded(r);
    } else {
      var s := Preset(r, m[..1]);
      ShiftedAtOnce(DivStep(s), m[1..]);
      StepLinear(s, m[1..]);
      FirstApart(r, m);
    }
  }

  lemma NothingAdded(r: seq<bool>)
    requires |r| == 32
    ensures Preset(r, []) == r
  {
  }

  lemma FirstApart(r: seq<bool>, m: seq<bool>)
    requires |r| == 32 && 0 < |m| <= 32
    ensures Preset(Preset(r, m[..1]), [false] + m[1..]) == Preset(r, m)
  {
  }

  lemma {:induction false} ShiftedConcat(r: seq<bool>, a: seq<bool>, b: seq<bool>)
    requires |r| == 32
    ensures Shifted(r, a + b) == Shifted(Shifted(r, a), b)
    decreases |a|
  {
    hide DivStep, Preset;
    if a == [] {
      assert a + b == b;
    } else {
      assert (a + b)[1..] == a[1..] + b && (a + b)[..1] == a[..1];
      ShiftedConcat(DivStep(Preset(r, a[..1])), a[1..], b);
    }
  }

  // ---- the register in 32 bits -----------------------------------------------------------------------------------

  lemma {:induction false} CoefficientsXor(a: bv32, b: bv32, n: nat)
    ensures Coefficients(Xor(a, b), n) == XorBits(Coefficients(a, n), Coefficients(b, n))
    decreases n
  {
    hide Odd, Shr, Xor;
    if n > 0 {
      OddOfXor(a, b);
      XorApart(a, b);
      CoefficientsXor(Shr(a), Shr(b), n - 1);
    }
  }

  lemma OddOfXor(a: bv32, b: bv32)
    ensures Odd(Xor(a, b)) == (Odd(a) != Odd(b))
  {
  }

  function ShrBy(c: bv32, n: nat): bv32 { if n == 0 then c else ShrBy(Shr(c), n - 1) }

  lemma {:induction false} ShrByAdds(c: bv32, n: nat, k: nat)
    ensures ShrBy(c, n + k) == ShrBy(ShrBy(c, n), k)
    decreases n
  {
    hide Shr;
    if n > 0 { ShrByAdds(Shr(c), n - 1, k); }
  }

  lemma OneShift(c: bv32)
    ensures ShrBy(c, 1) == Shr(c) == c >> 1
  {
  }

  lemma TwoShifts(c: bv32)
    ensures ShrBy(c, 2) == c >> 2
  {
    hide ShrBy;
    OneShift(c);
    OneShift(c >> 1);
    ShrByAdds(c, 1, 1);
    assert (c >> 1) >> 1 == c >> 2;
  }

  lemma FourShifts(c: bv32)
    ensures ShrBy(c, 4) == c >> 4
  {
    hide ShrBy;
    TwoShifts(c);
    TwoShifts(c >> 2);
    ShrByAdds(c, 2, 2);
    assert (c >> 2) >> 2 == c >> 4;
  }

  lemma EightShifts(c: bv32)
    ensures ShrBy(c, 8) == c >> 8
  {
    hide ShrBy;
    FourShifts(c);
    FourShifts(c >> 4);
    ShrByAdds(c, 4, 4);
    assert (c >> 4) >> 4 == c >> 8;
  }

  lemma SixteenShifts(c: bv32)
    ensures ShrBy(c, 16) == c >> 16
  {
    hide ShrBy;
    EightShifts(c);
    EightShifts(c >> 8);
    ShrByAdds(c, 8, 8);
    assert (c >> 8) >> 8 == c >> 16;
  }

  /** Nothing is left after 32 shifts. */
  lemma AllShifted(c: bv32)
    ensures ShrBy(c, 32) == 0
  {
    hide ShrBy;
    SixteenShifts(c);
    SixteenShifts(c >> 16);
    ShrByAdds(c, 16, 16);
    assert (c >> 16) >> 16 == 0;
  }

  lemma {:induction false} CoefficientAt(c: bv32, n: nat, i: nat)
    requires i < n
    ensures Coefficients(c, n)[i] == Odd(ShrBy(c, i))
    decreases n
  {
    hide Odd, Shr;
    if i > 0 { CoefficientAt(Shr(c), n - 1, i - 1); }
  }

  /** Shifting the register right moves every coefficient up and brings in a zero. */
  lemma ShiftMoves(c: bv32)
    ensures Coefficients(Shr(c), 32) == Coefficients(c, 32)[1..] + [false]
  {
    hide Odd, Shr;
    var a, b := Coefficients(Shr(c), 32), Coefficients(c, 32)[1..] + [false];
    forall i | 0 <= i < 32 ensures a[i] == b[i] {
      CoefficientAt(Shr(c), 32, i);
      if i < 31 { CoefficientAt(c, 32, i + 1); } else { LastShifted(c); }
    }
  }

  lemma LastShifted(c: bv32)
    ensures !Odd(ShrBy(Shr(c), 31))
  {
    hide ShrBy;
    AllShifted(c);
    assert ShrBy(c, 32) == ShrBy(Shr(c), 31) by { ShrByAdds(c, 1, 31); OneShift(c); }
  }

  // ---- the generator, and one step ------------------------------------------------------------------------------

  /** The k-th bit of the low byte. */
  predicate MaskBit(c: bv32, k: nat)
    requires k < 8
  {
    if k == 0 then c & 0x01 != 0 else if k == 1 then c & 0x02 != 0
    else if k == 2 then c & 0x04 != 0 else if k == 3 then c & 0x08 != 0
    else if k == 4 then c & 0x10 != 0 else if k == 5 then c & 0x20 != 0
    else if k == 6 then c & 0x40 != 0 else c & 0x80 != 0
  }

  lemma BitAt(c: bv32, k: nat)
    requires k < 8
    ensures Odd(ShrBy(c, k)) == MaskBit(c, k)
  {
    hide ShrBy;
    if k < 4 { LowerBitAt(c, k); } else {
      FourShifts(c);
      ShrByAdds(c, 4, k - 4);
      LowerBitAt(c >> 4, k - 4);
      UpperMask(c, k);
    }
  }

  lemma UpperMask(c: bv32, k: nat)
    requires 4 <= k < 8
    ensures MaskBit(c >> 4, k - 4) == MaskBit(c, k)
  {
    if k == 4 {} else if k == 5 {} else if k == 6 {} else {}
  }

  lemma LowerBitAt(c: bv32, k: nat)
    requires k < 4
    ensures Odd(ShrBy(c, k)) == MaskBit(c, k)
  {
    hide ShrBy;
    if k == 0 { NoShift(c); }
    else if k == 1 { OneShift(c); }
    else if k == 2 { TwoShifts(c); }
    else {
      TwoShifts(c);
      ShrByAdds(c, 2, 1);
      OneShift(c >> 2);
    }
  }

  lemma NoShift(c: bv32)
    ensures ShrBy(c, 0) == c
  {
  }

  /** The constant of the bitwise step holds the lower coefficients of the generator. */
  lemma GeneratorCoefficients()
    ensures Coefficients(0xEDB8_8320, 32) == Generator()[1..]
  {
    hide MaskBit, InGenerator, Coefficients;
    var c, g := 0xEDB8_8320 as bv32, Generator()[1..];
    forall i | 0 <= i < 32 ensures Coefficients(c, 32)[i] == g[i] {
      CoefficientIs(c, i);
      GeneratorBit(i / 8, i % 8);
    }
  }

  /** A register shifted down by whole bytes. */
  function BytesDown(c: bv32, j: nat): bv32 {
    if j == 0 then c else if j == 1 then c >> 8 else if j == 2 then c >> 16 else c >> 24
  }

  lemma ByteShifts(c: bv32, j: nat)
    requires j < 4
    ensures ShrBy(c, 8 * j) == BytesDown(c, j)
  {
    hide ShrBy;
    if j == 0 { NoShift(c); }
    else if j == 1 { EightShifts(c); }
    else if j == 2 { SixteenShifts(c); }
    else {
      SixteenShifts(c);
      ShrByAdds(c, 16, 8);
      EightShifts(c >> 16);
      assert (c >> 16) >> 8 == c >> 24;
    }
  }

  /** Coefficient i is a bit of byte i / 8. */
  lemma CoefficientIs(c: bv32, i: nat)
    requires i < 32
    ensures Coefficients(c, 32)[i] == MaskBit(BytesDown(c, i / 8), i % 8)
  {
    hide ShrBy, MaskBit, Odd;
    CoefficientAt(c, 32, i);
    ByteShifts(c, i / 8);
    ShrByAdds(c, 8 * (i / 8), i % 8);
    BitAt(ShrBy(c, 8 * (i / 8)), i % 8);
  }

  lemma GeneratorBit(j: nat, k: nat)
    requires j < 4 && k < 8
    ensures MaskBit(BytesDown(0xEDB8_8320, j), k) == InGenerator(31 - (8 * j + k))
  {
    if k == 0 {} else if k == 1 {} else if k == 2 {} else if k == 3 {}
    else if k == 4 {} else if k == 5 {} else if k == 6 {} else {}
  }

  /** The bitwise step is the step of the dividing register. */
  lemma BitStepDivides(c: bv32)
    ensures Coefficients(BitStep(c), 32) == DivStep(Coefficients(c, 32))
  {
    hide Xor, Shr, Odd;
    ShiftMoves(c);
    if Odd(c) {
      CoefficientsXor(Shr(c), 0xEDB8_8320, 32);
      GeneratorCoefficients();
    }
  }

  // ---- bytes and messages ---------------------------------------------------------------------------------------

  function BitSteps(c: bv32, n: nat): bv32
    decreases n
  {
    if n == 0 then c else BitSteps(BitStep(c), n - 1)
  }

  lemma {:induction false} BitStepsDivide(c: bv32, n: nat)
    ensures Coefficients(BitSteps(c, n), 32) == DivSteps(Coefficients(c, 32), n)
    decreases n
  {
    hide BitStep, DivStep, Coefficients;
    if n > 0 {
      BitStepDivides(c);
      BitStepsDivide(BitStep(c), n - 1);
    }
  }

  lemma EightBitSteps(c: bv32)
    ensures FourBits(FourBits(c)) == BitSteps(c, 8)
  {
    hide BitStep;
    var d := FourBits(c);
    assert BitSteps(c, 8) == BitSteps(BitStep(BitStep(c)), 6);
    assert BitSteps(BitStep(BitStep(c)), 6) == BitSteps(d, 4);
    assert BitSteps(d, 4) == BitSteps(BitStep(BitStep(d)), 2);
  }

  /** The coefficients of a byte are its bits, least significant first, and zeros. */
  lemma ByteCoefficients(b: byte)
    ensures Coefficients(b as bv32, 32) == MessageBits([b]) + Rep(false, 24)
  {
    hide ShrBy, MaskBit, Odd, BitOf;
    var c, m := b as bv32, MessageBits([b]) + Rep(false, 24);
    forall i | 0 <= i < 32 ensures Coefficients(c, 32)[i] == m[i] {
      CoefficientAt(c, 32, i);
      if i < 8 {
        BitAt(c, i);
        MaskOfByte(b, i);
      } else {
        EightShifts(c);
        NothingAboveByte(b);
        ShrByAdds(c, 8, i - 8);
        ZeroShifts(i - 8);
      }
    }
  }

  lemma MaskOfByte(b: byte, k: nat)
    requires k < 8
    ensures MaskBit(b as bv32, k) == BitOf(b, 7 - k)
  {
    if k == 0 {} else if k == 1 {} else if k == 2 {} else if k == 3 {}
    else if k == 4 {} else if k == 5 {} else if k == 6 {} else {}
  }

  lemma NothingAboveByte(b: byte)
    ensures (b as bv32) >> 8 == 0
  {
  }

  lemma {:induction false} ZeroShifts(n: nat)
    ensures ShrBy(0, n) == 0 && !Odd(ShrBy(0, n))
    decreases n
  {
    if n > 0 { ZeroShifts(n - 1); }
  }

  lemma PresetByte(r: seq<bool>, m: seq<bool>)
    requires |r| == 32 && |m| == 8
    ensures XorBits(r, m + Rep(false, 24)) == Preset(r, m)
  {
  }

  /** A byte step takes the eight bits of its byte into the dividing register. */
  lemma ByteStepDivides(c: bv32, b: byte)
    ensures Coefficients(ByteStep(c, b), 32) == Shifted(Coefficients(c, 32), MessageBits([b]))
  {
    hide Coefficients, FourBits, DivSteps, Shifted, Preset, XorBits, MessageBits, BitSteps, Xor;
    XorIs(c, b as bv32);
    EightBitSteps(Xor(c, b as bv32));
    BitStepsDivide(Xor(c, b as bv32), 8);
    CoefficientsXor(c, b as bv32, 32);
    ByteCoefficients(b);
    PresetByte(Coefficients(c, 32), MessageBits([b]));
    ShiftedAtOnce(Coefficients(c, 32), MessageBits([b]));
  }

  lemma XorIs(a: bv32, b: bv32)
    ensures Xor(a, b) == a ^ b
  {
  }

  lemma MessageBitsConcat(a: seq<byte>, b: seq<byte>)
    ensures MessageBits(a + b) == MessageBits(a) + MessageBits(b)
  {
    hide BitOf;
  }

  lemma {:induction false} UpdateDivides(c: bv32, data: seq<byte>)
    ensures Coefficients(Update(c, data), 32) == Shifted(Coefficients(c, 32), MessageBits(data))
    decreases |data|
  {
    hide Coefficients, ByteStep, MessageBits, DivStep, Preset;
    if data == [] {
      NoBits();
    } else {
      var n := |data| - 1;
      UpdateDivides(c, data[..n]);
      ByteStepDivides(Update(c, data[..n]), data[n]);
      assert data == data[..n] + [data[n]];
      MessageBitsConcat(data[..n], [data[n]]);
      ShiftedConcat(Coefficients(c, 32), MessageBits(data[..n]), MessageBits([data[n]]));
    }
  }

  lemma NoBits()
    ensures MessageBits([]) == []
  {
  }

  lemma OnesCoefficients()
    ensures Coefficients(0xFFFF_FFFF, 32) == Rep(true, 32)
  {
    hide MaskBit, Coefficients;
    forall i | 0 <= i < 32 ensures Coefficients(0xFFFF_FFFF, 32)[i] {
      CoefficientIs(0xFFFF_FFFF, i);
      OnesBit(i / 8, i % 8);
    }
  }

  lemma OnesBit(j: nat, k: nat)
    requires j < 4 && k < 8
    ensures MaskBit(BytesDown(0xFFFF_FFFF, j), k)
  {
  }

  lemma FinishComplements(c: bv32)
    ensures Coefficients(Finish(c), 32) == Complemented(Coefficients(c, 32))
  {
    hide Coefficients, Xor;
    XorIs(c, 0xFFFF_FFFF);
    CoefficientsXor(c, 0xFFFF_FFFF, 32);
    OnesCoefficients();
  }

  /** The CRC-32 of any bytes: their bits, least significant first, with 32 zeros appended and the first 32
      coefficients complemented, divided by the generator; the remainder complemented, its highest power in the
      least significant bit. */
  lemma CrcIsRemainder(data: seq<byte>)
    ensures Coefficients(Of(data), 32)
            == Complemented(Remainder(Preset(MessageBits(data) + Rep(false, 32), Rep(true, 32))))
  {
    hide Coefficients, Update, Finish, MessageBits, Shifted, Remainder, Preset, Complemented;
    FinishComplements(Update(INIT, data));
    UpdateDivides(INIT, data);
    OnesCoefficients();
    DivisionByRegister(Rep(true, 32), MessageBits(data));
  }

  /** A register is determined by its coefficients. */
  lemma {:induction false} CoefficientsDetermine(c: bv32, d: bv32)
    requires Coefficients(c, 32) == Coefficients(d, 32)
    ensures c == d
  {
    hide Coefficients;
    forall j: nat, k: nat | j < 4 && k < 8 ensures MaskBit(BytesDown(c, j), k) == MaskBit(BytesDown(d, j), k) {
      CoefficientIs(c, 8 * j + k);
      CoefficientIs(d, 8 * j + k);
      assert (8 * j + k) / 8 == j && (8 * j + k) % 8 == k;
    }
    SameLowByte(BytesDown(c, 0), BytesDown(d, 0));
    SameLowByte(BytesDown(c, 1), BytesDown(d, 1));
    SameLowByte(BytesDown(c, 2), BytesDown(d, 2));
    SameLowByte(BytesDown(c, 3), BytesDown(d, 3));
    FromBytes(c);
    FromBytes(d);
  }

  lemma SameLowByte(c: bv32, d: bv32)
    requires forall k: nat :: k < 8 ==> MaskBit(c, k) == MaskBit(d, k)
    ensures c & 0xFF == d & 0xFF
  {
    assert MaskBit(c, 0) == MaskBit(d, 0) && MaskBit(c, 1) == MaskBit(d, 1) && MaskBit(c, 2) == MaskBit(d, 2);
    assert MaskBit(c, 3) == MaskBit(d, 3) && MaskBit(c, 4) == MaskBit(d, 4) && MaskBit(c, 5) == MaskBit(d, 5);
    assert MaskBit(c, 6) == MaskBit(d, 6) && MaskBit(c, 7) == MaskBit(d, 7);
  }

  lemma FromBytes(c: bv32)
    ensures c == (c & 0xFF) | (((c >> 8) & 0xFF) << 8) | (((c >> 16) & 0xFF) << 16) | (((c >> 24) & 0xFF) << 24)
  {
  }
}
