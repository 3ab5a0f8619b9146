/** Frames of common/packet.c: what encode puts on the wire, what decode accepts, and why the line
    ends on the level it started from. */
module Framing {
  import opened Bytes
  import Crc16

  const HEADER: nat := 4
  const CRC_BYTES: nat := 2
  const MIN_PAYLOAD: nat := 1
  const MAX_PAYLOAD: nat := 128
  const DMA_BYTES: nat := 148

  /** Preamble and sync word. */
  function Head(): (r: seq<byte>)
    ensures |r| == 4
  {
    [0xAA, 0xAA, 0x93, 0xC7]
  }

  function Postamble(): (r: seq<byte>)
    ensures |r| == 4
  {
    [0xFF, 0xFF, 0xFF, 0xFF]
  }

  datatype Message = Message(kind: byte, seqno: byte, payload: seq<byte>)

  predicate ValidLen(n: nat) { MIN_PAYLOAD <= n <= MAX_PAYLOAD }

  /** bmc_packet_total_bytes: header, payload and CRC, padded with one to four bytes to whole words. */
  function TotalBytes(len: nat): (r: nat)
    ensures r % 4 == 0 && HEADER + len + CRC_BYTES < r <= HEADER + len + CRC_BYTES + 4
  {
    var raw := HEADER + len + CRC_BYTES;
    raw + (4 - raw % 4)
  }

  /** What the CRC covers: LEN to the end of the payload. */
  function Body(m: Message): (r: seq<byte>)
    requires ValidLen(|m.payload|)
    ensures |r| == HEADER + |m.payload|
  {
    Fields(m) + m.payload
  }

  function Fields(m: Message): (r: seq<byte>)
    requires ValidLen(|m.payload|)
    ensures |r| == HEADER
  {
    [ByteOf(|m.payload|), m.kind, m.seqno, 0]
  }

  function CrcBytes(crc: bv16): (r: seq<byte>)
    ensures |r| == CRC_BYTES
  {
    [((crc >> 8) & 0xFF) as byte, (crc & 0xFF) as byte]
  }

  /** The frame before padding, from the preamble on. */
  function Raw(m: Message): (r: seq<byte>)
    requires ValidLen(|m.payload|)
    ensures |r| == 4 + HEADER + |m.payload| + CRC_BYTES
  {
    Head() + Body(m) + CrcBytes(Crc16.Of(Body(m)))
  }

  function Zeros(bits: seq<bool>): nat { if bits == [] then 0 else Zeros(bits[1..]) + if bits[0] then 0 else 1 }

  /** All ones, except that the last byte carries one zero when the frame has an odd number of them. */
  function Padding(m: Message): seq<byte>
    requires ValidLen(|m.payload|)
  {
    var n := TotalBytes(|m.payload|) - (HEADER + |m.payload| + CRC_BYTES);
    Rep(0xFF as byte, n - 1) + [if Zeros(Bits(Raw(m))) % 2 == 0 then 0xFF else 0xFE]
  }

  /** The bits the receiver consumes for one frame, and the packet as transmitted. */
  function Wire(m: Message): (r: seq<byte>)
    requires ValidLen(|m.payload|)
    ensures |r| == 4 + TotalBytes(|m.payload|)
  {
    Raw(m) + Padding(m)
  }

  function Sent(m: Message): (r: seq<byte>)
    requires ValidLen(|m.payload|)
    ensures |r| == 8 + TotalBytes(|m.payload|)
  {
    Wire(m) + Postamble()
  }

  lemma WireStarts(m: Message)
    requires ValidLen(|m.payload|)
    ensures Wire(m)[..4] == Head() && Wire(m)[4] == ByteOf(|m.payload|)
  {
    hide Crc16.Of, CrcBytes, Padding, TotalBytes, Head, ByteOf;
    assert Wire(m) == Head() + (Fields(m) + (m.payload + CrcBytes(Crc16.Of(Body(m))) + Padding(m)));
  }

  // ---- parity --------------------------------------------------------------------------------------

  lemma {:induction false} ZerosConcat(a: seq<bool>, b: seq<bool>)
    ensures Zeros(a + b) == Zeros(a) + Zeros(b)
  {
    if a == [] {
      assert a + b == b;
    } else {
      assert (a + b)[1..] == a[1..] + b;
      ZerosConcat(a[1..], b);
    }
  }

  function Weight(b: byte, k: nat): nat
    requires k < 8
  {
    if BitOf(b, k) then 1 else 0
  }

  /** __builtin_popcount of a byte. */
  function Popcount(b: byte): nat {
    Weight(b, 0) + Weight(b, 1) + Weight(b, 2) + Weight(b, 3) + Weight(b, 4) + Weight(b, 5) + Weight(b, 6)
      + Weight(b, 7)
  }

  function XorAll(s: seq<byte>): byte { if s == [] then 0 else Xor(XorAll(s[..|s| - 1]), s[|s| - 1]) }

  function Xor(a: byte, b: byte): byte { a ^ b }

  lemma XorBit(a: byte, b: byte, k: nat)
    requires k < 8
    ensures BitOf(Xor(a, b), k) == (BitOf(a, k) != BitOf(b, k))
  {
    if k == 0 {} else if k == 1 {} else if k == 2 {} else if k == 3 {} else if k == 4 {} else if k == 5 {}
      else if k == 6 {} else {}
  }

  /** Bits set in both operands. */
  function Both(a: byte, b: byte, k: nat): nat
    requires k < 8
  {
    if BitOf(a, k) && BitOf(b, k) then 1 else 0
  }

  lemma XorOnes(a: byte, b: byte, k: nat)
    requires k < 8
    ensures Weight(Xor(a, b), k) + 2 * Both(a, b, k) == Weight(a, k) + Weight(b, k)
  {
    hide BitOf, Xor;
    XorBit(a, b, k);
  }

  lemma SameParity(x: nat, y: nat, k: nat)
    requires x + 2 * k == y
    ensures x % 2 == y % 2
  {
  }

  lemma XorPopcount(a: byte, b: byte)
    ensures Popcount(Xor(a, b)) % 2 == (Popcount(a) + Popcount(b)) % 2
  {
    hide BitOf, Xor, Weight, Both;
    XorOnes(a, b, 0);
    XorOnes(a, b, 1);
    XorOnes(a, b, 2);
    XorOnes(a, b, 3);
    XorOnes(a, b, 4);
    XorOnes(a, b, 5);
    XorOnes(a, b, 6);
    XorOnes(a, b, 7);
    var both := Both(a, b, 0) + Both(a, b, 1) + Both(a, b, 2) + Both(a, b, 3) + Both(a, b, 4) + Both(a, b, 5)
      + Both(a, b, 6) + Both(a, b, 7);
    SameParity(Popcount(Xor(a, b)), Popcount(a) + Popcount(b), both);
  }

  lemma ZerosFrom(s: seq<bool>, i: nat)
    requires i < |s|
    ensures Zeros(s[i..]) == (if s[i] then 0 else 1) + Zeros(s[i + 1..])
  {
    assert s[i..][1..] == s[i + 1..];
  }

  lemma NoZeros()
    ensures Zeros([]) == 0
  {
  }

  lemma ZerosOfByte(b: byte)
    ensures Zeros(ByteBits(b)) == 8 - Popcount(b)
  {
    hide BitOf, Zeros, ByteBits;
    var s := ByteBits(b);
    forall k: nat | k < 8 ensures s[k] == BitOf(b, k) { BitOfByte(b, k); }
    ZerosFrom(s, 0);
    ZerosFrom(s, 1);
    ZerosFrom(s, 2);
    ZerosFrom(s, 3);
    ZerosFrom(s, 4);
    ZerosFrom(s, 5);
    ZerosFrom(s, 6);
    ZerosFrom(s, 7);
    assert s[0..] == s && s[8..] == [];
    NoZeros();
  }

  /** The fold is right: XOR over the bytes has the parity of all zero bits. */
  lemma {:induction false} XorFoldParity(s: seq<byte>)
    ensures Zeros(Bits(s)) % 2 == Popcount(XorAll(s)) % 2
  {
    hide BitOf, Popcount, Bits, Xor, Zeros, ByteBits, XorAll;
    if s == [] {
      NothingFolded();
    } else {
      var n := |s| - 1;
      XorFoldParity(s[..n]);
      assert s == s[..n] + [s[n]];
      ZerosOfNext(s[..n], s[n]);
      FoldNext(s);
      XorPopcount(XorAll(s[..n]), s[n]);
    }
  }

  lemma NothingFolded()
    ensures Zeros(Bits([])) == 0 && Popcount(XorAll([])) == 0
  {
    hide Popcount, Zeros, Bits;
    NothingSet();
    assert Bits([]) == [];
    NoZeros();
  }

  lemma FoldNext(s: seq<byte>)
    requires s != []
    ensures XorAll(s) == Xor(XorAll(s[..|s| - 1]), s[|s| - 1])
  {
    hide Xor;
  }

  /** One more byte adds the zeros it has. */
  lemma ZerosOfNext(t: seq<byte>, b: byte)
    ensures Zeros(Bits(t + [b])) == Zeros(Bits(t)) + 8 - Popcount(b)
  {
    hide BitOf, Popcount, Bits, Zeros, ByteBits;
    BitsConcat(t, [b]);
    OneByte(b);
    ZerosConcat(Bits(t), ByteBits(b));
    ZerosOfByte(b);
  }

  lemma NothingSet()
    ensures Popcount(0) == 0
  {
  }

  lemma AllSet(n: nat)
    ensures Zeros(Bits(Rep(0xFF as byte, n))) == 0
  {
    hide BitOf, Bits;
    if n == 0 {
      assert Bits(Rep(0xFF as byte, 0)) == [];
    } else {
      AllSet(n - 1);
      assert Rep(0xFF as byte, n) == Rep(0xFF as byte, n - 1) + [0xFF];
      BitsConcat(Rep(0xFF as byte, n - 1), [0xFF]);
      OneByte(0xFF);
      ZerosConcat(Bits(Rep(0xFF as byte, n - 1)), ByteBits(0xFF));
      LastBytes();
    }
  }

  lemma LastBytes()
    ensures Zeros(ByteBits(0xFF)) == 0 && Zeros(ByteBits(0xFE)) == 1
  {
    ZerosOfByte(0xFF);
    ZerosOfByte(0xFE);
  }

  /** Every packet, with padding and postamble, has an even number of zero bits. */
  lemma EvenZeros(m: Message)
    requires ValidLen(|m.payload|)
    ensures Zeros(Bits(Sent(m))) % 2 == 0
  {
    hide BitOf, Bits, Raw, Zeros;
    var pad := Padding(m);
    var n := |pad| - 1;
    var last := pad[n];
    assert Sent(m) == Raw(m) + (Rep(0xFF as byte, n) + ([last] + Postamble()));
    BitsConcat(Raw(m), Rep(0xFF as byte, n) + ([last] + Postamble()));
    BitsConcat(Rep(0xFF as byte, n), [last] + Postamble());
    BitsConcat([last], Postamble());
    OneByte(last);
    assert Postamble() == Rep(0xFF as byte, 4);
    AllSet(n);
    AllSet(4);
    ZerosConcat(ByteBits(last), Bits(Postamble()));
    ZerosConcat(Bits(Rep(0xFF as byte, n)), ByteBits(last) + Bits(Postamble()));
    ZerosConcat(Bits(Raw(m)), Bits(Rep(0xFF as byte, n)) + (ByteBits(last) + Bits(Postamble())));
    LastBytes();
  }

  // ---- encode --------------------------------------------------------------------------------------

  /** The DMA buffer: the count word, big-endian in memory, and the packet. */
  function DmaImage(m: Message): seq<byte>
    requires ValidLen(|m.payload|)
  {
    [0, 0, 0, ByteOf(|Sent(m)| / 4 - 1)] + Sent(m)
  }

  /** Append to the packet that starts at the second word. */
  method Append(dma: array<byte>, at: nat, data: seq<byte>, ghost written: seq<byte>) returns (end: nat)
    requires 4 <= at && at + |data| <= dma.Length && dma[4..at] == written
    modifies dma
    ensures end == at + |data| && dma[4..end] == written + data
  {
    for i := 0 to |data|
      invariant dma[4..at] == written && dma[at..at + i] == data[..i]
    {
      dma[at + i] := data[i];
      assert dma[at..at + i + 1] == dma[at..at + i] + [data[i]];
    }
    end := at + |data|;
    assert dma[4..end] == dma[4..at] + dma[at..end];
  }

  method XorFold(dma: array<byte>, from: nat, end: nat) returns (acc: byte)
    requires from <= end <= dma.Length
    ensures acc == XorAll(dma[from..end])
  {
    acc := 0;
    for i := from to end
      invariant acc == XorAll(dma[from..i])
    {
      assert dma[from..i + 1][..i - from] == dma[from..i];
      acc := Xor(acc, dma[i]);
    }
  }

  /** Preamble, sync word, header, payload and CRC. */
  method Serialize(dma: array<byte>, m: Message) returns (at: nat)
    requires dma.Length == DMA_BYTES && ValidLen(|m.payload|)
    modifies dma
    ensures at == 4 + |Raw(m)| && dma[4..at] == Raw(m)
  {
    hide Crc16.Update, CrcBytes, Head, Fields;
    at := Append(dma, 4, Head(), []);
    at := Append(dma, at, Fields(m), Head());
    at := Append(dma, at, m.payload, Head() + Fields(m));
    Rejoined(Head(), Fields(m), m.payload);
    assert dma[8..at] == dma[4..at][4..];
    var crc := Crc16.TableUpdate(Crc16.INIT, dma[8..at]);
    at := Append(dma, at, CrcBytes(crc), Head() + Body(m));
  }

  lemma Rejoined(a: seq<byte>, b: seq<byte>, c: seq<byte>)
    requires |a| == 4
    ensures a + b + c == a + (b + c) && (a + b + c)[4..] == b + c && [] + a == a
  {
    var t, r := a + b + c, b + c;
    assert t == a + r;
    assert t[4..] == r;
    assert [] + a == a;
  }

  /** bmc_packet_encode: the number of words to transfer, or 0 for a payload length out of range. */
  method Encode(dma: array<byte>, m: Message) returns (words: nat)
    requires dma.Length == DMA_BYTES
    modifies dma
    ensures !ValidLen(|m.payload|) ==> words == 0 && dma[..] == old(dma[..])
    ensures ValidLen(|m.payload|) ==>
              words == |Sent(m)| / 4 + 1 && 4 * words <= DMA_BYTES && dma[..4 * words] == DmaImage(m)
  {
    hide Raw, Bits, Zeros, Popcount, XorAll, Postamble, Padding, Wire, Sent, TotalBytes, DmaImage, ByteOf;
    var len := |m.payload|;
    if len < MIN_PAYLOAD || len > MAX_PAYLOAD { return 0; }
    var at := Serialize(dma, m);
    var acc := XorFold(dma, 4, at);
    XorFoldParity(Raw(m));
    var ones := Rep(0xFF as byte, TotalBytes(len) - (HEADER + len + CRC_BYTES) - 1);
    var last: byte := if Popcount(acc) % 2 == 0 then 0xFF else 0xFE;
    PacketParts(m, last);
    words := Finish(dma, at, ones, last, m);
  }

  /** Padding, postamble and the count word. */
  method Finish(dma: array<byte>, start: nat, ones: seq<byte>, last: byte, ghost m: Message) returns (words: nat)
    requires dma.Length == DMA_BYTES && ValidLen(|m.payload|) && 4 <= start
    requires start + |ones| + 5 == 4 + |Sent(m)| && |Sent(m)| % 4 == 0 && |Sent(m)| + 4 <= DMA_BYTES
    requires dma[4..start] == Raw(m) && Raw(m) + ones + [last] == Wire(m) && Sent(m) == Wire(m) + Postamble()
    modifies dma
    ensures words == |Sent(m)| / 4 + 1 && 4 * words <= DMA_BYTES && dma[..4 * words] == DmaImage(m)
  {
    hide Raw, Postamble, Padding, Wire, Sent, ByteOf;
    var at := Append(dma, start, ones, Raw(m));
    at := Append(dma, at, [last], Raw(m) + ones);
    at := Append(dma, at, Postamble(), Wire(m));
    words := (at - 4) / 4 + 1;
    Count(dma, at, words - 2);
  }

  lemma PacketParts(m: Message, last: byte)
    requires ValidLen(|m.payload|) && last == if Zeros(Bits(Raw(m))) % 2 == 0 then 0xFF else 0xFE
    ensures Raw(m) + Rep(0xFF as byte, TotalBytes(|m.payload|) - (HEADER + |m.payload| + CRC_BYTES) - 1) + [last]
            == Wire(m)
    ensures Sent(m) == Wire(m) + Postamble()
    ensures |Sent(m)| % 4 == 0 && 8 < |Sent(m)| <= DMA_BYTES - 4
  {
    hide Raw, Bits, Zeros, Postamble;
  }

  /** The count word goes in front of the packet. */
  method Count(dma: array<byte>, end: nat, count: nat)
    requires 4 <= end <= dma.Length && count < 256
    modifies dma
    ensures dma[..end] == [0, 0, 0, ByteOf(count)] + old(dma[4..end])
  {
    ghost var sent := dma[4..end];
    dma[0], dma[1], dma[2], dma[3] := 0, 0, 0, ByteOf(count);
    assert dma[4..end] == sent;
    assert dma[..4] == [0, 0, 0, ByteOf(count)];
    assert dma[..end] == dma[..4] + dma[4..end];
  }

  // ---- decode --------------------------------------------------------------------------------------

  datatype Decoding = Accepted(total: nat, m: Message) | TooSmall | InvalidLen | FrameIncomplete | CrcMismatch

  /** What bmc_packet_decode says about the bytes after a sync word. */
  function Decode(frame: seq<byte>): Decoding {
    if |frame| < HEADER + MIN_PAYLOAD + CRC_BYTES then TooSmall
    else
      var len := Val(frame[0]);
      if !ValidLen(len) then InvalidLen
      else if |frame| < TotalBytes(len) then FrameIncomplete
      else if Crc16.Of(frame[..HEADER + len]) != Crc16.Pair(frame[HEADER + len], frame[HEADER + len + 1])
        then CrcMismatch
      else Accepted(TotalBytes(len), Message(frame[1], frame[2], frame[HEADER..HEADER + len]))
  }

  /** bmc_packet_decode. */
  method DecodeFrame(frame: seq<byte>) returns (r: Decoding)
    ensures r == Decode(frame)
  {
    hide Crc16.Update, Crc16.Pair, Val, TotalBytes;
    if |frame| < HEADER + MIN_PAYLOAD + CRC_BYTES { return TooSmall; }
    var len := Val(frame[0]);
    if len < MIN_PAYLOAD || len > MAX_PAYLOAD { return InvalidLen; }
    var total := TotalBytes(len);
    if |frame| < total { return FrameIncomplete; }
    var crc := Crc16.TableUpdate(Crc16.INIT, frame[..HEADER + len]);
    var received := Crc16.Pair(frame[HEADER + len], frame[HEADER + len + 1]);
    if crc != received { return CrcMismatch; }
    return Accepted(total, Message(frame[1], frame[2], frame[HEADER..HEADER + len]));
  }

  lemma CrcBytesPair(crc: bv16)
    ensures Crc16.Pair(CrcBytes(crc)[0], CrcBytes(crc)[1]) == crc
  {
  }

  /** Decoding what encode put after the sync word gives the message back. */
  lemma DecodeInverts(m: Message)
    requires ValidLen(|m.payload|)
    ensures Decode(Wire(m)[4..]) == Accepted(TotalBytes(|m.payload|), m)
  {
    hide Crc16.Of, CrcBytes, Padding, TotalBytes, Head, Crc16.Pair, Zeros, Val, ByteOf;
    var frame, crc := Wire(m)[4..], CrcBytes(Crc16.Of(Body(m)));
    var n := |m.payload|;
    assert Wire(m) == Head() + (Body(m) + (crc + Padding(m)));
    assert frame == Body(m) + (crc + Padding(m));
    assert frame[..HEADER + n] == Body(m);
    assert frame[HEADER + n] == crc[0] && frame[HEADER + n + 1] == crc[1];
    assert frame[0] == ByteOf(n) && frame[1] == m.kind && frame[2] == m.seqno;
    assert frame[HEADER..HEADER + n] == m.payload;
    ValOf(n);
    CrcBytesPair(Crc16.Of(Body(m)));
  }

  /** Where decode finds the fields, and when it says what: the first reason not to accept. */
  lemma DecodeVerdicts(f: seq<byte>)
    ensures Decode(f).TooSmall? <==> |f| < 7
    ensures |f| >= 7 ==> (Decode(f).InvalidLen? <==> !(1 <= Val(f[0]) <= 128))
    ensures |f| >= 7 && 1 <= Val(f[0]) <= 128 ==>
              var n := Val(f[0]);
              && (Decode(f).FrameIncomplete? <==> |f| < TotalBytes(n))
              && (|f| >= TotalBytes(n) ==>
                    if Crc16.Of(f[..4 + n]) == ((f[4 + n] as bv16) << 8) | (f[5 + n] as bv16)
                    then Decode(f) == Accepted(TotalBytes(n), Message(f[1], f[2], f[4..4 + n]))
                    else Decode(f).CrcMismatch?)
  {
    hide Crc16.Of, Val;
  }

  /** The bytes of a frame on the wire, each at its place: preamble and sync word, length, type, sequence
      number, a zero, the payload, the CRC over all from the length on with its most significant byte first, and
      padding of ones of which only the very last bit may be cleared. */
  lemma FrameLayout(m: Message)
    requires ValidLen(|m.payload|)
    ensures var w, n := Wire(m), |m.payload|;
            && |w| == 4 + TotalBytes(n) >= 11 + n
            && w[..4] == [0xAA, 0xAA, 0x93, 0xC7]
            && Val(w[4]) == n && w[5] == m.kind && w[6] == m.seqno && w[7] == 0 && w[8..8 + n] == m.payload
            && ((w[8 + n] as bv16) << 8) | (w[9 + n] as bv16) == Crc16.Of(w[4..8 + n])
            && (forall i :: 10 + n <= i < |w| - 1 ==> w[i] == 0xFF)
            && (w[|w| - 1] == 0xFF || w[|w| - 1] == 0xFE)
  {
    hide Crc16.Of, CrcBytes, Zeros, Val, ByteOf, Bits, TotalBytes;
    var w, n := Wire(m), |m.payload|;
    var crc := CrcBytes(Crc16.Of(Body(m)));
    assert w == Head() + (Body(m) + (crc + Padding(m)));
    assert w[4..8 + n] == Body(m);
    assert w[8..8 + n] == m.payload;
    assert w[8 + n] == crc[0] && w[9 + n] == crc[1];
    assert w[10 + n..] == Padding(m);
    forall i | 10 + n <= i < |w| ensures w[i] == Padding(m)[i - (10 + n)] { assert w[i] == w[10 + n..][i - (10 + n)]; }
    ValOf(n);
    CrcBytesPair(Crc16.Of(Body(m)));
    PairIs(crc[0], crc[1]);
  }

  lemma PairIs(h: byte, l: byte)
    ensures Crc16.Pair(h, l) == ((h as bv16) << 8) | (l as bv16)
  {
  }

  /** Decode looks at nothing after the CRC but the number of bytes. */
  lemma DecodePrefix(f: seq<byte>, g: seq<byte>, len: nat)
    requires |f| == |g| && ValidLen(len) && HEADER + len + CRC_BYTES <= |f| && Val(f[0]) == len
    requires f[..HEADER + len + CRC_BYTES] == g[..HEADER + len + CRC_BYTES]
    ensures Decode(f) == Decode(g)
  {
    hide Crc16.Of, Crc16.Pair, Val, TotalBytes;
    var n := HEADER + len + CRC_BYTES;
    forall i | 0 <= i < n ensures f[i] == g[i] { assert f[..n][i] == g[..n][i]; }
    assert f[..HEADER + len] == g[..HEADER + len];
    assert f[HEADER..HEADER + len] == g[HEADER..HEADER + len];
  }

  /** A change confined to two adjacent bytes of TYPE to the end of the payload is always rejected. */
  lemma AdjacentChangeRejected(f: seq<byte>, g: seq<byte>, i: nat)
    requires Decode(f).Accepted? && |g| == |f| && f != g
    requires 1 <= i && i + 2 <= HEADER + Val(f[0]) <= |f|
    requires f[..i] == g[..i] && f[i + 2..] == g[i + 2..]
    ensures Decode(g) == CrcMismatch
  {
    hide Crc16.Of, Crc16.Pair, Val, TotalBytes;
    var n := HEADER + Val(f[0]);
    Confined(f, g, i, n);
    Crc16.AdjacentBytesDetected(f[..n], g[..n], i);
  }

  lemma Confined(f: seq<byte>, g: seq<byte>, i: nat, n: nat)
    requires |g| == |f| && f != g && 1 <= i && i + 2 <= n <= |f|
    requires f[..i] == g[..i] && f[i + 2..] == g[i + 2..]
    ensures f[0] == g[0] && f[..n] != g[..n] && f[..n][..i] == g[..n][..i] && f[..n][i + 2..] == g[..n][i + 2..]
    ensures forall k :: n <= k < |f| ==> f[k] == g[k]
  {
    assert f[..i][0] == f[0] && g[..i][0] == g[0];
    assert f[..n][..i] == f[..i] && g[..n][..i] == g[..i];
    assert f[..n][i + 2..] == f[i + 2..][..n - (i + 2)];
    assert g[..n][i + 2..] == g[i + 2..][..n - (i + 2)];
    forall k | n <= k < |f| ensures f[k] == g[k] {
      assert f[k] == f[i + 2..][k - (i + 2)];
    }
    assert f == f[..n] + f[n..] && g == g[..n] + g[n..];
  }
}
