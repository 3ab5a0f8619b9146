/** Bytes, and the bits they put on the wire (most significant bit first). */
module Bytes {

  type byte = bv8

  /** Bit k of a byte, counting from the most significant one. */
  function BitOf(b: byte, k: nat): bool
    requires k < 8
  {
    if k == 0 then b & 0x80 != 0 else if k == 1 then b & 0x40 != 0
    else if k == 2 then b & 0x20 != 0 else if k == 3 then b & 0x10 != 0
    else if k == 4 then b & 0x08 != 0 else if k == 5 then b & 0x04 != 0
    else if k == 6 then b & 0x02 != 0 else b & 0x01 != 0
  }

  function ByteBits(b: byte): (r: seq<bool>)
    ensures |r| == 8
  {
    [BitOf(b, 0), BitOf(b, 1), BitOf(b, 2), BitOf(b, 3), BitOf(b, 4), BitOf(b, 5), BitOf(b, 6), BitOf(b, 7)]
  }

  /** The bits of a buffer in transmission order. */
  function Bits(s: seq<byte>): (r: seq<bool>)
    ensures |r| == 8 * |s|
  {
    seq(8 * |s|, i requires 0 <= i < 8 * |s| => BitOf(s[i / 8], i % 8))
  }

  lemma BitOfByte(b: byte, k: nat)
    requires k < 8
    ensures ByteBits(b)[k] == BitOf(b, k)
  {
    hide BitOf;
  }

  lemma BitInByte(s: seq<byte>, index: nat, k: nat)
    requires index < |s| && k < 8
    ensures 8 * index + k < 8 * |s| && Bits(s)[8 * index + k] == ByteBits(s[index])[k]
  {
    hide BitOf;
    assert (8 * index + k) / 8 == index && (8 * index + k) % 8 == k;
  }

  function FromBits(s: seq<bool>): byte
    requires |s| == 8
  {
    (if s[0] then 0x80 else 0) | (if s[1] then 0x40 else 0) | (if s[2] then 0x20 else 0) | (if s[3] then 0x10 else 0)
    | (if s[4] then 0x08 else 0) | (if s[5] then 0x04 else 0) | (if s[6] then 0x02 else 0) | (if s[7] then 0x01 else 0)
  }

  /** The number a byte holds, and the byte that holds a number. */
  function Val(b: byte): (r: nat) {
    (if BitOf(b, 0) then 128 else 0) + (if BitOf(b, 1) then 64 else 0)
    + (if BitOf(b, 2) then 32 else 0) + (if BitOf(b, 3) then 16 else 0)
    + (if BitOf(b, 4) then 8 else 0) + (if BitOf(b, 5) then 4 else 0)
    + (if BitOf(b, 6) then 2 else 0) + (if BitOf(b, 7) then 1 else 0)
  }

  function Digits(n: nat): (r: seq<bool>)
    ensures |r| == 8
  {
    var n1 := n / 2;
    var n2 := n1 / 2;
    var n3 := n2 / 2;
    var n4 := n3 / 2;
    var n5 := n4 / 2;
    var n6 := n5 / 2;
    var n7 := n6 / 2;
    [n7 % 2 == 1, n6 % 2 == 1, n5 % 2 == 1, n4 % 2 == 1, n3 % 2 == 1, n2 % 2 == 1, n1 % 2 == 1, n % 2 == 1]
  }

  function ByteOf(n: nat): byte
    requires n < 256
  {
    FromBits(Digits(n))
  }

  lemma DigitsSum(n: nat)
    requires n < 256
    ensures var d := Digits(n);
            (if d[0] then 128 else 0) + (if d[1] then 64 else 0) + (if d[2] then 32 else 0) + (if d[3] then 16 else 0)
            + (if d[4] then 8 else 0) + (if d[5] then 4 else 0) + (if d[6] then 2 else 0) + (if d[7] then 1 else 0) == n
  {
    var d := Digits(n);
    var n1 := n / 2;
    var n2 := n1 / 2;
    var n3 := n2 / 2;
    var n4 := n3 / 2;
    var n5 := n4 / 2;
    var n6 := n5 / 2;
    assert n6 / 2 == if d[0] then 1 else 0;
    assert n6 == 2 * (n6 / 2) + if d[1] then 1 else 0;
    assert n5 == 2 * n6 + if d[2] then 1 else 0;
    assert n4 == 2 * n5 + if d[3] then 1 else 0;
    assert n3 == 2 * n4 + if d[4] then 1 else 0;
    assert n2 == 2 * n3 + if d[5] then 1 else 0;
    assert n1 == 2 * n2 + if d[6] then 1 else 0;
    assert n == 2 * n1 + if d[7] then 1 else 0;
  }

  lemma ValOf(n: nat)
    requires n < 256
    ensures Val(ByteOf(n)) == n
  {
    hide BitOf, FromBits, Digits;
    forall k: nat | k < 8 ensures BitOf(ByteOf(n), k) == Digits(n)[k] { BitOfFromBits(Digits(n), k); }
    DigitsSum(n);
  }

  lemma FromByteBits(b: byte)
    ensures FromBits(ByteBits(b)) == b
  {
  }

  lemma BitOfFromBits(s: seq<bool>, k: nat)
    requires |s| == 8 && k < 8
    ensures BitOf(FromBits(s), k) == s[k]
  {
  }

  lemma ByteBitsFrom(s: seq<bool>)
    requires |s| == 8
    ensures ByteBits(FromBits(s)) == s
  {
    hide BitOf, FromBits;
    forall k: nat | k < 8 ensures ByteBits(FromBits(s))[k] == s[k] { BitOfFromBits(s, k); }
  }

  lemma OneByte(b: byte)
    ensures Bits([b]) == ByteBits(b)
  {
    hide BitOf;
  }

  lemma BitsConcat(a: seq<byte>, b: seq<byte>)
    ensures Bits(a + b) == Bits(a) + Bits(b)
  {
  }

  /** The bytes whose bits a whole number of octets are. */
  function Packed(bits: seq<bool>): (r: seq<byte>)
    requires |bits| % 8 == 0
    ensures |r| == |bits| / 8
  {
    seq(|bits| / 8, i requires 0 <= i < |bits| / 8 => FromBits(bits[8 * i..8 * i + 8]))
  }

  lemma PackedBits(s: seq<byte>)
    ensures Packed(Bits(s)) == s
  {
    hide BitOf, FromBits;
    forall i | 0 <= i < |s| ensures Packed(Bits(s))[i] == s[i] {
      forall k: nat | k < 8 ensures Bits(s)[8 * i..8 * i + 8][k] == ByteBits(s[i])[k] { BitInByte(s, i, k); }
      assert Bits(s)[8 * i..8 * i + 8] == ByteBits(s[i]);
      FromByteBits(s[i]);
    }
  }

  function Rep<T>(x: T, n: nat): (r: seq<T>)
    ensures |r| == n
  {
    seq(n, _ => x)
  }

  /** s with the |d| elements from position off on replaced by d: what memcpy does. */
  function Paste<T>(s: seq<T>, off: nat, d: seq<T>): (r: seq<T>)
    requires off + |d| <= |s|
    ensures |r| == |s|
    ensures forall i :: 0 <= i < |s| ==> r[i] == if off <= i < off + |d| then d[i - off] else s[i]
  {
    s[..off] + d + s[off + |d|..]
  }
}
