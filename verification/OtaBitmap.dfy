/** The byte-packed chunk bitmap of ota/ota_protocol.h and ota/ota_protocol.c: bit i of the map is
    bit i % 8 of byte i / 8. */
module OtaBitmap {
  import opened Bytes
  import opened OtaProtocol

  const BITMAP_BYTES: nat := 67

  /** Bit k of a byte, counting from the least significant one. */
  predicate LowBit(b: byte, k: nat)
    requires k < 8
  {
    (b >> k) & 1 != 0
  }

  function WithBit(b: byte, k: nat): byte
    requires k < 8
  {
    b | ((1 as byte) << k)
  }

  function WithoutBit(b: byte, k: nat): byte
    requires k < 8
  {
    b & !((1 as byte) << k)
  }

  /** The bits a packed bitmap stands for. */
  function Unpacked(bytes: seq<byte>): (bits: seq<bool>)
    ensures |bits| == 8 * |bytes|
  {
    seq(8 * |bytes|, i requires 0 <= i < 8 * |bytes| => LowBit(bytes[i / 8], i % 8))
  }

  function Mask(k: nat): byte
    requires k < 8
  {
    if k == 0 then 0x01 else if k == 1 then 0x02 else if k == 2 then 0x04 else if k == 3 then 0x08
    else if k == 4 then 0x10 else if k == 5 then 0x20 else if k == 6 then 0x40 else 0x80
  }

  lemma MaskIsShift(b: byte, k: nat)
    requires k < 8
    ensures LowBit(b, k) == (b & Mask(k) != 0)
    ensures WithBit(b, k) == b | Mask(k) && WithoutBit(b, k) == b & !Mask(k)
  {
    if k == 0 {} else if k == 1 {} else if k == 2 {} else if k == 3 {} else if k == 4 {} else if k == 5 {}
      else if k == 6 {} else {}
  }

  lemma MasksMeet(k: nat, j: nat)
    requires k < 8 && j < 8
    ensures Mask(k) & Mask(j) == (if j == k then Mask(j) else 0) && Mask(j) != 0
  {
  }

  /** What setting and clearing the bits of a mask does under another mask that is in it or apart from it. */
  lemma Masked(b: byte, m: byte, n: byte)
    requires n != 0
    ensures m & n == n ==> (b | m) & n != 0 && (b & !m) & n == 0
    ensures m & n == 0 ==> (b | m) & n == b & n && (b & !m) & n == b & n
  {
    OrMasked(b, m, n);
    AndMasked(b, m, n);
  }

  lemma OrMasked(b: byte, m: byte, n: byte)
    ensures (b | m) & n == (b & n) | (m & n)
    ensures (b & n) | n == n && (b & n) | 0 == b & n
  {
  }

  lemma AndMasked(b: byte, m: byte, n: byte)
    ensures m & n == n ==> (b & !m) & n == 0
    ensures m & n == 0 ==> (b & !m) & n == b & n
  {
  }

  /** Setting and clearing touch one bit of the byte and no other. */
  lemma OneBit(b: byte, k: nat, j: nat)
    requires k < 8 && j < 8
    ensures LowBit(WithBit(b, k), j) == (j == k || LowBit(b, j))
    ensures LowBit(WithoutBit(b, k), j) == (j != k && LowBit(b, j))
  {
    hide LowBit, Mask, WithBit, WithoutBit;
    MaskIsShift(b, k);
    MaskIsShift(b, j);
    MaskIsShift(b | Mask(k), j);
    MaskIsShift(b & !Mask(k), j);
    MasksMeet(k, j);
    Masked(b, Mask(k), Mask(j));
  }

  lemma OneBitOfMap(bytes: seq<byte>, i: nat)
    requires i < 8 * |bytes|
    ensures Unpacked(bytes[i / 8 := WithBit(bytes[i / 8], i % 8)]) == Unpacked(bytes)[i := true]
    ensures Unpacked(bytes[i / 8 := WithoutBit(bytes[i / 8], i % 8)]) == Unpacked(bytes)[i := false]
  {
    hide LowBit, WithBit, WithoutBit;
    var b := bytes[i / 8];
    var up, down := bytes[i / 8 := WithBit(b, i % 8)], bytes[i / 8 := WithoutBit(b, i % 8)];
    forall j | 0 <= j < 8 * |bytes|
      ensures Unpacked(up)[j] == Unpacked(bytes)[i := true][j] && Unpacked(down)[j] == Unpacked(bytes)[i := false][j]
    {
      OneBit(b, i % 8, j % 8);
      assert j == i <==> j / 8 == i / 8 && j % 8 == i % 8;
    }
  }

  /** ota_bm_get. */
  method Get(bm: array<byte>, i: nat) returns (r: bool)
    requires i < 8 * bm.Length
    ensures r == Unpacked(bm[..])[i]
  {
    r := (bm[i / 8] >> (i % 8)) & 1 != 0;
  }

  /** ota_bm_set. */
  method Set(bm: array<byte>, i: nat)
    requires i < 8 * bm.Length
    modifies bm
    ensures Unpacked(bm[..]) == old(Unpacked(bm[..]))[i := true]
  {
    hide LowBit, WithBit;
    OneBitOfMap(bm[..], i);
    bm[i / 8] := WithBit(bm[i / 8], i % 8);
  }

  /** ota_bm_clear. */
  method Clear(bm: array<byte>, i: nat)
    requires i < 8 * bm.Length
    modifies bm
    ensures Unpacked(bm[..]) == old(Unpacked(bm[..]))[i := false]
  {
    hide LowBit, WithoutBit;
    OneBitOfMap(bm[..], i);
    bm[i / 8] := WithoutBit(bm[i / 8], i % 8);
  }

  /** ota_bm_count_missing. */
  method CountMissing(bm: array<byte>, total: nat) returns (missing: nat)
    requires total <= 8 * bm.Length
    ensures missing == Missing(Unpacked(bm[..]), total)
  {
    missing := 0;
    for i := 0 to total
      invariant missing == Missing(Unpacked(bm[..]), i)
    {
      var have := Get(bm, i);
      if !have { missing := missing + 1; }
    }
  }

  /** ota_bm_find_next_missing. */
  method FindNextMissing(bm: array<byte>, start: nat, total: nat) returns (r: nat)
    requires total <= 8 * bm.Length
    ensures r == NextMissing(Unpacked(bm[..]), start, total)
  {
    var i := start;
    while i < total
      invariant start <= i && NextMissing(Unpacked(bm[..]), start, total) == NextMissing(Unpacked(bm[..]), i, total)
      invariant start <= total ==> i <= total
    {
      var have := Get(bm, i);
      if !have { return i; }
      i := i + 1;
    }
    return total;
  }

  /** memset(bitmap, 0). */
  method Wipe(bm: array<byte>)
    modifies bm
    ensures Unpacked(bm[..]) == Rep(false, 8 * bm.Length)
  {
    for i := 0 to bm.Length
      invariant forall k :: 0 <= k < i ==> bm[k] == 0
    {
      bm[i] := 0;
    }
    forall j | 0 <= j < 8 * bm.Length ensures !Unpacked(bm[..])[j] { NoLowBit(j % 8); }
  }

  lemma NoLowBit(k: nat)
    requires k < 8
    ensures !LowBit(0, k)
  {
    MaskIsShift(0, k);
  }

  /** The first total bits of a map, cut to the bytes that cover them: what a reply carries. */
  lemma UnpackedPrefix(bytes: seq<byte>, n: nat)
    requires n <= |bytes|
    ensures Unpacked(bytes[..n]) == Unpacked(bytes)[..8 * n]
  {
    hide LowBit;
  }
}
