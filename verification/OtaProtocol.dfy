/** Constants, packets and chunk arithmetic of ota/ota_protocol.h, and what an honest packet says. */
module OtaProtocol {
  import opened Bytes
  import Crc32

  const MAGIC: nat := 0x4F54
  const WINDOW: nat := 65536
  const CHUNK: nat := 124
  const MAX_CHUNKS: nat := 529
  const BITMAP_BITS: nat := 536
  const MAX_FLASH_RETRIES: nat := 3
  const MAX_WINDOWS: nat := 256

  datatype Status = Ok | ErrMagic | ErrSize | ErrCrcMismatch | ErrErase | ErrProgram | ErrVerify

  /** Packets from the sender to the receiver. */
  datatype Request =
    | Start(magic: nat, totalSize: nat, imageCrc: bv32, totalWindows: nat)
    | Data(win: nat, chunk: nat, data: seq<byte>)
    | Query(win: nat, winCrc: bv32, winBytes: nat)
    | Finalize(imageCrc: bv32)
    | Abort

  /** Packets from the receiver to the sender; bitmap holds the bits of bitmap_bytes bytes. */
  datatype Reply =
    | StartAck(status: Status, credit: nat)
    | QueryResp(win: nat, missing: nat, bitmap: seq<bool>)
    | Ready(win: nat, status: Status, credit: nat)
    | Report(status: Status, stagedCrc: bv32)
    | Aborted

  /** The uint16_t chunk count computed from a uint32_t byte count. */
  function ChunkCount(bytes: nat): nat { ((bytes + CHUNK - 1) % 0x1_0000_0000 / CHUNK) % 0x1_0000 }

  /** The uint16_t window count computed from a uint32_t size. */
  function WindowCount(size: nat): nat { ((size + WINDOW - 1) % 0x1_0000_0000 / WINDOW) % 0x1_0000 }

  /** Valid bytes of window w of an image of the given size. */
  function WindowBytes(size: nat, w: nat): nat {
    var remaining := if size > w * WINDOW then size - w * WINDOW else 0;
    if remaining > WINDOW then WINDOW else remaining
  }

  /** Payload bytes of the chunk that starts at an offset. */
  function ChunkBytes(size: nat, offset: nat): nat {
    var left := if size > offset then size - offset else 0;
    if left > CHUNK then CHUNK else left
  }

  function Window(image: seq<byte>, w: nat): seq<byte>
    requires w * WINDOW <= |image|
  {
    image[w * WINDOW..w * WINDOW + WindowBytes(|image|, w)]
  }

  /** The payload the sender reads for chunk c of window w; it may run into the next window. */
  function ChunkData(image: seq<byte>, w: nat, c: nat): seq<byte>
    requires w * WINDOW + c * CHUNK <= |image|
  {
    var offset := w * WINDOW + c * CHUNK;
    image[offset..offset + ChunkBytes(|image|, offset)]
  }

  // ---- bitmaps -----------------------------------------------------------------------------

  function Missing(bitmap: seq<bool>, total: nat): nat
    requires total <= |bitmap|
  {
    if total == 0 then 0 else Missing(bitmap, total - 1) + if bitmap[total - 1] then 0 else 1
  }

  function NextMissing(bitmap: seq<bool>, start: nat, total: nat): nat
    requires total <= |bitmap|
    decreases total - start
  {
    if start >= total then total else if !bitmap[start] then start else NextMissing(bitmap, start + 1, total)
  }

  function NoBits(): seq<bool> { Rep(false, BITMAP_BITS) }

  /** Bitmap bytes that cover a chunk count, as bits. */
  function CoveringBits(total: nat): nat { 8 * ((total + 7) / 8) }

  lemma {:induction false} MissingBound(bitmap: seq<bool>, total: nat)
    requires total <= |bitmap|
    ensures Missing(bitmap, total) <= total
    ensures Missing(bitmap, total) == 0 <==> forall i :: 0 <= i < total ==> bitmap[i]
    ensures Missing(bitmap, total) == total <==> forall i :: 0 <= i < total ==> !bitmap[i]
  {
    if total > 0 { MissingBound(bitmap, total - 1); }
  }

  /** Setting one clear bit lowers the count by exactly one. */
  lemma {:induction false} MissingSet(bitmap: seq<bool>, total: nat, c: nat)
    requires total <= |bitmap| && c < |bitmap| && !bitmap[c]
    ensures Missing(bitmap[c := true], total) == Missing(bitmap, total) - if c < total then 1 else 0
  {
    if total > 0 { MissingSet(bitmap, total - 1, c); }
  }

  lemma {:induction false} MissingPrefix(a: seq<bool>, b: seq<bool>, total: nat)
    requires total <= |a| && total <= |b| && a[..total] == b[..total]
    ensures Missing(a, total) == Missing(b, total)
  {
    if total > 0 {
      assert a[total - 1] == a[..total][total - 1] == b[..total][total - 1];
      assert a[..total - 1] == a[..total][..total - 1] == b[..total - 1];
      MissingPrefix(a, b, total - 1);
    }
  }

  /** find_next_missing returns the first clear bit from start on, or total. */
  lemma {:induction false} NextMissingFirst(bitmap: seq<bool>, start: nat, total: nat)
    requires total <= |bitmap|
    ensures var r := NextMissing(bitmap, start, total);
            r <= total && (start <= total ==> start <= r) && (r < total ==> !bitmap[r])
            && forall i :: start <= i < r ==> bitmap[i]
    decreases total - start
  {
    if start < total && bitmap[start] { NextMissingFirst(bitmap, start + 1, total); }
  }

  // ---- images and honest packets -------------------------------------------------------------

  /** An image the one-byte window index of the wire format can address. */
  predicate Addressable(image: seq<byte>) { 0 < |image| <= MAX_WINDOWS * WINDOW }

  lemma WindowFacts(size: nat, w: nat)
    requires 0 < size <= MAX_WINDOWS * WINDOW && w < WindowCount(size)
    ensures 0 < WindowCount(size) <= MAX_WINDOWS
    ensures w * WINDOW < size && 0 < WindowBytes(size, w) <= WINDOW && w * WINDOW + WindowBytes(size, w) <= size
    ensures w * WINDOW + WindowBytes(size, w) == if w + 1 < WindowCount(size) then (w + 1) * WINDOW else size
    ensures 0 < ChunkCount(WindowBytes(size, w)) <= MAX_CHUNKS
  {
  }

  lemma WindowCountFacts(size: nat)
    requires 0 < size <= MAX_WINDOWS * WINDOW
    ensures 0 < WindowCount(size) <= MAX_WINDOWS
    ensures (WindowCount(size) - 1) * WINDOW < size <= WindowCount(size) * WINDOW
  {
  }

  lemma ChunkFacts(bytes: nat, c: nat)
    requires bytes <= WINDOW && c < ChunkCount(bytes)
    ensures ChunkCount(bytes) <= MAX_CHUNKS
    ensures c * CHUNK < bytes
    ensures c + 1 < ChunkCount(bytes) ==> (c + 1) * CHUNK <= bytes
    ensures c + 1 == ChunkCount(bytes) ==> bytes <= (c + 1) * CHUNK
  {
  }

  lemma ChunksFit(bytes: nat)
    requires bytes <= WINDOW
    ensures ChunkCount(bytes) <= MAX_CHUNKS
  {
    var n := bytes + CHUNK - 1;
    assert n % 0x1_0000_0000 == n;
    assert n / CHUNK <= MAX_CHUNKS;
  }

  /** What a packet built by the sender for this image says. */
  ghost predicate Honest(image: seq<byte>, imageCrc: bv32, p: Request)
    requires Addressable(image)
  {
    match p
    case Start(magic, size, crc, windows) =>
      magic == MAGIC && size == |image| && crc == imageCrc && windows == WindowCount(|image|)
    case Data(w, c, data) =>
      && w < WindowCount(|image|) && c < ChunkCount(WindowBytes(|image|, w))
      && w * WINDOW + c * CHUNK <= |image| && data == ChunkData(image, w, c)
    case Query(w, crc, bytes) =>
      && w < WindowCount(|image|) && w * WINDOW <= |image|
      && bytes == WindowBytes(|image|, w) && crc == Crc32.Of(Window(image, w))
    case Finalize(crc) => crc == imageCrc
    case Abort => false
  }
}
