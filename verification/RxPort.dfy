/** The receive side of bmc/bmc_driver.c: frames out of a ring that DMA fills, with a bit-granular tail. */
module RxPort {
  import opened Bytes
  import opened BitSearch
  import opened Framing
  import opened FrameReceiver
  import opened FrameStream
  import opened DmaCounter
  import opened Modular

  const RING_BYTES: nat := 16384
  const RELOAD_WORDS: nat := 0x0FFF_FFFF
  const LINEAR_BYTES: nat := 384
  /** How far behind the write position an overrun recovers to. */
  const RECOVERY_BYTES: nat := 256

  /** The ring holds the last bits of everything written so far. */
  ghost predicate Holds(ring: seq<byte>, stream: seq<bool>) {
    |ring| > 0 && forall i: nat :: i < |stream| <= i + 8 * |ring| ==> Bits(ring)[i % (8 * |ring|)] == stream[i]
  }

  /** The bytes copied out of the ring, wrapping at its end. */
  function Unwrapped(ring: seq<byte>, at: nat, n: nat): (r: seq<byte>)
    requires at < |ring| && n <= |ring|
    ensures |r| == n
  {
    if n <= |ring| - at then ring[at..at + n] else ring[at..] + ring[..n - (|ring| - at)]
  }

  lemma WrapIndex(j: nat, size: nat)
    requires 0 < size && j < 2 * size
    ensures j % size == if j < size then j else j - size
  {
  }

  /** The linear copy reads the stream from the byte of the tail on. */
  lemma LinearBits(ring: seq<byte>, stream: seq<bool>, f: nat, n: nat, i: nat)
    requires Holds(ring, stream) && f % 8 == 0 && f <= |stream| <= f + 8 * |ring| && n <= |ring|
    requires i < 8 * n && f + i < |stream|
    ensures f % (8 * |ring|) / 8 < |ring|
    ensures Bits(Unwrapped(ring, f % (8 * |ring|) / 8, n))[i] == stream[f + i]
  {
    hide BitOf, Bits, ByteBits;
    var m := 8 * |ring|;
    var at := f % m / 8;
    ByteAligned(f, |ring|);
    var linear := Unwrapped(ring, at, n);
    var j, k := i / 8, i % 8;
    BitInByte(linear, j, k);
    WrapIndex(at + j, |ring|);
    var b := (at + j) % |ring|;
    assert linear[j] == ring[b];
    BitInByte(ring, b, k);
    WrapIndex(8 * at + i, m);
    SamePlace(f, i, m);
    assert (8 * at + i) % m == 8 * b + k;
  }

  lemma ByteAligned(f: nat, size: nat)
    requires size > 0 && f % 8 == 0
    ensures f % (8 * size) % 8 == 0 && f % (8 * size) / 8 < size && 8 * (f % (8 * size) / 8) == f % (8 * size)
  {
    var m := 8 * size;
    Division(f, m);
    assert f % m == 8 * (f / 8 - f / m * size);
  }

  /** The bits of the window one extraction looks at. */
  ghost function WindowAt(stream: seq<bool>, p: nat): (w: seq<bool>)
    requires p <= |stream|
  {
    var avail := |stream| - Floor(p);
    stream[Floor(p)..][..if avail > WINDOW_BITS then WINDOW_BITS else avail]
  }

  lemma CopiedWindow(ring: seq<byte>, stream: seq<bool>, p: nat, n: nat)
    requires Holds(ring, stream) && p <= |stream| <= Floor(p) + 8 * |ring| && n <= |ring|
    requires |WindowAt(stream, p)| <= 8 * n
    ensures Floor(p) % (8 * |ring|) / 8 < |ring|
    ensures Bits(Unwrapped(ring, Floor(p) % (8 * |ring|) / 8, n))[..|WindowAt(stream, p)|] == WindowAt(stream, p)
  {
    hide Bits, Unwrapped;
    FloorMonotone(p, p);
    ByteAligned(Floor(p), |ring|);
    var w := WindowAt(stream, p);
    var linear := Unwrapped(ring, Floor(p) % (8 * |ring|) / 8, n);
    forall i | 0 <= i < |w| ensures Bits(linear)[i] == w[i] { LinearBits(ring, stream, Floor(p), n, i); }
    assert Bits(linear)[..|w|] == w;
  }

  /** Where the tail bit of the driver lies in the ring. */
  lemma TailPlace(p: nat, size: nat)
    requires size > 0
    ensures p % (8 * size) % 8 == p % 8 && p % (8 * size) / 8 == Floor(p) % (8 * size) / 8
    ensures p % (8 * size) / 8 < size
  {
    var m, f := 8 * size, Floor(p);
    FloorMonotone(p, p);
    ByteAligned(f, size);
    Division(f, m);
    AlignedPlace(f % m, size);
    ModUnique(p, m, f / m, f % m + p % 8);
    BitOfPlace(f % m, p % 8);
  }

  lemma AlignedPlace(x: nat, size: nat)
    requires x % 8 == 0 && x < 8 * size
    ensures x / 8 < size && x + 7 < 8 * size
  {
  }

  lemma BitOfPlace(x: nat, k: nat)
    requires x % 8 == 0 && k < 8
    ensures (x + k) % 8 == k && (x + k) / 8 == x / 8
  {
  }

  lemma SearchWindow(linear: seq<byte>, w: seq<bool>, start: nat)
    requires |w| <= 8 * |linear| && Bits(linear)[..|w|] == w && start < 8 && MIN_BITS <= |w|
    ensures Search(linear, start, |w|) == var s := FirstSync(w, 0, |w| - 16);
            if s < 0 then NotFound else SyncEnd(s + 15)
  {
    hide Bits, FirstSync;
    assert w + Bits(linear)[|w|..] == Bits(linear);
    FirstSyncIs(w, 0, |w| - 16);
    FirstSyncExtends(w, Bits(linear)[|w|..], 0, |w| - 16, |w| - 16);
    FirstSyncIs(Bits(linear), |w| - 15, |w| - 16);
  }

  lemma PrefixSlice(s: seq<bool>, n: nat, i: nat, j: nat)
    requires i <= j <= n <= |s|
    ensures s[i..j] == s[..n][i..j]
  {
    forall k | 0 <= k < j - i ensures s[i..j][k] == s[..n][i..j][k] { assert s[..n][i..j][k] == s[..n][i + k]; }
  }

  lemma OneByteRead(b: byte, bits: seq<bool>, post: nat)
    requires post + 8 <= |bits| && Bits([b]) == bits[post..post + 8]
    ensures LengthAt(bits, post) == Val(b)
  {
    hide Bits, BitOf, FromBits, Val, ByteBits;
    OneByte(b);
    FromByteBits(b);
  }

  /** bmc_rx_extract_frame_from_ring: through the wrap, the shift and the clamp it is the extraction
      on the stream. */
  method ExtractFromRing(ring: array<byte>, tailBit: nat, unread: nat, ghost stream: seq<bool>, ghost p: nat)
    returns (r: Extraction)
    requires LINEAR_BYTES <= ring.Length && Holds(ring[..], stream)
    requires p + unread == |stream| <= Floor(p) + 8 * ring.Length
    requires tailBit % (8 * ring.Length) == p % (8 * ring.Length)
    ensures r == ExtractAt(stream, p)
  {
    hide Bits, BitOf, Val, FromBits, ByteBits, FirstSync, AfterSync, Holds, Unwrapped, Packed, Decode, Search,
         TotalBytes;
    var tail := tailBit % (8 * ring.Length);
    TailPlace(p, ring.Length);
    ShortestFrame();
    if unread < 16 + 8 * TotalBytes(MIN_PAYLOAD) { return Incomplete(0); }
    var tailByte := tail / 8;
    var bitStart := tail % 8;
    var avail := (bitStart + unread + 7) / 8;
    if avail > LINEAR_BYTES { avail := LINEAR_BYTES; }
    var linear := Unwrapped(ring[..], tailByte, avail);
    var total := bitStart + unread;
    if total > 8 * avail { total := 8 * avail; }
    ghost var w := WindowAt(stream, p);
    assert |w| == total;
    CopiedWindow(ring[..], stream, p, avail);
    SearchWindow(linear, w, bitStart);
    r := Classify(linear, bitStart, total, w);
    assert ExtractAt(stream, p) == Outcome(w, bitStart);
  }

  lemma ShortestFrame()
    ensures 16 + 8 * TotalBytes(MIN_PAYLOAD) == MIN_BITS
  {
  }

  /** The outcome of an extraction in terms of its window. */
  ghost function Outcome(w: seq<bool>, skip: nat): Extraction
    requires MIN_BITS <= |w| && skip < 8
  {
    var s := FirstSync(w, 0, |w| - 16);
    if s < 0 then SyncNotFound(Back(|w| - 15, skip))
    else
      match AfterSync(w, s + 16)
      case NotYet => Incomplete(Back(s, skip))
      case BadLength => InvalidLength(s + 16 - skip)
      case Body(needed, decoding) =>
        if decoding.Accepted? then FrameOk(s + 16 + needed - skip, decoding.m) else CrcError(s + 16 - skip)
  }

  /** From the linear copy on: search, length, frame, decode. */
  method Classify(linear: seq<byte>, bitStart: nat, total: nat, ghost w: seq<bool>) returns (r: Extraction)
    requires bitStart < 8 && MIN_BITS <= total == |w| <= 8 * |linear| && Bits(linear)[..total] == w
    requires Search(linear, bitStart, total) == var s := FirstSync(w, 0, |w| - 16);
             if s < 0 then NotFound else SyncEnd(s + 15)
    ensures r == Outcome(w, bitStart)
  {
    hide Bits, BitOf, Val, FromBits, ByteBits, FirstSync, Packed, Decode, Search, TotalBytes, LengthAt;
    FirstSyncIs(w, 0, |w| - 16);
    var found := FindSync(linear, bitStart, total);
    if !found.SyncEnd? {
      return SyncNotFound(if total > bitStart + 15 then total - bitStart - 15 else 0);
    }
    var post := found.bit + 1;
    var start := if found.bit >= 15 then found.bit - 15 else 0;
    var back := if start > bitStart then start - bitStart else 0;
    if post + 8 > total { return Incomplete(back); }
    var first := ExtractBytes(linear, post, 1);
    var len := Val(first.bytes[0]);
    assert first.bytes == [first.bytes[0]];
    PrefixSlice(Bits(linear), total, post, post + 8);
    OneByteRead(first.bytes[0], w, post);
    if len < MIN_PAYLOAD || len > MAX_PAYLOAD {
      return InvalidLength(if post > bitStart then post - bitStart else 1);
    }
    var needed := TotalBytes(len);
    if post + 8 * needed > total { return Incomplete(back); }
    var frame := ExtractBytes(linear, post, needed);
    PrefixSlice(Bits(linear), total, post, post + 8 * needed);
    PackedBits(frame.bytes);
    var decoded := DecodeFrame(frame.bytes);
    if decoded.Accepted? { return FrameOk(post + 8 * needed - bitStart, decoded.m); }
    return CrcError(if post > bitStart then post - bitStart else 1);
  }

  /** A frame anywhere in a ring, at any bit phase and across the wrap, with any bits before it and
      after it, comes out as it went in, and the tail moves by exactly its wire bits. */
  method FrameThroughRing(ring: array<byte>, tailBit: nat, unread: nat, ghost before: seq<bool>, ghost m: Message,
    ghost after: seq<bool>)
    returns (r: Extraction)
    requires 512 <= ring.Length && ValidLen(|m.payload|) && Holds(ring[..], before + WireBits(m) + after)
    requires unread == |WireBits(m)| + |after| && |before| % 8 + unread <= 8 * ring.Length
    requires tailBit % (8 * ring.Length) == |before| % (8 * ring.Length)
    ensures r == FrameOk(|WireBits(m)|, m)
  {
    hide WireBits, ExtractAt, Holds;
    RoundTrip(m, before, after);
    FloorMonotone(|before|, |before|);
    r := ExtractFromRing(ring, tailBit, unread, before + WireBits(m) + after, |before|);
  }

  // ---- polling ----------------------------------------------------------------------------------------

  const RING_BITS: nat := 131072

  /** The receiver's place in the stream: bits consumed, and whether the last extraction found nothing. */
  datatype Cursor = Cursor(read: nat, exhausted: bool)

  /** Where an extraction starts: after an overrun, at the newest 256 bytes. */
  function Restart(stream: seq<bool>, read: nat): (p: nat)
    requires read <= |stream|
    ensures read <= p <= |stream| && |stream| - p < RING_BITS
  {
    if |stream| - read >= RING_BITS then |stream| - 8 * RECOVERY_BYTES else read
  }

  /** A poll that extracts: the new place, and the item found, if any. */
  function PollAt(stream: seq<bool>, read: nat): (r: (Cursor, seq<Item>))
    requires read <= |stream|
  {
    var p := Restart(stream, read);
    var e := ExtractAt(stream, p);
    (Cursor(p + e.advance, Exhausted(e)), if Exhausted(e) then [] else [ItemOf(e)])
  }

  datatype Received = Packet(m: Message) | Nothing

  class Port {
    const ring: array<byte>
    var tailBit: nat
    var totalBitsRead: nat
    var lapCount: nat
    var lastTransferCount: nat
    var totalWords: nat
    var exhausted: bool
    var packets: nat
    var lenErrors: nat
    var crcErrors: nat
    var overruns: nat
    /** The words that had really been transferred at the last poll. */
    ghost var words: nat

    ghost predicate Valid()
      reads this
    {
      && ring.Length == RING_BYTES
      && tailBit == totalBitsRead % RING_BITS
      && Tracks(lapCount, lastTransferCount, words, RELOAD_WORDS)
      && totalBitsRead <= 32 * words
    }

    ghost function Place(): Cursor
      reads this
    {
      Cursor(totalBitsRead, exhausted)
    }

    /** bmc_rx_port_init. */
    constructor ()
      ensures Valid() && fresh(ring) && Place() == Cursor(0, false) && words == 0
      ensures packets == lenErrors == crcErrors == overruns == 0
    {
      ring := new byte[RING_BYTES];
      tailBit, totalBitsRead, lapCount, lastTransferCount, totalWords := 0, 0, 0, RELOAD_WORDS, 0;
      exhausted := false;
      packets, lenErrors, crcErrors, overruns := 0, 0, 0, 0;
      words := 0;
    }

    /** bmc_rx_poll_packet: stream is everything the line has delivered into the ring by now, and
        `now` the number of its words, which the counter reading must reflect. A poll is skipped
        only when nothing has arrived since an extraction that found nothing. */
    method Poll(count: nat, ghost stream: seq<bool>, ghost now: nat) returns (r: Received, ghost items: seq<Item>)
      requires Valid() && Holds(ring[..], stream) && |stream| == 32 * now
      requires Later(lastTransferCount, words, count, now, RELOAD_WORDS)
      modifies this
      ensures Valid() && words == now
      ensures if old(exhausted) && count == old(lastTransferCount)
              then Place() == old(Place()) && items == [] && now == old(words) && overruns == old(overruns)
              else (Place(), items) == PollAt(stream, old(totalBitsRead))
                   && overruns == old(overruns) + (if |stream| - old(totalBitsRead) >= RING_BITS then 1 else 0)
      ensures r == (if items != [] && items[0].Frame? then Packet(items[0].m) else Nothing)
      ensures packets == old(packets) + (if items != [] && items[0].Frame? then 1 else 0)
      ensures lenErrors == old(lenErrors) + (if items == [BadLen] then 1 else 0)
      ensures crcErrors == old(crcErrors) + (if items == [BadCrc] then 1 else 0)
    {
      hide Holds, ExtractAt, PollAt, Tracks, Later, Exhausted, ItemOf;
      if exhausted && count == lastTransferCount {
        SameReading(lapCount, lastTransferCount, words, now, RELOAD_WORDS);
        return Nothing, [];
      }
      Track(count, now);
      var unread := Recover(4 * totalWords);
      FitsRing(|stream|, totalBitsRead);
      Reduced(totalBitsRead);
      var e := ExtractFromRing(ring, tailBit, unread, stream, totalBitsRead);
      AdvanceBound(stream, totalBitsRead);
      PollAtIs(stream, old(totalBitsRead));
      Advance(e.advance);
      r, items := Account(e);
    }

    /** The words transferred so far, from one reading of the counter. */
    method Track(count: nat, ghost now: nat)
      requires Valid() && Later(lastTransferCount, words, count, now, RELOAD_WORDS)
      modifies `lapCount, `lastTransferCount, `totalWords, `words
      ensures Valid() && words == totalWords == now
    {
      lapCount, lastTransferCount, totalWords :=
        DmaCounter.Update(lapCount, lastTransferCount, count, RELOAD_WORDS, words, now);
      words := now;
    }

    /** Unread bits; if they fill the ring the tail is first moved to the newest 256 bytes. */
    method Recover(totalBytes: nat) returns (unread: nat)
      requires Valid() && 4 * words == totalBytes
      modifies `tailBit, `totalBitsRead, `overruns
      ensures Valid() && totalBitsRead + unread == 8 * totalBytes && unread < RING_BITS
      ensures if 8 * totalBytes - old(totalBitsRead) >= RING_BITS
              then totalBitsRead == 8 * totalBytes - 8 * RECOVERY_BYTES && overruns == old(overruns) + 1
              else totalBitsRead == old(totalBitsRead) && overruns == old(overruns)
    {
      hide Tracks;
      var head := totalBytes % RING_BYTES;
      unread := 0;
      if 8 * totalBytes >= totalBitsRead { unread := 8 * totalBytes - totalBitsRead; }
      if unread >= RING_BITS {
        overruns := overruns + 1;
        RecoveryPlace(totalBytes);
        var safe := if head >= RECOVERY_BYTES then head - RECOVERY_BYTES else RING_BYTES + head - RECOVERY_BYTES;
        tailBit := 8 * safe % RING_BITS;
        totalBitsRead := 8 * totalBytes - 8 * RECOVERY_BYTES;
        unread := 8 * RECOVERY_BYTES;
      }
    }

    method Advance(bits: nat)
      requires Valid() && totalBitsRead + bits <= 32 * words
      modifies `tailBit, `totalBitsRead
      ensures Valid() && totalBitsRead == old(totalBitsRead) + bits
    {
      hide Tracks;
      if bits > 0 {
        SamePlace(totalBitsRead, bits, RING_BITS);
        tailBit := (tailBit + bits) % RING_BITS;
        totalBitsRead := totalBitsRead + bits;
      }
    }

    /** The status decides the counters and whether the next poll may be skipped. */
    method Account(e: Extraction) returns (r: Received, ghost items: seq<Item>)
      requires Valid()
      modifies `exhausted, `packets, `lenErrors, `crcErrors
      ensures Valid() && exhausted == Exhausted(e) && items == (if Exhausted(e) then [] else [ItemOf(e)])
      ensures r == (if items != [] && items[0].Frame? then Packet(items[0].m) else Nothing)
      ensures packets == old(packets) + (if items != [] && items[0].Frame? then 1 else 0)
      ensures lenErrors == old(lenErrors) + (if items == [BadLen] then 1 else 0)
      ensures crcErrors == old(crcErrors) + (if items == [BadCrc] then 1 else 0)
    {
      hide Tracks;
      exhausted := false;
      match e {
        case InvalidLength(_) =>
          lenErrors := lenErrors + 1;
          return Nothing, [BadLen];
        case CrcError(_) =>
          crcErrors := crcErrors + 1;
          return Nothing, [BadCrc];
        case FrameOk(_, m) =>
          packets := packets + 1;
          return Packet(m), [Frame(m)];
        case _ =>
          exhausted := true;
          return Nothing, [];
      }
    }
  }

  lemma PollAtIs(stream: seq<bool>, read: nat)
    requires read <= |stream|
    ensures var p := Restart(stream, read);
            var e := ExtractAt(stream, p);
            PollAt(stream, read) == (Cursor(p + e.advance, Exhausted(e)), if Exhausted(e) then [] else [ItemOf(e)])
  {
    hide ExtractAt;
  }

  lemma Reduced(p: nat)
    ensures p % RING_BITS % RING_BITS == p % RING_BITS
  {
  }

  lemma FitsRing(n: nat, p: nat)
    requires n % 32 == 0 && p <= n < p + RING_BITS
    ensures n <= Floor(p) + RING_BITS
  {
    var a, b := n / 32, p / 8;
    assert n == 32 * a && Floor(p) == 8 * b && p < 8 * b + 8;
  }

  /** The overrun recovery puts the tail 256 bytes behind the write position. */
  lemma RecoveryPlace(totalBytes: nat)
    requires totalBytes >= RECOVERY_BYTES
    ensures var head := totalBytes % RING_BYTES;
            var safe := if head >= RECOVERY_BYTES then head - RECOVERY_BYTES else RING_BYTES + head - RECOVERY_BYTES;
            8 * safe % RING_BITS == (8 * totalBytes - 8 * RECOVERY_BYTES) % RING_BITS
  {
  }

  /** No extraction moves the tail past what has arrived. */
  lemma AdvanceBound(stream: seq<bool>, p: nat)
    requires p <= |stream|
    ensures p + ExtractAt(stream, p).advance <= |stream|
  {
    hide ExtractAt, RefStep;
    ExtractFinds(stream, p);
    ExtractSkips(stream, [], p);
  }

  /** One poll in its own words: after an overrun it starts at the newest 256 bytes; it finds at most one thing,
      moves past it, and remembers that there was nothing exactly when it found nothing. */
  lemma PollMeans(stream: seq<bool>, read: nat)
    requires read <= |stream|
    ensures var p := if |stream| - read >= 131072 then |stream| - 2048 else read;
            var (c, items) := PollAt(stream, read);
            && c.read == p + ExtractAt(stream, p).advance && c.exhausted == (items == []) && |items| <= 1
            && (match ExtractAt(stream, p)
                case FrameOk(_, m) => items == [Frame(m)]
                case InvalidLength(_) => items == [BadLen]
                case CrcError(_) => items == [BadCrc]
                case _ => items == [])
  {
    hide ExtractAt;
    PollAtIs(stream, read);
  }

  // ---- schedules --------------------------------------------------------------------------------------

  /** A schedule: the bits that had arrived at each poll that extracted. */
  ghost predicate Growing(stream: seq<bool>, lengths: seq<nat>) {
    && (forall i :: 0 <= i < |lengths| ==> lengths[i] <= |stream|)
    && (forall i, j :: 0 <= i < j < |lengths| ==> lengths[i] <= lengths[j])
  }

  /** Where the first k polls have got to, and all they have found. */
  ghost function Progress(stream: seq<bool>, lengths: seq<nat>, k: nat): (r: (nat, seq<Item>))
    requires Growing(stream, lengths) && k <= |lengths|
    ensures r.0 <= |stream| && (k > 0 ==> r.0 <= lengths[k - 1]) && (k == 0 ==> r.0 == 0)
  {
    if k == 0 then (0, [])
    else
      var (read, items) := Progress(stream, lengths, k - 1);
      var now := stream[..lengths[k - 1]];
      AdvanceBound(now, Restart(now, read));
      var (c, found) := PollAt(now, read);
      (c.read, items + found)
  }

  ghost predicate NoOverrun(stream: seq<bool>, lengths: seq<nat>)
    requires Growing(stream, lengths)
  {
    forall k :: 0 <= k < |lengths| ==> lengths[k] - Progress(stream, lengths, k).0 < RING_BITS
  }

  /** One poll, whenever it comes, leaves what has been found plus what the reference parser still
      finds unchanged. */
  lemma PollKeeps(stream: seq<bool>, n: nat, read: nat)
    requires read <= n <= |stream| && n - read < RING_BITS
    ensures var (c, found) := PollAt(stream[..n], read);
            c.read <= n && found + RefParse(stream, c.read) == RefParse(stream, read)
  {
    hide ExtractAt, RefStep, PollAt, RefParse, Floor;
    var now, later := stream[..n], stream[n..];
    assert now + later == stream;
    var e := ExtractAt(now, read);
    PollAtIs(now, read);
    AdvanceBound(now, read);
    if Exhausted(e) {
      ExtractSkips(now, later, read);
      SameStepSameParse(stream, read, read + e.advance);
      assert [] + RefParse(stream, read) == RefParse(stream, read);
    } else {
      ExtractFinds(now, read);
      RefStepExtends(now, later, read);
      ParseStep(stream, read);
    }
  }

  lemma SameStepSameParse(stream: seq<bool>, p: nat, q: nat)
    requires RefStep(stream, p) == RefStep(stream, q)
    ensures RefParse(stream, p) == RefParse(stream, q)
  {
  }

  /** Arrival-schedule independence: however the stream is split over the polls, what they have found
      is a prefix of one reference parse of the whole stream, and the rest is still to come. */
  lemma {:induction false} ScheduleIndependent(stream: seq<bool>, lengths: seq<nat>, k: nat)
    requires Growing(stream, lengths) && NoOverrun(stream, lengths) && k <= |lengths|
    ensures var (read, items) := Progress(stream, lengths, k);
            items + RefParse(stream, read) == RefParse(stream, 0)
  {
    hide PollAt, RefParse;
    if k > 0 {
      ScheduleIndependent(stream, lengths, k - 1);
      var (read, items) := Progress(stream, lengths, k - 1);
      PollKeeps(stream, lengths[k - 1], read);
      var (c, found) := PollAt(stream[..lengths[k - 1]], read);
      assert (items + found) + RefParse(stream, c.read) == items + (found + RefParse(stream, c.read));
    } else {
      assert [] + RefParse(stream, 0) == RefParse(stream, 0);
    }
  }

  /** A last poll that came when everything had arrived and found nothing. */
  ghost predicate Drained(stream: seq<bool>, lengths: seq<nat>)
    requires Growing(stream, lengths)
  {
    && |lengths| > 0 && lengths[|lengths| - 1] == |stream|
    && PollAt(stream, Progress(stream, lengths, |lengths| - 1).0).0.exhausted
  }

  /** What that needs to be the end, whatever the stream: the rest fits the window, and the entry guard, which
      may hold back a frame of 73 to 79 unread bits, does not, unless a sync word starts in the byte of an
      unaligned tail, before the tail. */
  ghost predicate Settled(stream: seq<bool>, lengths: seq<nat>)
    requires Growing(stream, lengths)
  {
    && Drained(stream, lengths)
    && var read := Progress(stream, lengths, |lengths| - 1).0;
       && |stream| - Floor(read) <= WINDOW_BITS
       && (Covered(read % 8, |stream| - Floor(read)) || NoSync(stream, Floor(read), read))
  }

  /** Once the last poll has settled, every frame of the reference parse has been delivered, in order. */
  lemma ScheduleComplete(stream: seq<bool>, lengths: seq<nat>)
    requires Growing(stream, lengths) && NoOverrun(stream, lengths) && Settled(stream, lengths)
    ensures Frames(Progress(stream, lengths, |lengths|).1) == Frames(RefParse(stream, 0))
  {
    hide PollAt, ExtractAt, RefStep, RefParse, Frames;
    var k := |lengths|;
    var (read, items) := Progress(stream, lengths, k);
    ScheduleIndependent(stream, lengths, k);
    assert stream[..lengths[k - 1]] == stream;
    QuietFrom(stream, Progress(stream, lengths, k - 1).0);
    FramesConcat(items, RefParse(stream, read));
    assert Frames(items) + [] == Frames(items);
  }

  lemma QuietFrom(stream: seq<bool>, p: nat)
    requires p <= |stream| && |stream| - Floor(p) <= WINDOW_BITS && PollAt(stream, p).0.exhausted
    requires Covered(p % 8, |stream| - Floor(p)) || NoSync(stream, Floor(p), p)
    ensures PollAt(stream, p).0.read <= |stream| && Frames(RefParse(stream, PollAt(stream, p).0.read)) == []
  {
    hide ExtractAt, RefStep, Frames, RefParse;
    PollKeeps(stream, |stream|, p);
    assert stream[..|stream|] == stream;
    if Covered(p % 8, |stream| - Floor(p)) {
      CoveredQuiet(stream, p);
    } else {
      ShortRestQuiet(stream, p);
    }
    var r := PollAt(stream, p).0.read;
    assert [] + RefParse(stream, r) == RefParse(stream, r);
  }

  lemma {:induction false} FramesConcat(a: seq<Item>, b: seq<Item>)
    ensures Frames(a + b) == Frames(a) + Frames(b)
  {
    if a == [] {
      assert a + b == b;
    } else {
      assert (a + b)[0] == a[0] && (a + b)[1..] == a[1..] + b;
      FramesConcat(a[1..], b);
      var head := if a[0].Frame? then [a[0].m] else [];
      assert head + (Frames(a[1..]) + Frames(b)) == (head + Frames(a[1..])) + Frames(b);
    }
  }

  // ---- packets sent, polled on any schedule --------------------------------------------------------------

  /** At `read` the port is in step with the packets: the next one it will find is the one after those
      found, and no sync word starts in the byte of the tail before the tail. */
  ghost predicate InStep(stream: seq<bool>, read: nat, p: nat, n: nat, rest: seq<Message>) {
    && AllValid(rest) && n % 8 == 0 && n <= 32 && p <= read && Follows(stream, p, n, rest)
    && RefStep(stream, p) == RefStep(stream, read) && NoSync(stream, Floor(read), read)
  }

  /** A poll keeps in step. */
  lemma InStepNext(stream: seq<bool>, k: nat, read: nat, p: nat, n: nat, rest: seq<Message>)
    returns (p': nat, n': nat, rest': seq<Message>)
    requires read <= k <= |stream| && k - read < RING_BITS && InStep(stream, read, p, n, rest)
    ensures InStep(stream, PollAt(stream[..k], read).0.read, p', n', rest')
  {
    hide PollAt, RefStep, ExtractAt, NoSync, Follows;
    var now, later := stream[..k], stream[k..];
    PollAtIs(now, read);
    var e := ExtractAt(now, read);
    assert now + later == stream;
    if Exhausted(e) {
      ExtractSkips(now, later, read);
      ClearStays(now, later, read);
      p', n', rest' := p, n, rest;
    } else {
      ExtractFinds(now, read);
      RefStepExtends(now, later, read);
      p', n', rest' := InStepFound(stream, read, p, n, rest);
    }
  }

  lemma InStepFound(stream: seq<bool>, read: nat, p: nat, n: nat, rest: seq<Message>)
    returns (p': nat, n': nat, rest': seq<Message>)
    requires InStep(stream, read, p, n, rest) && RefStep(stream, read).More?
    ensures InStep(stream, RefStep(stream, read).next, p', n', rest')
  {
    hide RefStep, StreamBits, NoSync, WireBits, Follows;
    if rest == [] { IdleWaits(stream, p, n); }
    OneMore(stream, p, n, rest);
    p', n', rest' := p + n + |WireBits(rest[0])|, 32, rest[1..];
    FollowsAligned(stream, p', n', rest');
    NothingBefore(stream, p');
  }

  lemma FollowsAligned(stream: seq<bool>, p: nat, n: nat, rest: seq<Message>)
    requires AllValid(rest) && Follows(stream, p, n, rest)
    ensures p % 8 == 0
  {
  }

  lemma {:induction false} AlwaysInStep(ms: seq<Message>, lengths: seq<nat>, k: nat)
    returns (p: nat, n: nat, rest: seq<Message>)
    requires AllValid(ms) && Growing(StreamBits(ms), lengths) && NoOverrun(StreamBits(ms), lengths) && k <= |lengths|
    ensures InStep(StreamBits(ms), Progress(StreamBits(ms), lengths, k).0, p, n, rest)
  {
    hide PollAt, RefStep, StreamBits, NoSync, Follows;
    var stream := StreamBits(ms);
    if k == 0 {
      Beginning(ms);
      NothingBefore(stream, 0);
      return 0, 0, ms;
    }
    p, n, rest := AlwaysInStep(ms, lengths, k - 1);
    p, n, rest := InStepNext(stream, lengths[k - 1], Progress(stream, lengths, k - 1).0, p, n, rest);
  }

  lemma NothingBefore(stream: seq<bool>, p: nat)
    requires p % 8 == 0
    ensures Floor(p) == p && NoSync(stream, p, p)
  {
  }

  /** In step, with everything arrived and a packet still to come, a poll finds it: neither the entry guard nor
      the window is in the way of a packet of this encoder. */
  lemma NextPacketFound(stream: seq<bool>, read: nat, p: nat, n: nat, rest: seq<Message>)
    requires InStep(stream, read, p, n, rest) && rest != [] && read <= |stream| < read + RING_BITS
    ensures PollAt(stream, read).1 == [Frame(rest[0])] && !PollAt(stream, read).0.exhausted
  {
    hide RefStep, ExtractAt, NoSync, WireBits, StreamBits, PollAt;
    OneMore(stream, p, n, rest);
    WireSize(rest[0]);
    FloorMonotone(p, read);
    NothingBefore(stream, p);
    FrameInWindow(stream, read);
    ExtractFinds(stream, read);
    PollAtIs(stream, read);
  }

  /** What is found of the messages sent is what is found of the items. */
  lemma FoundSoFar(ms: seq<Message>, lengths: seq<nat>, k: nat)
    requires AllValid(ms) && Growing(StreamBits(ms), lengths) && NoOverrun(StreamBits(ms), lengths) && k <= |lengths|
    ensures Progress(StreamBits(ms), lengths, k).1 <= AsItems(ms)
    ensures RefStep(StreamBits(ms), Progress(StreamBits(ms), lengths, k).0).Wait?
            ==> Progress(StreamBits(ms), lengths, k).1 == AsItems(ms)
  {
    hide Progress, NoOverrun, StreamBits, RefStep;
    SentIsReceived(ms);
    ScheduleIndependent(StreamBits(ms), lengths, k);
  }

  /** A poll after everything has arrived delivers one more message, or all have been. */
  lemma OneMorePoll(ms: seq<Message>, lengths: seq<nat>, k: nat)
    requires AllValid(ms) && Growing(StreamBits(ms), lengths) && NoOverrun(StreamBits(ms), lengths)
    requires k < |lengths| && lengths[k] == |StreamBits(ms)|
    ensures var found := Progress(StreamBits(ms), lengths, k).1;
            || found == AsItems(ms)
            || (&& |Progress(StreamBits(ms), lengths, k + 1).1| == |found| + 1
                && !PollAt(StreamBits(ms), Progress(StreamBits(ms), lengths, k).0).0.exhausted)
  {
    hide NoOverrun, RefStep, PollAt, InStep, StreamBits;
    var stream := StreamBits(ms);
    var p, n, rest := AlwaysInStep(ms, lengths, k);
    var read := Progress(stream, lengths, k).0;
    FoundSoFar(ms, lengths, k);
    Unread(stream, lengths, k);
    assert stream[..lengths[k]] == stream;
    if rest == [] {
      NoneLeft(stream, read, p, n);
    } else {
      NextPacketFound(stream, read, p, n, rest);
    }
  }

  lemma Unread(stream: seq<bool>, lengths: seq<nat>, k: nat)
    requires Growing(stream, lengths) && NoOverrun(stream, lengths) && k < |lengths|
    ensures lengths[k] - Progress(stream, lengths, k).0 < RING_BITS
  {
  }

  lemma NoneLeft(stream: seq<bool>, read: nat, p: nat, n: nat)
    requires InStep(stream, read, p, n, [])
    ensures RefStep(stream, read).Wait?
  {
    hide RefStep;
    IdleWaits(stream, p, n);
  }

  lemma FoundGrows(stream: seq<bool>, lengths: seq<nat>, k: nat)
    requires Growing(stream, lengths) && k < |lengths|
    ensures Progress(stream, lengths, k).1 <= Progress(stream, lengths, k + 1).1
  {
    hide PollAt;
  }

  /** The polls from the k-th on come after the last bit. */
  predicate AllArrived(total: nat, lengths: seq<nat>, k: nat) {
    k <= |lengths| && forall i :: k <= i < |lengths| ==> lengths[i] == total
  }

  /** How many further polls suffice: each delivers a message until all are delivered. */
  lemma {:induction false} FurtherPolls(ms: seq<Message>, lengths: seq<nat>, k: nat, j: nat)
    requires AllValid(ms) && Growing(StreamBits(ms), lengths) && NoOverrun(StreamBits(ms), lengths)
    requires k <= j <= |lengths| && AllArrived(|StreamBits(ms)|, lengths, k)
    ensures var before, now := Progress(StreamBits(ms), lengths, k).1, Progress(StreamBits(ms), lengths, j).1;
            |now| >= if |ms| <= |before| + (j - k) then |ms| else |before| + (j - k)
    ensures |ms| <= |Progress(StreamBits(ms), lengths, k).1| + (j - k)
            ==> Progress(StreamBits(ms), lengths, j).1 == AsItems(ms)
    decreases j
  {
    hide Progress, NoOverrun, StreamBits, PollAt, RefStep;
    FoundSoFar(ms, lengths, j);
    FoundSoFar(ms, lengths, k);
    if k < j {
      FurtherPolls(ms, lengths, k, j - 1);
      OneMorePoll(ms, lengths, j - 1);
      FoundGrows(StreamBits(ms), lengths, j - 1);
    }
  }

  /** Everything had arrived at the k-th poll, and there was a poll for each message still to deliver. */
  ghost predicate PollsSuffice(ms: seq<Message>, lengths: seq<nat>, k: nat)
    requires AllValid(ms) && Growing(StreamBits(ms), lengths) && k <= |lengths|
  {
    && AllArrived(|StreamBits(ms)|, lengths, k)
    && |ms| <= |Progress(StreamBits(ms), lengths, k).1| + (|lengths| - k)
  }

  /** Packets sent back to back and polled on any schedule without overrun: what has been accepted is
      always a prefix of what was sent, nothing is ever counted as an error, and once a poll after the
      last bit has found nothing, or enough polls have followed it, it is all of it. */
  lemma SentIsPolled(ms: seq<Message>, lengths: seq<nat>, k: nat)
    requires AllValid(ms) && Growing(StreamBits(ms), lengths) && NoOverrun(StreamBits(ms), lengths) && k <= |lengths|
    ensures Progress(StreamBits(ms), lengths, k).1 <= AsItems(ms)
    ensures Drained(StreamBits(ms), lengths) || PollsSuffice(ms, lengths, k) ==>
              Progress(StreamBits(ms), lengths, |lengths|).1 == AsItems(ms)
  {
    hide Progress, NoOverrun, StreamBits, RefStep, PollAt;
    FoundSoFar(ms, lengths, k);
    if Drained(StreamBits(ms), lengths) {
      OneMorePoll(ms, lengths, |lengths| - 1);
      FoundSoFar(ms, lengths, |lengths|);
      FoundGrows(StreamBits(ms), lengths, |lengths| - 1);
    } else if PollsSuffice(ms, lengths, k) {
      FurtherPolls(ms, lengths, k, |lengths|);
    }
  }

  // ---- a frame held back ------------------------------------------------------------------------------------

  /** The entry guard at work from the start of a stream: however often the port polls after the last bit, it
      delivers the first of two frames and never the second. */
  lemma {:induction false} GuardNeverDelivers(skip: nat, n: nat, k: nat)
    requires 0 < skip < 8 && MIN_BITS <= n < MIN_BITS + skip && k > 0
    ensures var stream := Overlapped(skip, n);
            var lengths := Rep<nat>(|stream|, k);
            && Growing(stream, lengths) && NoOverrun(stream, lengths)
            && Progress(stream, lengths, k) == (80 + skip, [Frame(Shortest())])
            && [Frame(Shortest()), Frame(Shortest())] <= RefParse(stream, 0)
  {
    hide ExtractAt, RefStep, PollAt, Overlapped, RefParse;
    var stream := Overlapped(skip, n);
    var lengths := Rep<nat>(|stream|, k);
    OverlappedFirst(skip, n);
    assert stream[..|stream|] == stream;
    PollAtIs(stream, 0);
    PollAtIs(stream, 80 + skip);
    ExtractFinds(stream, 0);
    TwoToFind(stream, 80 + skip, 160);
    HeldBack(stream, skip, k, k);
    ShortNoOverrun(stream, lengths);
  }

  lemma TwoToFind(stream: seq<bool>, p: nat, q: nat)
    requires RefStep(stream, 0) == More(Frame(Shortest()), p) && RefStep(stream, p) == More(Frame(Shortest()), q)
    ensures [Frame(Shortest()), Frame(Shortest())] <= RefParse(stream, 0)
  {
    hide RefStep, RefParse;
    ParseStep(stream, 0);
    ParseStep(stream, p);
  }

  lemma {:induction false} HeldBack(stream: seq<bool>, skip: nat, k: nat, i: nat)
    requires i <= k && skip < 8 && 80 + skip <= |stream| < RING_BITS
    requires PollAt(stream, 0) == (Cursor(80 + skip, false), [Frame(Shortest())])
    requires PollAt(stream, 80 + skip) == (Cursor(80 + skip, true), [])
    ensures Growing(stream, Rep<nat>(|stream|, k))
    ensures Progress(stream, Rep<nat>(|stream|, k), i) == if i == 0 then (0, []) else (80 + skip, [Frame(Shortest())])
  {
    hide PollAt;
    assert stream[..|stream|] == stream;
    assert [] + [Frame(Shortest())] == [Frame(Shortest())] && [Frame(Shortest())] + [] == [Frame(Shortest())];
    if i > 0 { HeldBack(stream, skip, k, i - 1); }
  }

  /** A stream shorter than the ring never overruns it. */
  lemma ShortNoOverrun(stream: seq<bool>, lengths: seq<nat>)
    requires |stream| < RING_BITS && Growing(stream, lengths)
    ensures NoOverrun(stream, lengths)
  {
    hide PollAt;
  }
}
