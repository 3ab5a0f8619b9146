/** The sender state machine of ota/ota_sender.c as functions on its state. Time enters as the
    question whether the timeout of the current state has expired. */
module OtaSender {
  import opened Bytes
  import opened OtaProtocol
  import Crc32

  datatype State = Idle | Starting | SendWindow | Querying | Retransmit | WaitReady | Finalizing | Complete | Failed

  const MAX_TIMEOUT_RETRIES: nat := 10
  const BATCH: nat := 32

  datatype Tx = Tx(
    image: seq<byte>, imageCrc: bv32, state: State, totalWindows: nat, sendWin: nat, commitWin: nat,
    chunk: nat, total: nat, winBytes: nat, winCrc: bv32, credits: int, retries: nat,
    bitmap: seq<bool>, nextChunk: nat, remaining: nat)

  datatype Outcome = Outcome(tx: Tx, sent: seq<Request>, result: bool)

  /** int16_t arithmetic of the credit counter. */
  function Int16(x: int): int { (x + 0x8000) % 0x1_0000 - 0x8000 }

  ghost predicate Shape(tx: Tx) {
    && Addressable(tx.image) && |tx.bitmap| == BITMAP_BITS && tx.total <= MAX_CHUNKS
    && tx.remaining < 0x1_0000
  }

  /** The image bytes of window w; empty past the end of the image. */
  function WindowData(image: seq<byte>, w: nat): seq<byte> {
    if w * WINDOW <= |image| then Window(image, w) else []
  }

  /** setup_window. */
  function SetupWindow(tx: Tx, w: nat): Tx {
    var bytes := WindowBytes(|tx.image|, w);
    tx.(winBytes := bytes, total := ChunkCount(bytes), chunk := 0, winCrc := Crc32.Of(WindowData(tx.image, w)))
  }

  function StartPacket(tx: Tx): Request { Start(MAGIC, |tx.image|, tx.imageCrc, tx.totalWindows) }

  function QueryPacket(tx: Tx): Request { Query(tx.sendWin % 256, tx.winCrc, tx.winBytes) }

  /** The DATA packet for chunk c of the window being sent. */
  function DataPacket(tx: Tx, c: nat): Request {
    var offset := tx.sendWin * WINDOW + c * CHUNK;
    Data(tx.sendWin % 256, c,
      if offset <= |tx.image| then tx.image[offset..offset + ChunkBytes(|tx.image|, offset)] else [])
  }

  /** ota_sender_start: false only for an empty image. */
  function Begin(tx: Tx): Outcome {
    if |tx.image| == 0 then Outcome(tx, [], false)
    else
      var tx1 := tx.(totalWindows := WindowCount(|tx.image|), sendWin := 0, commitWin := 0, credits := 0, retries := 0,
                     state := Starting);
      Outcome(tx1, [StartPacket(tx1)], true)
  }

  /** Move on to the next window if there is one and it may be sent, else wait. */
  function NextWindow(tx: Tx): Tx {
    if tx.sendWin < tx.totalWindows && tx.credits > 0 then SetupWindow(tx, tx.sendWin).(state := SendWindow)
    else tx.(state := WaitReady)
  }

  function OnQueryResp(tx: Tx, p: Reply): Outcome
    requires p.QueryResp? && |tx.bitmap| == BITMAP_BITS && |p.bitmap| <= BITMAP_BITS
  {
    if tx.state != Querying || p.win != tx.sendWin then Outcome(tx, [], false)
    else if p.missing > 0 then
      Outcome(tx.(bitmap := p.bitmap + tx.bitmap[|p.bitmap|..], remaining := p.missing, nextChunk := 0,
        state := Retransmit),
              [], true)
    else
      Outcome(NextWindow(tx.(credits := Int16(tx.credits - 1), sendWin := (tx.sendWin + 1) % 0x1_0000, retries := 0)),
        [], true)
  }

  function OnReady(tx: Tx, p: Reply): Outcome
    requires p.Ready?
  {
    if p.status != Ok then Outcome(tx.(state := Failed), [], true)
    else
      var tx1 := tx.(credits := Int16(tx.credits + p.credit), commitWin := (p.win + 1) % 0x1_0000);
      if tx1.commitWin == tx1.totalWindows then
        Outcome(tx1.(state := Finalizing, retries := 0), [Finalize(tx1.imageCrc)], true)
      else if tx1.state == WaitReady && tx1.sendWin < tx1.totalWindows then
        Outcome(SetupWindow(tx1, tx1.sendWin).(state := SendWindow), [], true)
      else Outcome(tx1, [], true)
  }

  /** ota_sender_handle_response. */
  function Handle(tx: Tx, p: Reply): Outcome
    requires |tx.bitmap| == BITMAP_BITS && (p.QueryResp? ==> |p.bitmap| <= BITMAP_BITS)
  {
    match p
    case StartAck(status, credit) =>
      if tx.state != Starting then Outcome(tx, [], false)
      else if status != Ok then Outcome(tx.(state := Failed), [], true)
      else Outcome(SetupWindow(tx.(credits := Int16(credit), retries := 0), tx.sendWin).(state := SendWindow), [], true)
    case QueryResp(_, _, _) => OnQueryResp(tx, p)
    case Ready(_, _, _) => OnReady(tx, p)
    case Report(status, crc) =>
      if tx.state != Finalizing then Outcome(tx, [], false)
      else if status == Ok && crc == tx.imageCrc then Outcome(tx.(state := Complete), [], true)
      else Outcome(tx.(state := Failed), [], true)
    case Aborted => Outcome(tx.(state := Failed), [], true)
  }

  // ---- one step ------------------------------------------------------------------------------

  /** Up to n chunks of the window, in order. */
  function SendChunks(tx: Tx, n: nat): (Tx, seq<Request>)
    decreases n
  {
    if n == 0 || tx.chunk >= tx.total then (tx, [])
    else
      var (tx1, rest) := SendChunks(tx.(chunk := tx.chunk + 1), n - 1);
      (tx1, [DataPacket(tx, tx.chunk)] + rest)
  }

  /** Up to n of the chunks the bitmap still shows as missing. */
  function ResendChunks(tx: Tx, n: nat): (Tx, seq<Request>)
    requires |tx.bitmap| == BITMAP_BITS && tx.total <= BITMAP_BITS
    decreases n
  {
    if n == 0 || tx.remaining == 0 then (tx, [])
    else
      var c := NextMissing(tx.bitmap, tx.nextChunk, tx.total);
      if c >= tx.total then (tx.(remaining := 0), [])
      else
        var (tx1, rest) := ResendChunks(tx.(bitmap := tx.bitmap[c := true], nextChunk := c + 1,
          remaining := tx.remaining - 1), n - 1);
        (tx1, [DataPacket(tx, c)] + rest)
  }

  /** The timeout branch shared by three states: resend, or give up after ten retries. */
  function Retry(tx: Tx, p: Request): Outcome {
    var tx1 := tx.(retries := (tx.retries + 1) % 256);
    if tx1.retries > MAX_TIMEOUT_RETRIES then Outcome(tx1.(state := Failed), [], false) else Outcome(tx1, [p], true)
  }

  /** ota_sender_step after the incoming packets have been handled. */
  function Step(tx: Tx, expired: bool): Outcome
    requires |tx.bitmap| == BITMAP_BITS && tx.total <= BITMAP_BITS
  {
    match tx.state
    case SendWindow =>
      var (tx1, sent) := SendChunks(tx, BATCH);
      if tx1.chunk >= tx1.total then Outcome(tx1.(state := Querying, retries := 0), sent + [QueryPacket(tx1)], true)
      else Outcome(tx1, sent, true)
    case Retransmit =>
      var (tx1, sent) := ResendChunks(tx, BATCH);
      if tx1.remaining == 0 then Outcome(tx1.(state := Querying, retries := 0), sent + [QueryPacket(tx1)], true)
      else Outcome(tx1, sent, true)
    case Querying => if expired then Retry(tx, QueryPacket(tx)) else Outcome(tx, [], true)
    case Starting => if expired then Retry(tx, StartPacket(tx)) else Outcome(tx, [], true)
    case Finalizing => if expired then Retry(tx, Finalize(tx.imageCrc)) else Outcome(tx, [], true)
    case WaitReady => if expired then Outcome(tx.(state := Failed), [], false) else Outcome(tx, [], true)
    case _ => Outcome(tx, [], false)
  }

  // ---- what a batch sends ----------------------------------------------------------------------

  lemma DataPacketSame(a: Tx, b: Tx, c: nat)
    requires a.image == b.image && a.sendWin == b.sendWin
    ensures DataPacket(a, c) == DataPacket(b, c)
  {
  }

  /** A batch of a fresh window sends the next chunks in order. */
  lemma {:induction false} SendChunksExact(tx: Tx, n: nat)
    requires tx.chunk <= tx.total
    ensures var r := SendChunks(tx, n);
            && |r.1| == (if n < tx.total - tx.chunk then n else tx.total - tx.chunk)
            && r.0 == tx.(chunk := tx.chunk + |r.1|)
            && forall i :: 0 <= i < |r.1| ==> r.1[i] == DataPacket(tx, tx.chunk + i)
    decreases n
  {
    hide DataPacket;
    if n > 0 && tx.chunk < tx.total {
      var tx2 := tx.(chunk := tx.chunk + 1);
      SendChunksExact(tx2, n - 1);
      var sent, rest := SendChunks(tx, n).1, SendChunks(tx2, n - 1).1;
      assert sent == [DataPacket(tx, tx.chunk)] + rest;
      forall i | 0 <= i < |sent| ensures sent[i] == DataPacket(tx, tx.chunk + i) {
        if i > 0 {
          assert sent[i] == rest[i - 1] == DataPacket(tx2, tx2.chunk + (i - 1));
          DataPacketSame(tx, tx2, tx.chunk + i);
        }
      }
    }
  }

  /** The counter of a round is the number of clear bits from the next chunk on. */
  ghost predicate RoundCounted(tx: Tx) {
    && |tx.bitmap| == BITMAP_BITS && tx.total <= MAX_CHUNKS && tx.nextChunk <= tx.total
    && tx.remaining == Missing(tx.bitmap, tx.total) - Missing(tx.bitmap, tx.nextChunk)
  }

  /** The clear bits from one position up to another, in ascending order. */
  function ClearBits(bitmap: seq<bool>, start: nat, end: nat): seq<nat>
    requires end <= |bitmap|
    decreases end - start
  {
    if start >= end then []
    else if bitmap[start] then ClearBits(bitmap, start + 1, end)
    else [start] + ClearBits(bitmap, start + 1, end)
  }

  lemma {:induction false} ClearBitsSkip(bitmap: seq<bool>, start: nat, mid: nat, end: nat)
    requires start <= mid <= end <= |bitmap| && forall i :: start <= i < mid ==> bitmap[i]
    ensures ClearBits(bitmap, start, end) == ClearBits(bitmap, mid, end)
    ensures Missing(bitmap, start) == Missing(bitmap, mid)
    decreases mid - start
  {
    if start < mid {
      ClearBitsSkip(bitmap, start + 1, mid, end);
    }
  }

  lemma {:induction false} ClearBitsSame(a: seq<bool>, b: seq<bool>, start: nat, end: nat)
    requires end <= |a| && end <= |b| && forall i :: start <= i < end ==> a[i] == b[i]
    ensures ClearBits(a, start, end) == ClearBits(b, start, end)
    decreases end - start
  {
    if start < end { ClearBitsSame(a, b, start + 1, end); }
  }

  lemma {:induction false} ClearBitsCount(bitmap: seq<bool>, start: nat, end: nat)
    requires start <= end <= |bitmap|
    ensures |ClearBits(bitmap, start, end)| == Missing(bitmap, end) - Missing(bitmap, start)
    decreases end - start
  {
    if start < end { ClearBitsCount(bitmap, start + 1, end); }
  }

  lemma {:induction false} ClearBitsRange(bitmap: seq<bool>, start: nat, end: nat)
    requires end <= |bitmap|
    ensures forall c :: c in ClearBits(bitmap, start, end) <==> start <= c < end && !bitmap[c]
    decreases end - start
  {
    if start < end { ClearBitsRange(bitmap, start + 1, end); }
  }

  ghost predicate Ascending(s: seq<nat>) {
    forall i, j :: 0 <= i < j < |s| ==> s[i] < s[j]
  }

  lemma {:induction false} ClearBitsAscend(bitmap: seq<bool>, start: nat, end: nat)
    requires end <= |bitmap|
    ensures Ascending(ClearBits(bitmap, start, end))
    decreases end - start
  {
    if start < end {
      ClearBitsAscend(bitmap, start + 1, end);
      ClearBitsRange(bitmap, start + 1, end);
      var rest, l := ClearBits(bitmap, start + 1, end), ClearBits(bitmap, start, end);
      if !bitmap[start] {
        assert l == [start] + rest;
        forall i, j | 0 <= i < j < |l| ensures l[i] < l[j] {
          assert l[j] == rest[j - 1] && rest[j - 1] in rest;
        }
      }
    }
  }

  /** The state after one chunk of a round has been resent. */
  function AfterResend(tx: Tx, c: nat): Tx
    requires c < |tx.bitmap| && tx.remaining > 0
  {
    tx.(bitmap := tx.bitmap[c := true], nextChunk := c + 1, remaining := tx.remaining - 1)
  }

  lemma ResendOne(tx: Tx)
    requires RoundCounted(tx) && tx.remaining > 0
    ensures var c := NextMissing(tx.bitmap, tx.nextChunk, tx.total);
            && tx.nextChunk <= c < tx.total && !tx.bitmap[c]
            && RoundCounted(AfterResend(tx, c))
            && ClearBits(tx.bitmap, tx.nextChunk, tx.total) == [c]
               + ClearBits(AfterResend(tx, c).bitmap, c + 1, tx.total)
  {
    var c := NextMissing(tx.bitmap, tx.nextChunk, tx.total);
    NextMissingFirst(tx.bitmap, tx.nextChunk, tx.total);
    ClearBitsSkip(tx.bitmap, tx.nextChunk, c, tx.total);
    assert c < tx.total;
    MissingSet(tx.bitmap, tx.total, c);
    MissingSet(tx.bitmap, c + 1, c);
    ClearBitsSame(tx.bitmap, AfterResend(tx, c).bitmap, c + 1, tx.total);
  }

  /** A batch resends the next chunks the round still owes, in order, and nothing else. */
  ghost predicate Resent(tx: Tx, n: nat, tx1: Tx, sent: seq<Request>)
    requires RoundCounted(tx)
  {
    var owed := ClearBits(tx.bitmap, tx.nextChunk, tx.total);
    && |owed| == tx.remaining
    && |sent| == (if n < |owed| then n else |owed|)
    && (forall i :: 0 <= i < |sent| ==> sent[i] == DataPacket(tx, owed[i]))
    && tx1 == tx.(bitmap := tx1.bitmap, nextChunk := tx1.nextChunk, remaining := tx.remaining - |sent|)
    && RoundCounted(tx1) && ClearBits(tx1.bitmap, tx1.nextChunk, tx.total) == owed[|sent|..]
    && tx.nextChunk <= tx1.nextChunk
    && (forall i :: 0 <= i < |sent| ==> owed[i] < tx1.nextChunk)
    && (forall c :: tx1.nextChunk <= c < BITMAP_BITS ==> tx1.bitmap[c] == tx.bitmap[c])
  }

  lemma {:induction false} ResendChunksExact(tx: Tx, n: nat)
    requires RoundCounted(tx)
    ensures Resent(tx, n, ResendChunks(tx, n).0, ResendChunks(tx, n).1)
    decreases n
  {
    hide DataPacket, RoundCounted, ClearBits, Missing, NextMissing;
    CountedShape(tx);
    var owed := ClearBits(tx.bitmap, tx.nextChunk, tx.total);
    ClearBitsCount(tx.bitmap, tx.nextChunk, tx.total);
    if n > 0 && tx.remaining > 0 {
      ResendOne(tx);
      var c := NextMissing(tx.bitmap, tx.nextChunk, tx.total);
      var tx2 := AfterResend(tx, c);
      ResendChunksExact(tx2, n - 1);
      var (tx1, rest) := ResendChunks(tx2, n - 1);
      var sent := ResendChunks(tx, n).1;
      var owed2 := ClearBits(tx2.bitmap, tx2.nextChunk, tx.total);
      assert owed == [c] + owed2 && sent == [DataPacket(tx, c)] + rest;
      forall i | 0 <= i < |sent| ensures sent[i] == DataPacket(tx, owed[i]) && owed[i] < tx1.nextChunk {
        if i > 0 {
          assert sent[i] == rest[i - 1] == DataPacket(tx2, owed2[i - 1]);
          DataPacketSame(tx, tx2, owed[i]);
        }
      }
      assert owed[|sent|..] == owed2[|rest|..];
    } else {
      assert owed[0..] == owed;
    }
  }

  lemma CountedShape(tx: Tx)
    requires RoundCounted(tx)
    ensures |tx.bitmap| == BITMAP_BITS && tx.total <= MAX_CHUNKS && tx.nextChunk <= tx.total
    ensures tx.remaining == Missing(tx.bitmap, tx.total) - Missing(tx.bitmap, tx.nextChunk)
  {
  }

  /** All packets of one retransmission round: the sender steps until it asks again. */
  function Round(tx: Tx): seq<Request>
    requires RoundCounted(tx) && tx.state == Retransmit
    decreases tx.remaining
  {
    ResendChunksExact(tx, BATCH);
    var o := Step(tx, false);
    if o.tx.state == Querying then o.sent else o.sent + Round(o.tx)
  }

  function DataPackets(tx: Tx, chunks: seq<nat>): seq<Request> {
    seq(|chunks|, i requires 0 <= i < |chunks| => DataPacket(tx, chunks[i]))
  }

  lemma DataPacketsSame(a: Tx, b: Tx, chunks: seq<nat>)
    requires a.image == b.image && a.sendWin == b.sendWin
    ensures DataPackets(a, chunks) == DataPackets(b, chunks)
  {
  }

  /** A round, over however many batches, sends exactly the chunks its bitmap marks missing, each
      once and in ascending order, and then the query. */
  lemma {:induction false} RoundExact(tx: Tx)
    requires RoundCounted(tx) && tx.state == Retransmit
    ensures Round(tx) == DataPackets(tx, ClearBits(tx.bitmap, tx.nextChunk, tx.total)) + [QueryPacket(tx)]
    decreases tx.remaining
  {
    hide DataPacket, RoundCounted, ClearBits, ResendChunks, Missing, NextMissing;
    CountedShape(tx);
    var owed := ClearBits(tx.bitmap, tx.nextChunk, tx.total);
    ResendChunksExact(tx, BATCH);
    var (tx1, sent) := ResendChunks(tx, BATCH);
    if tx1.remaining == 0 {
      assert sent == DataPackets(tx, owed);
    } else {
      RoundExact(tx1);
      DataPacketsSame(tx1, tx, owed[|sent|..]);
      assert DataPackets(tx, owed) == sent + DataPackets(tx, owed[|sent|..]);
    }
  }

  /** A reply that reports missing chunks starts a round whose counter is exact. */
  lemma QueryRespStartsRound(tx: Tx, p: Reply)
    requires |tx.bitmap| == BITMAP_BITS && p.QueryResp? && tx.total <= MAX_CHUNKS
    requires tx.total <= |p.bitmap| <= BITMAP_BITS && p.missing == Missing(p.bitmap, tx.total) > 0
    requires tx.state == Querying && p.win == tx.sendWin
    ensures var tx1 := OnQueryResp(tx, p).tx;
            && tx1.state == Retransmit && RoundCounted(tx1) && tx1.nextChunk == 0
            && ClearBits(tx1.bitmap, 0, tx1.total) == ClearBits(p.bitmap, 0, tx.total)
  {
    var tx1 := OnQueryResp(tx, p).tx;
    MissingPrefix(tx1.bitmap, p.bitmap, tx.total);
    ClearBitsSame(tx1.bitmap, p.bitmap, 0, tx.total);
  }

  /** The whole exchange: after a reply with missing chunks the sender sends exactly those. */
  lemma RetransmitsWhatWasMissing(tx: Tx, p: Reply)
    requires |tx.bitmap| == BITMAP_BITS && p.QueryResp? && tx.total <= MAX_CHUNKS
    requires tx.total <= |p.bitmap| <= BITMAP_BITS && p.missing == Missing(p.bitmap, tx.total) > 0
    requires tx.state == Querying && p.win == tx.sendWin
    ensures var tx1 := OnQueryResp(tx, p).tx;
            RoundCounted(tx1) && tx1.state == Retransmit
            && Round(tx1) == DataPackets(tx, ClearBits(p.bitmap, 0, tx.total)) + [QueryPacket(tx)]
  {
    var tx1 := OnQueryResp(tx, p).tx;
    QueryRespStartsRound(tx, p);
    RoundExact(tx1);
    DataPacketsSame(tx1, tx, ClearBits(p.bitmap, 0, tx.total));
  }
}
