/** Content safety of the transfer over a network that may lose, duplicate, delay and reorder
    packets in both directions: whatever was ever sent may arrive any number of times, any time. */
module OtaSafety {
  import opened Bytes
  import opened OtaProtocol
  import opened FlashMemory
  import Crc32
  import Rx = OtaReceiver
  import Tx = OtaSender

  datatype Net = Net(tx: Tx.Tx, rx: Rx.Rx, mem: seq<byte>, requests: set<Request>, replies: set<Reply>)

  /** One move: the sender steps, a packet sent earlier arrives, or the receiver's flash step runs
      on hardware that may fail as the plan says. */
  datatype Event =
    | SenderSteps(expired: bool)
    | SenderHears(reply: Reply)
    | ReceiverHears(request: Request)
    | FlashSteps(plan: Rx.Plan)

  function Range<T>(s: seq<T>): set<T> { set x | x in s }

  ghost predicate Enabled(s: Net, e: Event) {
    match e
    case SenderHears(p) => p in s.replies
    case ReceiverHears(p) => p in s.requests
    case _ => true
  }

  /** Array sizes and packet sizes; every reachable state has them (ReachableShapes). */
  ghost predicate Shapes(s: Net) {
    && Tx.Shape(s.tx) && Rx.Shape(s.rx)
    && (forall p :: p in s.requests ==> Rx.WellFormed(p))
    && (forall p :: p in s.replies && p.QueryResp? ==> |p.bitmap| <= BITMAP_BITS)
  }

  ghost function Next(s: Net, e: Event): Net
    requires Shapes(s) && Enabled(s, e)
  {
    match e
    case SenderSteps(expired) =>
      var o := Tx.Step(s.tx, expired);
      s.(tx := o.tx, requests := s.requests + Range(o.sent))
    case SenderHears(p) =>
      var o := Tx.Handle(s.tx, p);
      s.(tx := o.tx, requests := s.requests + Range(o.sent))
    case ReceiverHears(p) =>
      var o := Rx.Process(s.rx, p, FlashCrc(s.mem, s.rx.config.stagingOffset, s.rx.totalSize));
      s.(rx := o.rx, replies := s.replies + Range(o.replies))
    case FlashSteps(plan) =>
      var o := Rx.StepFlash(s.rx, s.mem, plan);
      s.(rx := o.rx, mem := o.mem, replies := s.replies + Range(o.replies))
  }

  /** The sender has just started on a correctly configured image; the receiver is freshly
      initialised; the flash holds anything. */
  ghost predicate Init(s: Net, image: seq<byte>) {
    && Addressable(image)
    && s.tx.image == image && s.tx.imageCrc == Crc32.Of(image) && |s.tx.bitmap| == BITMAP_BITS
    && s.tx.state == Tx.Starting && s.tx.totalWindows == WindowCount(|image|)
    && s.tx.sendWin == s.tx.commitWin == s.tx.credits == s.tx.retries == s.tx.total == s.tx.remaining == 0
    && Rx.Shape(s.rx) && s.rx.state == Rx.Idle && s.rx.committed == 0
    && s.rx.slots[0].state == s.rx.slots[1].state == Rx.Free
    && s.requests == {Tx.StartPacket(s.tx)} && s.replies == {}
    && s.rx.config.stagingOffset <= |s.mem|
  }

  // ---- the invariant ---------------------------------------------------------------------------

  /** Every chunk whose bit is set holds the image's bytes. */
  ghost predicate Filled(s: Rx.Slot, image: seq<byte>)
    requires |s.bitmap| == BITMAP_BITS && |s.buffer| == WINDOW && s.winBytes <= WINDOW
  {
    forall k :: 0 <= k < s.winBytes && s.bitmap[k / CHUNK] && s.win * WINDOW + k < |image| ==>
      s.buffer[k] == image[s.win * WINDOW + k]
  }

  ghost predicate SlotGood(s: Rx.Slot, i: nat, image: seq<byte>)
    requires Rx.SlotShape(s) && Addressable(image)
  {
    s.state != Rx.Free ==>
      && (s.state == Rx.Receiving || s.state == Rx.ReadyToFlash || s.state == Rx.Error)
      && s.win % 2 == i && s.win < WindowCount(|image|)
      && s.win * WINDOW <= |image| && s.winBytes == WindowBytes(|image|, s.win)
      && s.total <= MAX_CHUNKS
      && Filled(s, image)
      && s.received + Missing(s.bitmap, s.total) == s.total
      && (forall b :: s.total <= b < BITMAP_BITS ==> !s.bitmap[b])
      && (s.state != Rx.Receiving ==>
            Missing(s.bitmap, s.total) == 0 && s.expectedCrc == Crc32.Of(Window(image, s.win)))
  }

  function Min(a: nat, b: nat): nat { if a < b then a else b }

  /** The committed windows are in flash, byte for byte. */
  ghost predicate PrefixStaged(mem: seq<byte>, offset: nat, image: seq<byte>, committed: nat) {
    var n := Min(committed * WINDOW, |image|);
    offset + n <= |mem| && mem[offset..offset + n] == image[..n]
  }

  ghost predicate RxGood(rx: Rx.Rx, mem: seq<byte>, image: seq<byte>)
    requires Addressable(image)
  {
    && Rx.Shape(rx)
    && rx.state != Rx.AbortedState
    && (rx.state != Rx.Idle ==>
          && rx.totalSize == |image| && rx.imageCrc == Crc32.Of(image) && rx.totalWindows == WindowCount(|image|)
          && (rx.config.stagingMax > 0 ==> |image| <= rx.config.stagingMax)
          && rx.committed <= WindowCount(|image|)
          && PrefixStaged(mem, rx.config.stagingOffset, image, rx.committed)
          && SlotGood(rx.slots[0], 0, image) && SlotGood(rx.slots[1], 1, image))
    && (rx.state == Rx.Complete ==> rx.committed == WindowCount(|image|))
  }

  ghost predicate TxGood(tx: Tx.Tx) {
    && Tx.Shape(tx)
    && tx.imageCrc == Crc32.Of(tx.image) && tx.totalWindows == WindowCount(|tx.image|)
    && tx.sendWin <= tx.totalWindows
    && (tx.state == Tx.Starting ==> tx.sendWin == 0)
    && (tx.state == Tx.SendWindow || tx.state == Tx.Querying || tx.state == Tx.Retransmit ==>
          && tx.sendWin < tx.totalWindows
          && tx.winBytes == WindowBytes(|tx.image|, tx.sendWin) && tx.total == ChunkCount(tx.winBytes)
          && tx.winCrc == Crc32.Of(Tx.WindowData(tx.image, tx.sendWin)))
  }

  /** Replies carry one-byte window indices, bitmaps that match their count, and never the report
      of a CRC mismatch. */
  ghost predicate ReplyGood(p: Reply, image: seq<byte>) {
    match p
    case QueryResp(w, missing, bitmap) =>
      var total := ChunkCount(WindowBytes(|image|, w));
      && w < WindowCount(|image|) && total <= |bitmap| <= BITMAP_BITS && missing == Missing(bitmap, total)
    case Ready(w, _, _) => w < WindowCount(|image|)
    case Report(status, _) => status != ErrCrcMismatch
    case Aborted => false
    case _ => true
  }

  ghost predicate Inv(s: Net) {
    && s.rx.config.stagingOffset <= |s.mem|
    && TxGood(s.tx)
    && RxGood(s.rx, s.mem, s.tx.image)
    && (forall p :: p in s.requests ==> Honest(s.tx.image, s.tx.imageCrc, p) && Rx.WellFormed(p))
    && (forall p :: p in s.replies ==> ReplyGood(p, s.tx.image))
  }

  // ---- the sender only sends honest packets ------------------------------------------------------

  lemma ActiveWindow(tx: Tx.Tx)
    requires TxGood(tx) && (tx.state == Tx.SendWindow || tx.state == Tx.Querying || tx.state == Tx.Retransmit)
    ensures Honest(tx.image, tx.imageCrc, Tx.QueryPacket(tx)) && Rx.WellFormed(Tx.QueryPacket(tx))
    ensures forall c :: 0 <= c < tx.total ==> Honest(tx.image, tx.imageCrc, Tx.DataPacket(tx, c))
  {
    hide Crc32.Of, ChunkCount, WindowCount, WindowBytes;
    WindowFacts(|tx.image|, tx.sendWin);
    forall c | 0 <= c < tx.total ensures Honest(tx.image, tx.imageCrc, Tx.DataPacket(tx, c)) {
      ChunkFacts(tx.winBytes, c);
    }
  }

  ghost predicate AllHonest(tx: Tx.Tx, sent: seq<Request>)
    requires Addressable(tx.image)
  {
    forall i :: 0 <= i < |sent| ==> Honest(tx.image, tx.imageCrc, sent[i]) && Rx.WellFormed(sent[i])
  }

  lemma {:induction false} SendChunksHonest(tx: Tx.Tx, n: nat)
    requires TxGood(tx) && tx.state == Tx.SendWindow
    ensures var (tx1, sent) := Tx.SendChunks(tx, n);
            tx1 == tx.(chunk := tx1.chunk) && AllHonest(tx, sent)
    decreases n
  {
    hide Honest, Crc32.Of, ChunkCount, WindowCount, WindowBytes;
    if n > 0 && tx.chunk < tx.total {
      SendChunksHonest(tx.(chunk := tx.chunk + 1), n - 1);
      ActiveWindow(tx);
    }
  }

  lemma {:induction false} ResendChunksHonest(tx: Tx.Tx, n: nat)
    requires TxGood(tx) && tx.state == Tx.Retransmit
    ensures var (tx1, sent) := Tx.ResendChunks(tx, n);
            tx1 == tx.(bitmap := tx1.bitmap, nextChunk := tx1.nextChunk, remaining := tx1.remaining)
            && |tx1.bitmap| == BITMAP_BITS && tx1.remaining <= tx.remaining && AllHonest(tx, sent)
    decreases n
  {
    hide Honest, Crc32.Of, ChunkCount, WindowCount, WindowBytes;
    if n > 0 && tx.remaining > 0 {
      var c := NextMissing(tx.bitmap, tx.nextChunk, tx.total);
      if c < tx.total {
        ResendChunksHonest(tx.(bitmap := tx.bitmap[c := true], nextChunk := c + 1, remaining := tx.remaining - 1),
          n - 1);
        ActiveWindow(tx);
      }
    }
  }

  /** The outcome of a step leaves the sender good and sends only honest packets. */
  ghost predicate GoodOutcome(tx: Tx.Tx, o: Tx.Outcome)
    requires Addressable(tx.image)
  {
    TxGood(o.tx) && o.tx.image == tx.image && o.tx.imageCrc == tx.imageCrc && AllHonest(tx, o.sent)
  }

  lemma RetryGood(tx: Tx.Tx, p: Request)
    requires TxGood(tx) && Honest(tx.image, tx.imageCrc, p) && Rx.WellFormed(p)
    ensures GoodOutcome(tx, Tx.Retry(tx, p))
  {
    hide Crc32.Of, ChunkCount, WindowCount, WindowBytes, Honest;
  }

  lemma SendWindowGood(tx: Tx.Tx, expired: bool)
    requires TxGood(tx) && tx.state == Tx.SendWindow
    ensures GoodOutcome(tx, Tx.Step(tx, expired))
  {
    hide Crc32.Of, ChunkCount, WindowCount, WindowBytes, Tx.SendChunks, Honest;
    SendChunksHonest(tx, Tx.BATCH);
    ActiveWindow(tx);
  }

  lemma RetransmitGood(tx: Tx.Tx, expired: bool)
    requires TxGood(tx) && tx.state == Tx.Retransmit
    ensures GoodOutcome(tx, Tx.Step(tx, expired))
  {
    hide Crc32.Of, ChunkCount, WindowCount, WindowBytes, Tx.ResendChunks, Honest;
    ResendChunksHonest(tx, Tx.BATCH);
    ActiveWindow(tx);
  }

  lemma StepGood(tx: Tx.Tx, expired: bool)
    requires TxGood(tx)
    ensures TxGood(Tx.Step(tx, expired).tx) && Tx.Step(tx, expired).tx.image == tx.image
    ensures Tx.Step(tx, expired).tx.imageCrc == tx.imageCrc
    ensures AllHonest(tx, Tx.Step(tx, expired).sent)
  {
    hide Crc32.Of, ChunkCount, WindowCount, WindowBytes, Tx.SendChunks, Tx.ResendChunks, Honest, Tx.Retry,
         Tx.DataPacket;
    match tx.state {
      case SendWindow => SendWindowGood(tx, expired);
      case Retransmit => RetransmitGood(tx, expired);
      case Querying =>
        ActiveWindow(tx);
        RetryGood(tx, Tx.QueryPacket(tx));
      case Starting =>
        StartHonest(tx);
        RetryGood(tx, Tx.StartPacket(tx));
      case Finalizing =>
        FinalizeHonest(tx);
        RetryGood(tx, Finalize(tx.imageCrc));
      case _ =>
    }
  }

  lemma StartHonest(tx: Tx.Tx)
    requires TxGood(tx)
    ensures Honest(tx.image, tx.imageCrc, Tx.StartPacket(tx))
  {
  }

  lemma FinalizeHonest(tx: Tx.Tx)
    requires TxGood(tx)
    ensures Honest(tx.image, tx.imageCrc, Finalize(tx.imageCrc))
  {
  }

  lemma SetupGood(tx: Tx.Tx)
    requires Tx.Shape(tx) && tx.sendWin < tx.totalWindows
    requires tx.imageCrc == Crc32.Of(tx.image) && tx.totalWindows == WindowCount(|tx.image|)
    ensures TxGood(Tx.SetupWindow(tx, tx.sendWin).(state := Tx.SendWindow))
    ensures Tx.SetupWindow(tx, tx.sendWin).image == tx.image && Tx.SetupWindow(tx, tx.sendWin).imageCrc == tx.imageCrc
  {
    hide Crc32.Of, ChunkCount, WindowCount;
    WindowFacts(|tx.image|, tx.sendWin);
  }

  lemma OnQueryRespGood(tx: Tx.Tx, p: Reply)
    requires TxGood(tx) && p.QueryResp? && ReplyGood(p, tx.image)
    ensures var o := Tx.OnQueryResp(tx, p);
            TxGood(o.tx) && o.tx.image == tx.image && o.tx.imageCrc == tx.imageCrc && o.sent == []
  {
    hide Crc32.Of, ChunkCount, WindowCount, WindowBytes, Tx.SetupWindow, Tx.Int16;
    WindowCountFacts(|tx.image|);
    if tx.state == Tx.Querying && p.win == tx.sendWin {
      if p.missing > 0 {
        WindowFacts(|tx.image|, p.win);
        MissingBound(p.bitmap, tx.total);
      } else {
        var tx1 := tx.(credits := Tx.Int16(tx.credits - 1), sendWin := tx.sendWin + 1, retries := 0);
        if tx1.sendWin < tx1.totalWindows { SetupGood(tx1); }
      }
    }
  }

  lemma OnReadyGood(tx: Tx.Tx, p: Reply)
    requires TxGood(tx) && p.Ready? && ReplyGood(p, tx.image)
    ensures var o := Tx.OnReady(tx, p);
            TxGood(o.tx) && o.tx.image == tx.image && o.tx.imageCrc == tx.imageCrc && AllHonest(tx, o.sent)
  {
    hide Crc32.Of, ChunkCount, WindowCount, WindowBytes, Tx.SetupWindow, Tx.Int16;
    WindowCountFacts(|tx.image|);
    var tx1 := tx.(credits := Tx.Int16(tx.credits + p.credit), commitWin := (p.win + 1) % 0x1_0000);
    assert TxGood(tx1) && tx1.image == tx.image && tx1.imageCrc == tx.imageCrc;
    if p.status != Ok {
    } else if tx1.commitWin == tx1.totalWindows {
      assert TxGood(tx1.(state := Tx.Finalizing, retries := 0));
    } else if tx1.state == Tx.WaitReady && tx1.sendWin < tx1.totalWindows {
      SetupGood(tx1);
    }
  }

  lemma HandleGood(tx: Tx.Tx, p: Reply)
    requires TxGood(tx) && ReplyGood(p, tx.image)
    ensures TxGood(Tx.Handle(tx, p).tx) && Tx.Handle(tx, p).tx.image == tx.image
    ensures Tx.Handle(tx, p).tx.imageCrc == tx.imageCrc
    ensures AllHonest(tx, Tx.Handle(tx, p).sent)
  {
    hide Crc32.Of, ChunkCount, WindowCount, WindowBytes, Tx.SetupWindow, Tx.Int16, Tx.OnQueryResp, Tx.OnReady;
    WindowCountFacts(|tx.image|);
    match p {
      case StartAck(status, credit) =>
        if tx.state == Tx.Starting && status == Ok { SetupGood(tx.(credits := Tx.Int16(credit), retries := 0)); }
      case QueryResp(_, _, _) => OnQueryRespGood(tx, p);
      case Ready(_, _, _) => OnReadyGood(tx, p);
      case _ =>
    }
  }

  // ---- the receiver's slots ------------------------------------------------------------------------

  lemma OpenSlotGood(s: Rx.Slot, w: nat, image: seq<byte>)
    requires Rx.SlotShape(s) && Addressable(image) && w < WindowCount(|image|)
    ensures Rx.SlotShape(Rx.OpenSlot(s, w, |image|)) && SlotGood(Rx.OpenSlot(s, w, |image|), w % 2, image)
  {
    hide ChunkCount, WindowCount, Crc32.Of;
    WindowFacts(|image|, w);
    var t := Rx.OpenSlot(s, w, |image|);
    MissingBound(t.bitmap, t.total);
  }

  /** What storing a chunk writes: the image's bytes, clipped to the window. */
  lemma StoreChunkFilled(s: Rx.Slot, c: nat, image: seq<byte>)
    requires Rx.SlotShape(s) && Filled(s, image) && s.win * WINDOW + s.winBytes <= |image|
    requires c < s.total && c < BITMAP_BITS && c * CHUNK < s.winBytes
    ensures var t := Rx.StoreChunk(s, c, ChunkData(image, s.win, c));
            Rx.SlotShape(t) && Filled(t, image)
  {
    hide ChunkCount;
    var t := Rx.StoreChunk(s, c, ChunkData(image, s.win, c));
    forall k | 0 <= k < t.winBytes && t.bitmap[k / CHUNK] && t.win * WINDOW + k < |image|
      ensures t.buffer[k] == image[t.win * WINDOW + k]
    {
      if k / CHUNK != c { assert s.bitmap[k / CHUNK]; }
    }
  }

  lemma StoreChunkGood(s: Rx.Slot, i: nat, c: nat, image: seq<byte>)
    requires Rx.SlotShape(s) && Addressable(image) && SlotGood(s, i, image) && s.state == Rx.Receiving
    requires c < s.total && !s.bitmap[c] && s.win * WINDOW + c * CHUNK <= |image|
    ensures var t := Rx.StoreChunk(s, c, ChunkData(image, s.win, c));
            Rx.SlotShape(t) && SlotGood(t, i, image)
  {
    hide ChunkCount, WindowCount, WindowBytes, ChunkBytes, Crc32.Of, Filled;
    WindowFacts(|image|, s.win);
    ChunkFacts(s.winBytes, c);
    StoreChunkFilled(s, c, image);
    MissingSet(s.bitmap, s.total, c);
  }

  /** A full slot holds its window. */
  lemma FullSlot(s: Rx.Slot, i: nat, image: seq<byte>)
    requires Rx.SlotShape(s) && Addressable(image) && SlotGood(s, i, image) && s.state != Rx.Free
    requires Missing(s.bitmap, s.total) == 0
    ensures s.buffer[..s.winBytes] == Window(image, s.win)
  {
    hide ChunkCount, WindowCount, Crc32.Of;
    WindowFacts(|image|, s.win);
    MissingBound(s.bitmap, s.total);
    forall k | 0 <= k < s.winBytes ensures s.buffer[k] == image[s.win * WINDOW + k] {
      CoveredByChunk(s.winBytes, k);
    }
  }

  lemma CoveredByChunk(bytes: nat, k: nat)
    requires k < bytes <= WINDOW
    ensures k / CHUNK < ChunkCount(bytes)
  {
  }

  lemma QuerySlotGood(s: Rx.Slot, i: nat, image: seq<byte>)
    requires Rx.SlotShape(s) && Addressable(image) && SlotGood(s, i, image) && s.state != Rx.Free
    ensures var (t, missing) := Rx.QuerySlot(s, Crc32.Of(Window(image, s.win)), s.winBytes);
            && Rx.SlotShape(t) && SlotGood(t, i, image)
            && missing == Missing(t.bitmap, t.total) == t.total - t.received
            && t == s.(expectedCrc := t.expectedCrc, state := if missing == 0 then Rx.ReadyToFlash else s.state)
  {
    hide ChunkCount, WindowCount, Crc32.Of;
    if Missing(s.bitmap, s.total) == 0 { FullSlot(s, i, image); }
  }

  // ---- the receiver's packet handling --------------------------------------------------------------

  lemma SlotsAgree(rx: Rx.Rx, mem: seq<byte>, image: seq<byte>, i: nat)
    requires Addressable(image) && RxGood(rx, mem, image) && rx.state != Rx.Idle && i < 2
    ensures Rx.SlotShape(rx.slots[i]) && SlotGood(rx.slots[i], i, image)
  {
    assert i == 0 || i == 1;
  }

  lemma PutSlot(rx: Rx.Rx, mem: seq<byte>, image: seq<byte>, i: nat, s: Rx.Slot)
    requires Addressable(image) && RxGood(rx, mem, image) && i < 2
    requires Rx.SlotShape(s) && SlotGood(s, i, image)
    ensures RxGood(rx.(slots := rx.slots[i := s]), mem, image)
  {
    hide SlotGood, Rx.SlotShape, PrefixStaged, WindowCount, Crc32.Of;
    assert i == 0 || i == 1;
  }

  lemma OnDataGood(rx: Rx.Rx, mem: seq<byte>, image: seq<byte>, p: Request)
    requires Addressable(image) && RxGood(rx, mem, image) && p.Data? && Honest(image, Crc32.Of(image), p)
    ensures RxGood(Rx.OnData(rx, p).rx, mem, image) && Rx.OnData(rx, p).replies == []
  {
    hide ChunkCount, WindowCount, Crc32.Of, Rx.StoreChunk, Rx.OpenSlot, RxGood, SlotGood, WindowBytes;
    if rx.state == Rx.Transfer {
      DataSlot(rx, mem, image, p);
    }
  }

  /** The slot a DATA packet leaves behind is good whichever branch it took. */
  lemma DataSlot(rx: Rx.Rx, mem: seq<byte>, image: seq<byte>, p: Request)
    requires Addressable(image) && RxGood(rx, mem, image) && p.Data? && Honest(image, Crc32.Of(image), p)
    requires rx.state == Rx.Transfer
    ensures Rx.Shape(rx) && RxGood(Rx.OnData(rx, p).rx, mem, image)
  {
    hide ChunkCount, WindowCount, Crc32.Of, Rx.StoreChunk, Rx.OpenSlot, Filled, WindowBytes, PrefixStaged;
    var i := p.win % 2;
    var s0 := rx.slots[i];
    SlotsAgree(rx, mem, image, i);
    OpenSlotGood(s0, p.win, image);
    var s := if s0.state == Rx.Free then Rx.OpenSlot(s0, p.win, |image|) else s0;
    OpenedFor(s0, p.win, |image|);
    if s.win != p.win || (s.state != Rx.Receiving && s.state != Rx.ReadyToFlash) || p.chunk >= s.total {
      PutSlot(rx, mem, image, i, s);
    } else {
      ChunkFacts(s.winBytes, p.chunk);
      if s.bitmap[p.chunk] {
        PutSlot(rx, mem, image, i, s);
      } else {
        MissingBound(s.bitmap, s.total);
        StoreChunkGood(s, i, p.chunk, image);
        PutSlot(rx, mem, image, i, Rx.StoreChunk(s, p.chunk, p.data));
      }
    }
  }

  lemma OpenedFor(s: Rx.Slot, w: nat, size: nat)
    ensures var t := Rx.OpenSlot(s, w, size);
            t.win == w && t.winBytes == WindowBytes(size, w) && t.total == ChunkCount(t.winBytes)
              && t.state == Rx.Receiving
  {
    hide ChunkCount, WindowBytes;
  }

  lemma OnQueryGood(rx: Rx.Rx, mem: seq<byte>, image: seq<byte>, p: Request)
    requires Addressable(image) && RxGood(rx, mem, image) && p.Query? && Honest(image, Crc32.Of(image), p)
             && Rx.WellFormed(p)
    ensures RxGood(Rx.OnQuery(rx, p).rx, mem, image)
    ensures forall r :: r in Rx.OnQuery(rx, p).replies ==> ReplyGood(r, image)
  {
    hide ChunkCount, WindowCount, Crc32.Of, Rx.QuerySlot, Filled, WindowBytes, PrefixStaged;
    if rx.state == Rx.Transfer {
      var i := p.win % 2;
      var s := rx.slots[i];
      var total := ChunkCount(p.winBytes);
      WindowFacts(|image|, p.win);
      Covering(total);
      SlotsAgree(rx, mem, image, i);
      if s.state == Rx.Free || s.win != p.win {
        MissingBound(Rep(false, CoveringBits(total)), total);
      } else {
        var (t, missing) := Rx.QuerySlot(s, p.winCrc, p.winBytes);
        QuerySlotGood(s, i, image);
        PutSlot(rx, mem, image, i, t);
        MissingPrefix(t.bitmap, t.bitmap[..CoveringBits(total)], total);
      }
    }
  }

  lemma Covering(total: nat)
    requires total <= MAX_CHUNKS
    ensures total <= CoveringBits(total) <= BITMAP_BITS
  {
  }

  lemma OnStartGood(rx: Rx.Rx, mem: seq<byte>, image: seq<byte>, p: Request)
    requires Addressable(image) && RxGood(rx, mem, image) && p.Start? && Honest(image, Crc32.Of(image), p)
    requires rx.config.stagingOffset <= |mem|
    ensures RxGood(Rx.OnStart(rx, p).rx, mem, image)
  {
    hide ChunkCount, WindowCount, Crc32.Of;
    WindowCountFacts(|image|);
  }

  lemma WholeImageStaged(rx: Rx.Rx, mem: seq<byte>, image: seq<byte>)
    requires Addressable(image) && RxGood(rx, mem, image) && rx.state != Rx.Idle && rx.committed >= WindowCount(|image|)
    ensures rx.config.stagingOffset + |image| <= |mem|
    ensures mem[rx.config.stagingOffset..rx.config.stagingOffset + |image|] == image
  {
    hide WindowCount, Crc32.Of, SlotGood, Rx.SlotShape;
    WindowCountFacts(|image|);
    assert Min(rx.committed * WINDOW, |image|) == |image|;
    assert image[..|image|] == image;
  }

  lemma OnFinalizeGood(rx: Rx.Rx, mem: seq<byte>, image: seq<byte>, p: Request)
    requires Addressable(image) && RxGood(rx, mem, image) && p.Finalize?
    ensures var o := Rx.OnFinalize(rx, p, FlashCrc(mem, rx.config.stagingOffset, rx.totalSize));
            RxGood(o.rx, mem, image) && forall r :: r in o.replies ==> ReplyGood(r, image)
  {
    hide ChunkCount, WindowCount, Crc32.Of, SlotGood, Rx.SlotShape;
    WindowCountFacts(|image|);
    if rx.state == Rx.Transfer && rx.committed >= rx.totalWindows { WholeImageStaged(rx, mem, image); }
  }

  // ---- the flash step --------------------------------------------------------------------------------

  lemma BlockKeepsPrefix(mem: seq<byte>, mem': seq<byte>, offset: nat, image: seq<byte>, w: nat)
    requires |mem'| == |mem| && PrefixStaged(mem, offset, image, w)
    requires forall k :: 0 <= k < |mem| && k < offset + w * WINDOW ==> mem'[k] == mem[k]
    ensures PrefixStaged(mem', offset, image, w)
  {
    var n := Min(w * WINDOW, |image|);
    assert mem'[offset..offset + n] == mem[offset..offset + n];
  }

  lemma WindowEnd(size: nat, w: nat)
    requires 0 < size <= MAX_WINDOWS * WINDOW && w < WindowCount(size)
    ensures w * WINDOW == Min(w * WINDOW, size)
    ensures w * WINDOW + WindowBytes(size, w) == Min((w + 1) * WINDOW, size)
  {
    hide WindowCount, WindowBytes;
    WindowFacts(size, w);
    WindowCountFacts(size);
    if w + 1 < WindowCount(size) { WindowFacts(size, w + 1); }
  }

  lemma PrefixGrows(mem: seq<byte>, offset: nat, image: seq<byte>, w: nat)
    requires Addressable(image) && w < WindowCount(|image|) && w * WINDOW <= |image|
    requires PrefixStaged(mem, offset, image, w)
    requires offset + w * WINDOW + WindowBytes(|image|, w) <= |mem|
    requires mem[offset + w * WINDOW..offset + w * WINDOW + WindowBytes(|image|, w)] == Window(image, w)
    ensures PrefixStaged(mem, offset, image, w + 1)
  {
    hide WindowCount, WindowBytes, ChunkCount;
    WindowEnd(|image|, w);
    var base, n := offset + w * WINDOW, w * WINDOW + WindowBytes(|image|, w);
    assert mem[offset..offset + n] == mem[offset..base] + mem[base..offset + n];
    assert image[..n] == image[..w * WINDOW] + Window(image, w);
  }

  lemma FlashFailedGood(rx: Rx.Rx, i: nat, mem: seq<byte>, mem': seq<byte>, image: seq<byte>, status: Status)
    requires Addressable(image) && RxGood(rx, mem, image) && rx.state == Rx.Transfer && i < 2
    requires rx.slots[i].state == Rx.ReadyToFlash && rx.slots[i].win == rx.committed
    requires |mem'| == |mem|
    requires forall k :: 0 <= k < |mem| && k < rx.config.stagingOffset + rx.committed * WINDOW ==> mem'[k] == mem[k]
    ensures var o := Rx.FlashFailed(rx, i, mem', status);
            RxGood(o.rx, o.mem, image) && o.mem == mem' && forall r :: r in o.replies ==> ReplyGood(r, image)
  {
    hide ChunkCount, WindowCount, Crc32.Of, Filled, WindowBytes, PrefixStaged;
    var s := rx.slots[i];
    SlotsAgree(rx, mem, image, i);
    WindowCountFacts(|image|);
    BlockKeepsPrefix(mem, mem', rx.config.stagingOffset, image, rx.committed);
    OtherMemory(rx, mem, mem', image);
    var retries := (s.retries + 1) % 256;
    FilledSame(s, s.(retries := retries, state := Rx.Error), image);
    FilledSame(s, s.(retries := retries, state := Rx.ReadyToFlash), image);
    PutSlot(rx, mem', image, i,
      s.(retries := retries, state := if retries < MAX_FLASH_RETRIES then Rx.ReadyToFlash else Rx.Error));
  }

  lemma OtherMemory(rx: Rx.Rx, mem: seq<byte>, mem': seq<byte>, image: seq<byte>)
    requires Addressable(image) && RxGood(rx, mem, image)
    requires PrefixStaged(mem', rx.config.stagingOffset, image, rx.committed)
    ensures RxGood(rx, mem', image)
  {
    hide WindowCount, Crc32.Of, SlotGood, PrefixStaged, Rx.SlotShape;
  }

  lemma FilledSame(s: Rx.Slot, t: Rx.Slot, image: seq<byte>)
    requires Rx.SlotShape(s) && t == s.(retries := t.retries, state := t.state) && Filled(s, image)
    ensures Filled(t, image)
  {
  }

  lemma FlashSlotGood(rx: Rx.Rx, i: nat, mem: seq<byte>, image: seq<byte>, plan: Rx.Plan)
    requires Addressable(image) && RxGood(rx, mem, image) && rx.state == Rx.Transfer && i < 2 && Rx.Flashable(rx, i)
    ensures var o := Rx.FlashSlot(rx, i, mem, plan);
            RxGood(o.rx, o.mem, image) && forall r :: r in o.replies ==> ReplyGood(r, image)
  {
    hide ChunkCount, WindowCount, Crc32.Of, RxGood, WindowBytes, Program, Erase, Rx.FlashFailed;
    GoodShape(rx, mem, image);
    var s := rx.slots[i];
    var offset := rx.config.stagingOffset + s.win * WINDOW;
    ReadySlot(rx, i, mem, image);
    InsideStaging(rx, i, mem, image);
    var clobbered := Rx.Clobber(mem, offset, plan.residue);
    FlashFailedGood(rx, i, mem, clobbered, image, ErrErase);
    FlashFailedGood(rx, i, mem, clobbered, image, ErrProgram);
    if EraseAccepted(rx.config.port, |mem|, offset, WINDOW) {
      var mem' := Program(Erase(mem, offset, WINDOW), offset, s.buffer[..s.winBytes]);
      ProgramErased(mem, offset, WINDOW, s.buffer[..s.winBytes]);
      FlashFailedGood(rx, i, mem, mem', image, ErrVerify);
      CommitGood(rx, i, mem, mem', image);
    }
  }

  lemma GoodShape(rx: Rx.Rx, mem: seq<byte>, image: seq<byte>)
    requires Addressable(image) && RxGood(rx, mem, image)
    ensures Rx.Shape(rx)
  {
    hide WindowCount, Crc32.Of, SlotGood, PrefixStaged;
  }

  lemma InsideStaging(rx: Rx.Rx, i: nat, mem: seq<byte>, image: seq<byte>)
    requires Addressable(image) && RxGood(rx, mem, image) && rx.state == Rx.Transfer && i < |rx.slots|
    requires rx.slots[i].win * WINDOW + rx.slots[i].winBytes <= |image|
    ensures rx.config.stagingMax > 0 ==>
              Rx.FlashOffset(rx, rx.slots[i]) + rx.slots[i].winBytes <= rx.config.stagingOffset + rx.config.stagingMax
  {
    hide ChunkCount, WindowCount, Crc32.Of, SlotGood, WindowBytes, PrefixStaged;
  }

  /** A window that has been programmed joins the staged prefix and frees its slot. */
  lemma CommitGood(rx: Rx.Rx, i: nat, mem: seq<byte>, mem': seq<byte>, image: seq<byte>)
    requires Addressable(image) && RxGood(rx, mem, image) && rx.state == Rx.Transfer && i < 2 && Rx.Flashable(rx, i)
    requires |mem'| == |mem| && rx.slots[i].winBytes <= WINDOW == |rx.slots[i].buffer|
    requires var offset := rx.config.stagingOffset + rx.committed * WINDOW;
             && offset + WINDOW <= |mem|
             && mem'[offset..offset + rx.slots[i].winBytes] == rx.slots[i].buffer[..rx.slots[i].winBytes]
             && forall k :: 0 <= k < offset ==> mem'[k] == mem[k]
    ensures RxGood(rx.(slots := rx.slots[i := rx.slots[i].(state := Rx.Free)], committed := rx.committed + 1), mem',
            image)
  {
    hide ChunkCount, WindowCount, Crc32.Of, SlotGood, WindowBytes, PrefixStaged, Rx.SlotShape;
    var s := rx.slots[i];
    ReadySlot(rx, i, mem, image);
    BlockKeepsPrefix(mem, mem', rx.config.stagingOffset, image, rx.committed);
    PrefixGrows(mem', rx.config.stagingOffset, image, rx.committed);
    FreedSlot(s, i, image);
    PutSlot(rx.(committed := rx.committed + 1), mem', image, i, s.(state := Rx.Free));
  }

  lemma FreedSlot(s: Rx.Slot, i: nat, image: seq<byte>)
    requires Rx.SlotShape(s) && Addressable(image)
    ensures Rx.SlotShape(s.(state := Rx.Free)) && SlotGood(s.(state := Rx.Free), i, image)
  {
  }

  lemma ReadySlot(rx: Rx.Rx, i: nat, mem: seq<byte>, image: seq<byte>)
    requires Addressable(image) && RxGood(rx, mem, image) && rx.state == Rx.Transfer && i < 2 && Rx.Flashable(rx, i)
    ensures var s := rx.slots[i];
            && Rx.SlotShape(s) && s.win < WindowCount(|image|) && s.win * WINDOW <= |image| && s.winBytes <= WINDOW
            && s.winBytes == WindowBytes(|image|, s.win) && s.win * WINDOW + s.winBytes <= |image|
            && s.buffer[..s.winBytes] == Window(image, s.win)
            && rx.committed + 1 <= WindowCount(|image|) <= MAX_WINDOWS
  {
    hide ChunkCount, WindowCount, Crc32.Of;
    var s := rx.slots[i];
    SlotsAgree(rx, mem, image, i);
    FullSlot(s, i, image);
    WindowFacts(|image|, s.win);
  }

  // ---- every step keeps the invariant ------------------------------------------------------------------

  lemma ReceiverHearsGood(s: Net, p: Request)
    requires Inv(s) && p in s.requests
    ensures var o := Rx.Process(s.rx, p, FlashCrc(s.mem, s.rx.config.stagingOffset, s.rx.totalSize));
            RxGood(o.rx, s.mem, s.tx.image) && forall r :: r in o.replies ==> ReplyGood(r, s.tx.image)
  {
    hide RxGood, Crc32.Of, Rx.OnStart, Rx.OnData, Rx.OnQuery, Rx.OnFinalize, Rx.Shape;
    InvShapes(s);
    match p {
      case Start(_, _, _, _) =>
        OnStartGood(s.rx, s.mem, s.tx.image, p);
        StartReplies(s.rx, p);
      case Data(_, _, _) => OnDataGood(s.rx, s.mem, s.tx.image, p);
      case Query(_, _, _) => OnQueryGood(s.rx, s.mem, s.tx.image, p);
      case Finalize(_) => OnFinalizeGood(s.rx, s.mem, s.tx.image, p);
      case Abort => assert false;
    }
  }

  lemma StartReplies(rx: Rx.Rx, p: Request)
    requires p.Start? && Rx.Shape(rx)
    ensures forall r :: r in Rx.OnStart(rx, p).replies ==> r.StartAck?
  {
  }

  lemma FlashStepsGood(s: Net, plan: Rx.Plan)
    requires Inv(s)
    ensures var o := Rx.StepFlash(s.rx, s.mem, plan);
            RxGood(o.rx, o.mem, s.tx.image) && forall r :: r in o.replies ==> ReplyGood(r, s.tx.image)
  {
    hide RxGood, Rx.FlashSlot, Crc32.Of;
    InvShapes(s);
    if s.rx.state == Rx.Transfer {
      if Rx.Flashable(s.rx, 0) { FlashSlotGood(s.rx, 0, s.mem, s.tx.image, plan); }
      else if Rx.Flashable(s.rx, 1) { FlashSlotGood(s.rx, 1, s.mem, s.tx.image, plan); }
    }
  }

  lemma InvShapes(s: Net)
    requires Inv(s)
    ensures Shapes(s)
  {
    hide Crc32.Of, WindowCount, ChunkCount, SlotGood, PrefixStaged;
  }

  lemma InvNext(s: Net, e: Event)
    requires Inv(s) && Enabled(s, e)
    ensures Shapes(s) && Inv(Next(s, e)) && Next(s, e).tx.image == s.tx.image
    ensures Next(s, e).rx.config == s.rx.config
  {
    hide TxGood, RxGood, ReplyGood, Honest, Tx.Step, Tx.Handle, Rx.Process, Rx.StepFlash, Crc32.Of, Tx.Shape, Rx.Shape;
    InvShapes(s);
    match e {
      case SenderSteps(expired) => StepGood(s.tx, expired);
      case SenderHears(p) => HandleGood(s.tx, p);
      case ReceiverHears(p) =>
        ReceiverHearsGood(s, p);
        ConfigKept(s.rx, p, FlashCrc(s.mem, s.rx.config.stagingOffset, s.rx.totalSize));
      case FlashSteps(plan) =>
        FlashStepsGood(s, plan);
        Rx.StepFlashKeepsShape(s.rx, s.mem, plan);
        FlashConfigKept(s.rx, s.mem, plan);
    }
  }

  lemma ConfigKept(rx: Rx.Rx, p: Request, readback: bv32)
    requires Rx.Shape(rx) && Rx.WellFormed(p)
    ensures Rx.Process(rx, p, readback).rx.config == rx.config
  {
    hide Crc32.Of, ChunkCount, Rx.SlotShape, Rx.QuerySlot, Rx.StoreChunk, Rx.OpenSlot;
  }

  lemma FlashConfigKept(rx: Rx.Rx, mem: seq<byte>, plan: Rx.Plan)
    requires Rx.Shape(rx)
    ensures Rx.StepFlash(rx, mem, plan).rx.config == rx.config
  {
    hide Crc32.Of, ChunkCount, Program, Erase, Rx.Clobber;
  }

  // ---- whole runs ----------------------------------------------------------------------------------------

  ghost predicate Moves(s: Net, e: Event, s': Net) { Shapes(s) && Enabled(s, e) && s' == Next(s, e) }

  /** A run: states, and the events that lead from each to the next. */
  ghost predicate Run(states: seq<Net>, events: seq<Event>, image: seq<byte>) {
    && |states| == |events| + 1
    && Init(states[0], image)
    && forall i :: 0 <= i < |events| ==> Moves(states[i], events[i], states[i + 1])
  }

  lemma InitInv(s: Net, image: seq<byte>)
    requires Init(s, image)
    ensures Inv(s)
  {
    hide Crc32.Of, WindowCount, ChunkCount, Rx.SlotShape;
    WindowCountFacts(|image|);
  }

  lemma {:induction false} RunInv(states: seq<Net>, events: seq<Event>, image: seq<byte>, i: nat)
    requires Run(states, events, image) && i < |states|
    ensures Inv(states[i]) && states[i].tx.image == image
    ensures states[i].rx.config == states[0].rx.config
  {
    hide Inv, Enabled, Next, Shapes;
    if i == 0 {
      InitInv(states[0], image);
    } else {
      RunInv(states, events, image, i - 1);
      assert Moves(states[i - 1], events[i - 1], states[i]);
      InvNext(states[i - 1], events[i - 1]);
    }
  }

  /** No reachable state blocks an event: the shapes a move needs always hold. */
  lemma ReachableShapes(states: seq<Net>, events: seq<Event>, image: seq<byte>, i: nat)
    requires Run(states, events, image) && i < |states|
    ensures Shapes(states[i])
  {
    hide Inv, Shapes, Enabled, Next;
    RunInv(states, events, image, i);
    InvShapes(states[i]);
  }

  /** Main theorem. At every moment of every run the windows the receiver has committed are in
      flash byte for byte, a completed receiver has the whole image in flash, and the receiver
      neither aborts nor ever reports a CRC mismatch. */
  lemma TransferIsSafe(states: seq<Net>, events: seq<Event>, image: seq<byte>, i: nat)
    requires Run(states, events, image) && i < |states|
    ensures var s := states[i];
            var base := states[0].rx.config.stagingOffset;
            && (s.rx.state != Rx.Idle ==>
                  var n := Min(s.rx.committed * WINDOW, |image|);
                  base + n <= |s.mem| && s.mem[base..base + n] == image[..n])
            && (s.rx.state == Rx.Complete ==>
                  base + |image| <= |s.mem| && s.mem[base..base + |image|] == image)
            && s.rx.state != Rx.AbortedState
            && forall p :: p in s.replies && p.Report? ==> p.status != ErrCrcMismatch
  {
    hide Crc32.Of, WindowCount, ChunkCount, Rx.SlotShape, SlotGood, TxGood;
    RunInv(states, events, image, i);
    var s := states[i];
    if s.rx.state == Rx.Complete { WholeImageStaged(s.rx, s.mem, image); }
  }

  /** Every missing count the receiver ever reports is the number of clear bits it sends along. */
  lemma ReportedMissingExact(states: seq<Net>, events: seq<Event>, image: seq<byte>, i: nat, p: Reply)
    requires Run(states, events, image) && i < |states| && p in states[i].replies && p.QueryResp?
    ensures var total := ChunkCount(WindowBytes(|image|, p.win));
            p.win < WindowCount(|image|) && total <= |p.bitmap| && p.missing == Missing(p.bitmap, total)
  {
    hide Crc32.Of, WindowCount, ChunkCount, WindowBytes, TxGood, RxGood;
    RunInv(states, events, image, i);
    assert ReplyGood(p, image);
  }

  /** In the receiver, the clear bits of a slot are the chunks of its window that have not arrived. */
  lemma ReceivedExact(states: seq<Net>, events: seq<Event>, image: seq<byte>, i: nat, k: nat)
    requires Run(states, events, image) && i < |states| && k < 2 && |states[i].rx.slots| == 2
    requires states[i].rx.state != Rx.Idle && states[i].rx.slots[k].state != Rx.Free
    ensures var slot := states[i].rx.slots[k];
            && |slot.bitmap| == BITMAP_BITS && slot.total <= MAX_CHUNKS
            && slot.total == ChunkCount(WindowBytes(|image|, slot.win))
            && slot.received == slot.total - Missing(slot.bitmap, slot.total)
  {
    hide Crc32.Of, WindowCount, ChunkCount, WindowBytes, Filled, TxGood, PrefixStaged, ReplyGood, Honest;
    RunInv(states, events, image, i);
    SlotsAgree(states[i].rx, states[i].mem, image, k);
  }

  ghost predicate OkReported(s: Net) { exists c :: Report(Ok, c) in s.replies }

  /** A sender that reached COMPLETE was told so by a receiver that had reached it before. */
  lemma {:induction false} SenderCompleteLater(states: seq<Net>, events: seq<Event>, image: seq<byte>, i: nat)
    returns (j: nat)
    requires Run(states, events, image) && i < |states|
    requires states[i].tx.state == Tx.Complete || OkReported(states[i])
    ensures j <= i && states[j].rx.state == Rx.Complete
    decreases i
  {
    hide Inv, Shapes, Next, Enabled;
    RunInv(states, events, image, i);
    if i == 0 {
      assert false;
    } else {
      RunInv(states, events, image, i - 1);
      var s, s' := states[i - 1], states[i];
      assert Moves(s, events[i - 1], s');
      if s.tx.state == Tx.Complete || OkReported(s) {
        j := SenderCompleteLater(states, events, image, i - 1);
      } else {
        CompletionMoment(s, events[i - 1]);
        j := i;
      }
    }
  }

  lemma SenderStepsNotComplete(tx: Tx.Tx, expired: bool)
    requires |tx.bitmap| == BITMAP_BITS && tx.total <= BITMAP_BITS && TxGood(tx)
    ensures Tx.Step(tx, expired).tx.state == Tx.Complete ==> tx.state == Tx.Complete
  {
    hide TxGood, Tx.SendChunks, Tx.ResendChunks, WindowCount, ChunkCount, Crc32.Of;
    if tx.state == Tx.SendWindow { SendChunksHonest(tx, Tx.BATCH); }
    if tx.state == Tx.Retransmit { ResendChunksHonest(tx, Tx.BATCH); }
  }

  lemma SenderHearsCompletion(tx: Tx.Tx, p: Reply)
    requires |tx.bitmap| == BITMAP_BITS && (p.QueryResp? ==> |p.bitmap| <= BITMAP_BITS)
    ensures Tx.Handle(tx, p).tx.state == Tx.Complete ==> tx.state == Tx.Complete || (p.Report? && p.status == Ok)
  {
    hide Tx.SetupWindow, Tx.Int16;
    SetupKeepsState(tx);
  }

  lemma SetupKeepsState(tx: Tx.Tx)
    ensures forall t: Tx.Tx, w :: Tx.SetupWindow(t, w).state == t.state
  {
    hide Crc32.Of, ChunkCount, WindowBytes;
  }

  lemma ReceiverReportsOk(rx: Rx.Rx, p: Request, readback: bv32, c: bv32)
    requires Rx.Shape(rx) && Rx.WellFormed(p) && Report(Ok, c) in Rx.Process(rx, p, readback).replies
    ensures Rx.Process(rx, p, readback).rx.state == Rx.Complete
  {
    hide Rx.SlotShape, Rx.StoreChunk, Rx.OpenSlot, Rx.QuerySlot, Rx.Reset, ChunkCount, Crc32.Of;
  }

  lemma FlashNeverReports(rx: Rx.Rx, mem: seq<byte>, plan: Rx.Plan, r: Reply)
    requires Rx.Shape(rx) && r in Rx.StepFlash(rx, mem, plan).replies
    ensures r.Ready?
  {
    hide Crc32.Of, ChunkCount, Program, Erase, Rx.Clobber, Rx.SlotShape;
  }

  lemma OkReportedBy(s: Net, p: Reply)
    requires p in s.replies && p.Report? && p.status == Ok
    ensures OkReported(s)
  {
    assert p == Report(Ok, p.stagedCrc);
  }

  lemma CompletionMoment(s: Net, e: Event)
    requires Inv(s) && Shapes(s) && Enabled(s, e)
    requires s.tx.state != Tx.Complete && !OkReported(s)
    requires Next(s, e).tx.state == Tx.Complete || OkReported(Next(s, e))
    ensures Next(s, e).rx.state == Rx.Complete
  {
    hide TxGood, RxGood, Tx.Step, Tx.Handle, Rx.Process, Rx.StepFlash;
    match e {
      case SenderSteps(expired) => SenderStepsNotComplete(s.tx, expired);
      case SenderHears(p) =>
        SenderHearsCompletion(s.tx, p);
        if p.Report? && p.status == Ok { OkReportedBy(s, p); }
      case ReceiverHears(p) =>
        var c :| Report(Ok, c) in Next(s, e).replies;
        ReceiverReportsOk(s.rx, p, FlashCrc(s.mem, s.rx.config.stagingOffset, s.rx.totalSize), c);
      case FlashSteps(plan) =>
        var c :| Report(Ok, c) in Next(s, e).replies;
        FlashNeverReports(s.rx, s.mem, plan, Report(Ok, c));
    }
  }
}
