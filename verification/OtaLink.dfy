/** The transfer over a first-in first-out link: control packets always arrive, DATA packets may be
    lost, nothing is duplicated, no timeout fires. Credits, double buffering, termination. */
module OtaLink {
  import opened Bytes
  import opened OtaProtocol
  import opened FlashMemory
  import Crc32
  import Rx = OtaReceiver
  import Tx = OtaSender
  import Safety = OtaSafety
  import Queue = ResponseQueue

  /** gained: this round has already delivered a chunk that was still missing. */
  datatype Link = Link(tx: Tx.Tx, rx: Rx.Rx, mem: seq<byte>, fwd: seq<Request>, bwd: seq<Reply>, gained: bool)

  datatype Event = SenderSteps | RequestArrives | DataLost | ReplyArrives | FlashSteps(plan: Rx.Plan)

  ghost predicate Shapes(s: Link) {
    && Tx.Shape(s.tx) && Rx.Shape(s.rx)
    && (forall i :: 0 <= i < |s.fwd| ==> Rx.WellFormed(s.fwd[i]))
    && (forall i :: 0 <= i < |s.bwd| && s.bwd[i].QueryResp? ==> |s.bwd[i].bitmap| <= BITMAP_BITS)
  }

  predicate Sending(tx: Tx.Tx) { tx.state == Tx.SendWindow || tx.state == Tx.Retransmit }

  predicate Active(tx: Tx.Tx) { Sending(tx) || tx.state == Tx.Querying }

  /** Chunks the sender has still to send in this round. */
  function ToSend(tx: Tx.Tx): nat {
    if tx.state == Tx.SendWindow && tx.chunk <= tx.total then tx.total - tx.chunk
    else if tx.state == Tx.Retransmit then tx.remaining
    else 0
  }

  function ReadySlot(rx: Rx.Rx): nat
    requires |rx.slots| == 2
  {
    if Rx.Flashable(rx, 0) then 0 else 1
  }

  ghost predicate FlashFails(s: Link, plan: Rx.Plan)
    requires Rx.Shape(s.rx)
  {
    Rx.StepFlash(s.rx, s.mem, plan).rx.committed == s.rx.committed
  }

  /** The assumptions of the setting: a round may lose any DATA packets as long as it delivers one
      (the head may be lost only if a chunk has arrived or another one follows), and a window's
      flash attempt may fail at most twice. */
  ghost predicate Enabled(s: Link, e: Event)
    requires Shapes(s)
  {
    match e
    case SenderSteps => Sending(s.tx)
    case RequestArrives => s.fwd != []
    case DataLost => s.fwd != [] && s.fwd[0].Data? && (s.gained || (|s.fwd| > 1 && s.fwd[1].Data?) || ToSend(s.tx) > 0)
    case ReplyArrives => s.bwd != []
    case FlashSteps(plan) =>
      && s.rx.state == Rx.Transfer && (Rx.Flashable(s.rx, 0) || Rx.Flashable(s.rx, 1))
      && (FlashFails(s, plan) ==> s.rx.slots[ReadySlot(s.rx)].retries + 1 < MAX_FLASH_RETRIES)
  }

  ghost function Next(s: Link, e: Event): Link
    requires Shapes(s) && Enabled(s, e)
  {
    match e
    case SenderSteps =>
      var o := Tx.Step(s.tx, false);
      s.(tx := o.tx, fwd := s.fwd + o.sent)
    case RequestArrives =>
      var o := Rx.Process(s.rx, s.fwd[0], FlashCrc(s.mem, s.rx.config.stagingOffset, s.rx.totalSize));
      s.(rx := o.rx, fwd := s.fwd[1..], bwd := s.bwd + o.replies, gained := s.gained || FreshData(s.rx, s.fwd[0]))
    case DataLost => s.(fwd := s.fwd[1..])
    case ReplyArrives =>
      var o := Tx.Handle(s.tx, s.bwd[0]);
      s.(tx := o.tx, bwd := s.bwd[1..], fwd := s.fwd + o.sent, gained := s.gained && s.bwd[0].Ready?)
    case FlashSteps(plan) =>
      var o := Rx.StepFlash(s.rx, s.mem, plan);
      s.(rx := o.rx, mem := o.mem, bwd := s.bwd + o.replies)
  }

  /** A DATA packet whose chunk the receiver does not have yet and takes. */
  ghost predicate FreshData(rx: Rx.Rx, p: Request)
    requires Rx.Shape(rx)
  {
    p.Data? && Rx.OnData(rx, p).result && Open(rx, p.win, p.chunk)
  }

  ghost predicate Open(rx: Rx.Rx, w: nat, c: nat)
    requires |rx.slots| == 2
  {
    rx.slots[w % 2].state == Rx.Free || (c < |rx.slots[w % 2].bitmap| && !rx.slots[w % 2].bitmap[c])
  }

  /** The flash functions accept every window of an image of this size. */
  ghost predicate PortAccepts(config: Rx.Config, memory: nat, size: nat) {
    && (config.stagingMax > 0 ==> size <= config.stagingMax)
    && forall w :: 0 <= w < WindowCount(size) ==> WindowAccepted(config, memory, size, w)
  }

  ghost predicate WindowAccepted(config: Rx.Config, memory: nat, size: nat, w: nat) {
    && EraseAccepted(config.port, memory, config.stagingOffset + w * WINDOW, WINDOW)
    && ProgramAccepted(config.port, memory, config.stagingOffset + w * WINDOW, WindowBytes(size, w))
  }

  ghost predicate Init(s: Link, image: seq<byte>) {
    && Safety.Init(Safety.Net(s.tx, s.rx, s.mem, {Tx.StartPacket(s.tx)}, {}), image)
    && s.fwd == [Tx.StartPacket(s.tx)] && s.bwd == [] && !s.gained
    && s.rx.config.initialCredits < 0x1_0000
    && PortAccepts(s.rx.config, |s.mem|, |image|)
  }

  ghost predicate Final(s: Link) { s.tx.state == Tx.Complete && s.rx.state == Rx.Complete }

  // ---- the invariant ---------------------------------------------------------------------------

  ghost predicate Base(s: Link) {
    && s.rx.config.stagingOffset <= |s.mem|
    && Safety.TxGood(s.tx) && Safety.RxGood(s.rx, s.mem, s.tx.image)
    && s.rx.config.initialCredits < 0x1_0000 && PortAccepts(s.rx.config, |s.mem|, |s.tx.image|)
  }

  /** The query of the current window has been answered with "nothing missing". */
  ghost predicate Acknowledged(s: Link)
    requires |s.rx.slots| == 2
  {
    s.tx.state == Tx.Querying && s.fwd == [] && s.rx.slots[s.tx.sendWin % 2].state != Rx.Receiving
  }

  /** Windows the receiver holds completely. */
  ghost function Held(s: Link): nat
    requires |s.rx.slots| == 2
  {
    s.tx.sendWin + if Acknowledged(s) then 1 else 0
  }

  predicate Transferring(tx: Tx.Tx) { Active(tx) || tx.state == Tx.WaitReady }

  ghost predicate Counting(s: Link)
    requires |s.rx.slots| == 2
  {
    Transferring(s.tx) ==>
      && s.tx.credits == Tx.Int16(Rx.Credit(s.rx.config) + s.tx.commitWin - s.tx.sendWin)
      && s.tx.commitWin <= s.tx.sendWin && s.tx.commitWin <= s.rx.committed <= Held(s)
      && s.tx.commitWin < s.tx.totalWindows
      && s.rx.state == Rx.Transfer && !Crowded(s)
      && (s.tx.state == Tx.WaitReady ==> s.tx.commitWin < s.tx.sendWin)
  }

  /** The sender is busy with a window whose slot still belongs to the window two before it. */
  predicate Crowded(s: Link) { Active(s.tx) && s.tx.sendWin > s.rx.committed + 1 }

  /** Each slot is free, holds one complete window waiting for flash, or receives the current one. */
  ghost predicate SlotUse(s: Link, i: nat)
    requires |s.rx.slots| == 2 && i < 2
  {
    var t := s.rx.slots[i];
    || t.state == Rx.Free
    || (t.state == Rx.ReadyToFlash && s.rx.committed <= t.win < Held(s)
        && t.retries < (if t.win == s.rx.committed then MAX_FLASH_RETRIES else 1))
    || (t.state == Rx.Receiving && Active(s.tx) && t.win == s.tx.sendWin && t.retries == 0)
  }

  ghost predicate Slots(s: Link)
    requires |s.rx.slots| == 2
  {
    Transferring(s.tx) ==>
      && SlotUse(s, 0) && SlotUse(s, 1)
      && forall w :: s.rx.committed <= w < Held(s) ==>
           s.rx.slots[w % 2].state == Rx.ReadyToFlash && s.rx.slots[w % 2].win == w
  }

  /** The first n packets under way are DATA packets of the current window, in ascending chunk
      order below a bound, each for a chunk the receiver does not have. */
  ghost predicate Carrying(s: Link, n: nat, bound: nat)
    requires |s.rx.slots| == 2 && n <= |s.fwd|
  {
    && (forall i :: 0 <= i < n ==> ChunkUnderWay(s, s.fwd[i], bound))
    && (forall i, j :: 0 <= i < j < n && s.fwd[i].Data? && s.fwd[j].Data? ==> s.fwd[i].chunk < s.fwd[j].chunk)
  }

  ghost predicate ChunkUnderWay(s: Link, p: Request, bound: nat)
    requires |s.rx.slots| == 2
  {
    p.Data? && p.chunk < bound && p == Tx.DataPacket(s.tx, p.chunk) && Open(s.rx, s.tx.sendWin, p.chunk)
  }

  /** What the reply queue still owes besides READY packets. */
  datatype Expect = Nothing | AllIn | Wants(bitmap: seq<bool>)

  /** The reply queue: one READY for each committed window the sender has not heard of, in order,
      and at most one answer to the query, ahead of the READY of the window it is about. */
  ghost predicate Replies(q: seq<Reply>, next: nat, committed: nat, tx: Tx.Tx, owed: Expect)
    decreases |q|
  {
    if q == [] then next == committed && owed == Nothing
    else if q[0].Ready? then
      && q[0] == Ready(next, Ok, 1) && next < committed && (owed != Nothing ==> next < tx.sendWin)
      && Replies(q[1..], next + 1, committed, tx, owed)
    else
      && Answers(q[0], tx, owed)
      && Replies(q[1..], next, committed, tx, Nothing)
  }

  ghost predicate Answers(p: Reply, tx: Tx.Tx, owed: Expect) {
    && p.QueryResp? && p.win == tx.sendWin && Safety.ReplyGood(p, tx.image)
    && match owed
       case Nothing => false
       case AllIn => p.missing == 0
       case Wants(bitmap) =>
         && tx.total <= |bitmap| && tx.total <= |p.bitmap| && p.bitmap[..tx.total] == bitmap[..tx.total]
         && p.missing == Missing(p.bitmap, tx.total) > 0
  }

  ghost predicate Flow(s: Link)
    requires |s.rx.slots| == 2
  {
    var w := s.tx.sendWin;
    match s.tx.state
    case Starting =>
      && s.tx.sendWin == s.tx.commitWin == 0
      && ((s.fwd == [Tx.StartPacket(s.tx)] && s.bwd == [] && s.rx.state == Rx.Idle)
          || (s.fwd == [] && s.bwd == [StartAck(Ok, Rx.Credit(s.rx.config))] && s.rx.state == Rx.Transfer
              && s.rx.committed == 0 && s.rx.slots[0].state == s.rx.slots[1].state == Rx.Free))
    case SendWindow =>
      && s.tx.chunk < s.tx.total
      && Carrying(s, |s.fwd|, s.tx.chunk)
      && (forall c :: s.tx.chunk <= c < s.tx.total ==> Open(s.rx, w, c))
      && Replies(s.bwd, s.tx.commitWin, s.rx.committed, s.tx, Nothing)
    case Retransmit =>
      && Tx.RoundCounted(s.tx) && s.tx.remaining > 0
      && s.rx.slots[w % 2].state == Rx.Receiving
      && Carrying(s, |s.fwd|, s.tx.nextChunk)
      && (forall c :: s.tx.nextChunk <= c < s.tx.total && !s.tx.bitmap[c] ==> Open(s.rx, w, c))
      && Replies(s.bwd, s.tx.commitWin, s.rx.committed, s.tx, Nothing)
    case Querying =>
      if s.fwd != [] then
        && s.fwd[|s.fwd| - 1] == Tx.QueryPacket(s.tx)
        && Carrying(s, |s.fwd| - 1, s.tx.total)
        && (s.gained ==> s.rx.slots[w % 2].state == Rx.Receiving)
        && (s.gained || |s.fwd| > 1)
        && Replies(s.bwd, s.tx.commitWin, s.rx.committed, s.tx, Nothing)
      else if Acknowledged(s) then Replies(s.bwd, s.tx.commitWin, s.rx.committed, s.tx, AllIn)
      else s.gained && Replies(s.bwd, s.tx.commitWin, s.rx.committed, s.tx, Wants(s.rx.slots[w % 2].bitmap))
    case WaitReady =>
      s.fwd == [] && !s.gained && Replies(s.bwd, s.tx.commitWin, s.rx.committed, s.tx, Nothing)
    case Finalizing =>
      || (s.fwd == [Finalize(s.tx.imageCrc)] && s.bwd == [] && s.rx.state == Rx.Transfer
          && s.rx.committed == s.tx.totalWindows)
      || (s.fwd == [] && s.bwd == [Report(Ok, s.tx.imageCrc)] && s.rx.state == Rx.Complete)
    case Complete => s.fwd == [] && s.bwd == [] && s.rx.state == Rx.Complete
    case _ => false
  }

  /** A chunk counts as gained only once its slot is receiving. */
  ghost predicate GainedMeansReceiving(s: Link)
    requires |s.rx.slots| == 2
  {
    Sending(s.tx) && s.gained ==> s.rx.slots[s.tx.sendWin % 2].state == Rx.Receiving
  }

  ghost predicate Inv(s: Link) {
    Base(s) && Rx.Shape(s.rx) && Counting(s) && Slots(s) && Flow(s) && GainedMeansReceiving(s)
  }

  // ---- the measure -------------------------------------------------------------------------------

  function Phase(s: Link): nat {
    match s.tx.state
    case Starting => if s.fwd != [] then 5 else 4
    case Finalizing => if s.fwd != [] then 2 else 1
    case Complete => 0
    case _ => 3
  }

  function Left(a: nat, b: nat): nat { if a >= b then a - b else 0 }

  /** Flash attempts still possible: three a window, less the failures of the next one. */
  function Attempts(s: Link): nat
    requires |s.rx.slots| == 2
  {
    var k := ReadySlot(s.rx);
    Left(MAX_FLASH_RETRIES * Left(s.tx.totalWindows, s.rx.committed),
      if Rx.Flashable(s.rx, k) then s.rx.slots[k].retries else 0)
  }

  /** Chunks of the current window the receiver lacks. */
  function Lacking(s: Link): nat
    requires |s.rx.slots| == 2
  {
    var t := s.rx.slots[s.tx.sendWin % 2];
    if !Active(s.tx) then 0
    else if t.state == Rx.Free || s.tx.total > |t.bitmap| then s.tx.total
    else Missing(t.bitmap, s.tx.total)
  }

  function Stage(s: Link): nat {
    if Sending(s.tx) then 3 else if s.tx.state != Tx.Querying then 0 else if s.fwd != [] then 2 else 1
  }

  /** The measure of t is lexicographically below that of s. */
  ghost predicate Below(t: Link, s: Link)
    requires |t.rx.slots| == 2 && |s.rx.slots| == 2
  {
    || Phase(t) < Phase(s)
    || (Phase(t) == Phase(s)
        && (|| Left(t.tx.totalWindows, t.tx.sendWin) < Left(s.tx.totalWindows, s.tx.sendWin)
            || (Left(t.tx.totalWindows, t.tx.sendWin) == Left(s.tx.totalWindows, s.tx.sendWin)
                && (|| Attempts(t) < Attempts(s)
                    || (Attempts(t) == Attempts(s) && BelowReplies(t, s))))))
  }

  ghost predicate BelowReplies(t: Link, s: Link)
    requires |t.rx.slots| == 2 && |s.rx.slots| == 2
  {
    || Left(t.tx.totalWindows, t.tx.commitWin) < Left(s.tx.totalWindows, s.tx.commitWin)
    || (Left(t.tx.totalWindows, t.tx.commitWin) == Left(s.tx.totalWindows, s.tx.commitWin)
        && (|| Lacking(t) < Lacking(s)
            || (Lacking(t) == Lacking(s) && BelowRound(t, s))))
  }

  ghost predicate BelowRound(t: Link, s: Link) {
    var ft, fs := if t.gained then 1 else 0, if s.gained then 1 else 0;
    || ft < fs
    || (ft == fs
        && (|| Stage(t) < Stage(s)
            || (Stage(t) == Stage(s)
                && (|| ToSend(t.tx) < ToSend(s.tx)
                    || (ToSend(t.tx) == ToSend(s.tx) && |t.fwd| + |t.bwd| < |s.fwd| + |s.bwd|)))))
  }

  // ---- the queues --------------------------------------------------------------------------------

  lemma {:induction false} RepliesAddReady(q: seq<Reply>, next: nat, committed: nat, tx: Tx.Tx, owed: Expect)
    requires Replies(q, next, committed, tx, owed)
    ensures Replies(q + [Ready(committed, Ok, 1)], next, committed + 1, tx, owed)
    decreases |q|
  {
    hide Answers;
    var q' := q + [Ready(committed, Ok, 1)];
    if q == [] {
      assert q'[1..] == [];
    } else {
      assert q'[1..] == q[1..] + [Ready(committed, Ok, 1)];
      if q[0].Ready? { RepliesAddReady(q[1..], next + 1, committed, tx, owed); }
      else { RepliesAddReady(q[1..], next, committed, tx, Nothing); }
    }
  }

  lemma {:induction false} RepliesAddAnswer(q: seq<Reply>, next: nat, committed: nat, tx: Tx.Tx, p: Reply, owed: Expect)
    requires Replies(q, next, committed, tx, Nothing) && committed <= tx.sendWin && Answers(p, tx, owed)
    ensures Replies(q + [p], next, committed, tx, owed)
    decreases |q|
  {
    var q' := q + [p];
    if q == [] {
      assert q'[1..] == [];
    } else {
      assert q'[1..] == q[1..] + [p];
      RepliesAddAnswer(q[1..], next + 1, committed, tx, p, owed);
    }
  }

  /** Nothing owed: the queue is about committed windows only, whatever the sender is doing. */
  lemma {:induction false} RepliesAnySender(q: seq<Reply>, next: nat, committed: nat, tx: Tx.Tx, tx': Tx.Tx)
    requires Replies(q, next, committed, tx, Nothing)
    ensures Replies(q, next, committed, tx', Nothing)
    decreases |q|
  {
    hide Answers;
    if q != [] {
      assert q[0].Ready? by { if !q[0].Ready? { NoAnswer(q[0], tx); } }
      RepliesAnySender(q[1..], next + 1, committed, tx, tx');
    }
  }

  lemma NoAnswer(p: Reply, tx: Tx.Tx)
    ensures !Answers(p, tx, Nothing)
  {
  }

  lemma {:induction false} RepliesSameWindow(q: seq<Reply>, next: nat, committed: nat, tx: Tx.Tx, tx': Tx.Tx,
    owed: Expect)
    requires Replies(q, next, committed, tx, owed) && SameWindow(tx, tx')
    ensures Replies(q, next, committed, tx', owed)
    decreases |q|
  {
    if q != [] {
      if q[0].Ready? { RepliesSameWindow(q[1..], next + 1, committed, tx, tx', owed); }
      else { RepliesSameWindow(q[1..], next, committed, tx, tx', Nothing); }
    }
  }

  predicate SameWindow(a: Tx.Tx, b: Tx.Tx) {
    a.image == b.image && a.sendWin == b.sendWin && a.total == b.total
  }

  lemma CarryAppend(s: Link, s': Link, sent: seq<Request>, bound: nat, bound': nat)
    requires |s.rx.slots| == 2 && s'.rx == s.rx && SameWindow(s.tx, s'.tx) && bound <= bound'
    requires Carrying(s, |s.fwd|, bound) && |s.fwd| + |sent| <= |s'.fwd| && s'.fwd[..|s.fwd| + |sent|] == s.fwd + sent
    requires forall i :: 0 <= i < |sent| ==> ChunkUnderWay(s', sent[i], bound') && bound <= sent[i].chunk
    requires forall i, j :: 0 <= i < j < |sent| && sent[i].Data? && sent[j].Data? ==> sent[i].chunk < sent[j].chunk
    ensures Carrying(s', |s.fwd| + |sent|, bound')
  {
    var n := |s.fwd| + |sent|;
    forall i | 0 <= i < n ensures s'.fwd[i] == (s.fwd + sent)[i] && ChunkUnderWay(s', s'.fwd[i], bound') {
      assert s'.fwd[..n][i] == (s.fwd + sent)[i];
      if i < |s.fwd| {
        assert ChunkUnderWay(s, s.fwd[i], bound);
        Tx.DataPacketSame(s.tx, s'.tx, s.fwd[i].chunk);
      }
    }
    forall i, j | 0 <= i < j < n ensures s'.fwd[i].chunk < s'.fwd[j].chunk {
      if i < |s.fwd| { assert ChunkUnderWay(s, s.fwd[i], bound); }
    }
  }

  /** Dropping the head leaves the rest under way. */
  lemma CarryTail(s: Link, s': Link, n: nat, bound: nat)
    requires |s.rx.slots| == 2 && s'.rx == s.rx && s'.tx == s.tx && 0 < n <= |s.fwd| && s'.fwd == s.fwd[1..]
    requires Carrying(s, n, bound)
    ensures Carrying(s', n - 1, bound)
  {
    forall i | 0 <= i < n - 1 ensures ChunkUnderWay(s', s'.fwd[i], bound) {
      assert ChunkUnderWay(s, s.fwd[i + 1], bound);
    }
    forall i, j | 0 <= i < j < n - 1 ensures s'.fwd[i].chunk < s'.fwd[j].chunk {
      assert s.fwd[i + 1].chunk < s.fwd[j + 1].chunk;
    }
  }

  // ---- slots -----------------------------------------------------------------------------------------

  /** The slot of the window being sent is free or receiving that window. */
  lemma CurrentSlot(s: Link)
    requires Inv(s) && Active(s.tx) && !Acknowledged(s)
    ensures var t := s.rx.slots[s.tx.sendWin % 2];
            && (t.state == Rx.Free || (t.state == Rx.Receiving && t.win == s.tx.sendWin && t.retries == 0))
            && s.tx.sendWin < s.tx.totalWindows == WindowCount(|s.tx.image|) <= MAX_WINDOWS
            && s.rx.committed <= s.tx.sendWin <= s.rx.committed + 1
            && s.rx.state == Rx.Transfer
    ensures Rx.SlotShape(s.rx.slots[s.tx.sendWin % 2]) && |s.rx.slots[s.tx.sendWin % 2].bitmap| == BITMAP_BITS
    ensures Safety.SlotGood(s.rx.slots[s.tx.sendWin % 2], s.tx.sendWin % 2, s.tx.image)
    ensures s.tx.total == ChunkCount(s.tx.winBytes) <= MAX_CHUNKS
            && s.tx.winBytes == WindowBytes(|s.tx.image|, s.tx.sendWin)
  {
    hide Flow, Crc32.Of, WindowCount, ChunkCount, WindowBytes, PortAccepts, Safety.Filled, Safety.PrefixStaged;
    WindowCountFacts(|s.tx.image|);
    var i := s.tx.sendWin % 2;
    Safety.SlotsAgree(s.rx, s.mem, s.tx.image, i);
    assert SlotUse(s, i) by { assert i == 0 || i == 1; }
  }

  // ---- the sender steps -----------------------------------------------------------------------------

  /** A sender that goes on with the same window disturbs neither counters nor slots. */
  lemma SameWindowKept(s: Link, s': Link)
    requires Inv(s) && Sending(s.tx) && Safety.TxGood(s'.tx) && Active(s'.tx) && s'.fwd != []
    requires s' == s.(tx := s'.tx, fwd := s'.fwd)
    requires s'.tx == s.tx.(state := s'.tx.state, chunk := s'.tx.chunk, retries := s'.tx.retries,
             bitmap := s'.tx.bitmap,
                            nextChunk := s'.tx.nextChunk, remaining := s'.tx.remaining)
    ensures Base(s') && Counting(s') && Slots(s') && !Acknowledged(s')
  {
    hide Crc32.Of, WindowCount, ChunkCount, WindowBytes, PortAccepts, Safety.RxGood, Safety.TxGood, Flow;
    assert Transferring(s.tx) ==> SlotUse(s, 0) && SlotUse(s, 1);
  }

  lemma SendWindowOutcome(s: Link)
    requires Inv(s) && Shapes(s) && s.tx.state == Tx.SendWindow
    ensures var (tx1, sent) := Tx.SendChunks(s.tx, Tx.BATCH);
            && Safety.TxGood(Next(s, SenderSteps).tx)
            && sent != [] && tx1 == s.tx.(chunk := s.tx.chunk + |sent|) && tx1.chunk <= tx1.total
            && (forall i :: 0 <= i < |sent| ==> sent[i] == Tx.DataPacket(s.tx, s.tx.chunk + i))
            && Next(s, SenderSteps)
               == if tx1.chunk == tx1.total
                  then s.(tx := tx1.(state := Tx.Querying, retries := 0), fwd := s.fwd + (sent + [Tx.QueryPacket(tx1)]))
                  else s.(tx := tx1, fwd := s.fwd + sent)
  {
    hide Crc32.Of, WindowCount, ChunkCount, WindowBytes, PortAccepts, Safety.RxGood, Safety.TxGood, Tx.DataPacket,
         Tx.SendChunks, Open, Slots, Counting, Replies, Carrying;
    Tx.SendChunksExact(s.tx, Tx.BATCH);
    Safety.StepGood(s.tx, false);
  }

  /** A batch for ascending chunks that the receiver lacks joins the queue. */
  lemma BatchCarried(s: Link, s': Link, sent: seq<Request>, chunks: seq<nat>, low: nat, bound: nat)
    requires |s.rx.slots| == 2 && s'.rx == s.rx && SameWindow(s.tx, s'.tx) && Carrying(s, |s.fwd|, low) && low <= bound
    requires |sent| <= |chunks| && Tx.Ascending(chunks)
    requires forall i :: 0 <= i < |sent| ==>
               sent[i] == Tx.DataPacket(s.tx, chunks[i]) && low <= chunks[i] < bound
                 && Open(s.rx, s.tx.sendWin, chunks[i])
    requires |s.fwd| + |sent| <= |s'.fwd| && s'.fwd[..|s.fwd| + |sent|] == s.fwd + sent
    ensures Carrying(s', |s.fwd| + |sent|, bound)
  {
    hide Tx.DataPacket, Open;
    forall i | 0 <= i < |sent| ensures ChunkUnderWay(s', sent[i], bound) && sent[i].chunk == chunks[i] {
      Tx.DataPacketSame(s.tx, s'.tx, chunks[i]);
      DataPacketChunk(s.tx, chunks[i]);
    }
    CarryAppend(s, s', sent, low, bound);
  }

  lemma SendWindowStep(s: Link)
    requires Inv(s) && Shapes(s) && s.tx.state == Tx.SendWindow
    ensures Inv(Next(s, SenderSteps)) && Below(Next(s, SenderSteps), s)
  {
    hide Crc32.Of, WindowCount, ChunkCount, WindowBytes, PortAccepts, Safety.RxGood, Safety.TxGood, Tx.DataPacket,
         Tx.SendChunks, Open, Next, Slots, Counting, Base, Carrying, Rx.SlotShape;
    var s' := Next(s, SenderSteps);
    var sent := Tx.SendChunks(s.tx, Tx.BATCH).1;
    SendWindowOutcome(s);
    SameWindowKept(s, s');
    assert s'.fwd[..|s.fwd| + |sent|] == s.fwd + sent;
    BatchCarried(s, s', sent, seq(|sent|, i => s.tx.chunk + i), s.tx.chunk, s.tx.chunk + |sent|);
    RepliesAnySender(s.bwd, s.tx.commitWin, s.rx.committed, s.tx, s'.tx);
    assert Flow(s');
  }

  lemma DataPacketChunk(tx: Tx.Tx, c: nat)
    ensures Tx.DataPacket(tx, c).Data? && Tx.DataPacket(tx, c).chunk == c
  {
  }

  lemma RetransmitOutcome(s: Link)
    requires Inv(s) && Shapes(s) && s.tx.state == Tx.Retransmit
    ensures var (tx1, sent) := Tx.ResendChunks(s.tx, Tx.BATCH);
            && Safety.TxGood(Next(s, SenderSteps).tx)
            && Tx.Resent(s.tx, Tx.BATCH, tx1, sent)
            && Next(s, SenderSteps)
               == if tx1.remaining == 0
                  then s.(tx := tx1.(state := Tx.Querying, retries := 0), fwd := s.fwd + (sent + [Tx.QueryPacket(tx1)]))
                  else s.(tx := tx1, fwd := s.fwd + sent)
  {
    hide Crc32.Of, WindowCount, ChunkCount, WindowBytes, PortAccepts, Safety.RxGood, Safety.TxGood, Tx.DataPacket,
         Tx.ResendChunks, Open, Slots, Counting, Replies, Carrying, Tx.RoundCounted, Tx.Resent;
    Tx.ResendChunksExact(s.tx, Tx.BATCH);
    Safety.StepGood(s.tx, false);
  }

  /** The facts of a batch that the queue needs. */
  lemma ResentFacts(tx: Tx.Tx, n: nat, tx1: Tx.Tx, sent: seq<Request>, owed: seq<nat>)
    requires Tx.RoundCounted(tx) && tx.nextChunk <= tx.total <= |tx.bitmap|
    requires owed == Tx.ClearBits(tx.bitmap, tx.nextChunk, tx.total) && Tx.Resent(tx, n, tx1, sent)
    ensures |sent| <= |owed| && (n > 0 && tx.remaining > 0 ==> sent != []) && tx.nextChunk <= tx1.nextChunk <= tx1.total
    ensures forall i :: 0 <= i < |sent| ==> sent[i] == Tx.DataPacket(tx, owed[i]) && owed[i] < tx1.nextChunk
    ensures forall i :: 0 <= i < |owed| ==> tx.nextChunk <= owed[i] < tx.total && !tx.bitmap[owed[i]]
    ensures Tx.Ascending(owed)
    ensures forall c :: tx1.nextChunk <= c < tx.total && c < |tx1.bitmap| && !tx1.bitmap[c] ==> !tx.bitmap[c]
  {
    hide Tx.DataPacket, Tx.ClearBits;
    Tx.ClearBitsAscend(tx.bitmap, tx.nextChunk, tx.total);
    Tx.ClearBitsRange(tx.bitmap, tx.nextChunk, tx.total);
    assert forall i :: 0 <= i < |owed| ==> owed[i] in owed;
  }

  lemma RetransmitFlow(s: Link)
    requires Inv(s) && Shapes(s) && s.tx.state == Tx.Retransmit
    ensures Flow(Next(s, SenderSteps)) && GainedMeansReceiving(Next(s, SenderSteps))
  {
    hide Crc32.Of, WindowCount, ChunkCount, WindowBytes, PortAccepts, Safety.RxGood, Safety.TxGood, Tx.DataPacket,
         Tx.ResendChunks, Open, Tx.RoundCounted, Tx.ClearBits, Next, Slots, Counting, Base, Carrying, Rx.SlotShape,
         Replies;
    var s' := Next(s, SenderSteps);
    var (tx1, sent) := Tx.ResendChunks(s.tx, Tx.BATCH);
    RetransmitOutcome(s);
    Tx.CountedShape(s.tx);
    var owed := Tx.ClearBits(s.tx.bitmap, s.tx.nextChunk, s.tx.total);
    ResentFacts(s.tx, Tx.BATCH, tx1, sent, owed);
    assert s'.fwd[..|s.fwd| + |sent|] == s.fwd + sent;
    BatchCarried(s, s', sent, owed, s.tx.nextChunk, tx1.nextChunk);
    if tx1.remaining == 0 { CarryLoosen(s', |s'.fwd| - 1, tx1.nextChunk, tx1.total); }
    RepliesAnySender(s.bwd, s.tx.commitWin, s.rx.committed, s.tx, s'.tx);
  }

  lemma RetransmitStep(s: Link)
    requires Inv(s) && Shapes(s) && s.tx.state == Tx.Retransmit
    ensures Inv(Next(s, SenderSteps)) && Below(Next(s, SenderSteps), s)
  {
    hide Crc32.Of, WindowCount, ChunkCount, WindowBytes, PortAccepts, Safety.RxGood, Safety.TxGood, Tx.DataPacket,
         Tx.ResendChunks, Open, Tx.RoundCounted, Tx.ClearBits, Next, Slots, Counting, Base, Carrying, Rx.SlotShape,
         Replies, Flow, Missing;
    var s' := Next(s, SenderSteps);
    var (tx1, sent) := Tx.ResendChunks(s.tx, Tx.BATCH);
    RetransmitShape(s);
    RetransmitOutcome(s);
    ResentFacts(s.tx, Tx.BATCH, tx1, sent, Tx.ClearBits(s.tx.bitmap, s.tx.nextChunk, s.tx.total));
    SameWindowKept(s, s');
    RetransmitFlow(s);
  }

  lemma RetransmitShape(s: Link)
    requires Inv(s) && s.tx.state == Tx.Retransmit
    ensures Tx.RoundCounted(s.tx) && s.tx.nextChunk <= s.tx.total <= |s.tx.bitmap| && s.tx.remaining > 0
  {
    hide Base, Counting, Slots, Carrying, Replies;
  }

  lemma CarryLoosen(s: Link, n: nat, bound: nat, bound': nat)
    requires |s.rx.slots| == 2 && n <= |s.fwd| && bound <= bound' && Carrying(s, n, bound)
    ensures Carrying(s, n, bound')
  {
  }

  // ---- DATA packets -----------------------------------------------------------------------------------

  lemma LossStep(s: Link)
    requires Inv(s) && Shapes(s) && Enabled(s, DataLost)
    ensures Inv(Next(s, DataLost)) && Below(Next(s, DataLost), s)
  {
    hide Crc32.Of, WindowCount, ChunkCount, WindowBytes, PortAccepts, Safety.RxGood, Safety.TxGood, Tx.DataPacket,
         Open, Tx.RoundCounted, Replies, Lacking, Attempts;
    var s' := Next(s, DataLost);
    SameMeasure(s, s');
    match s.tx.state {
      case SendWindow => CarryTail(s, s', |s.fwd|, s.tx.chunk);
      case Retransmit => CarryTail(s, s', |s.fwd|, s.tx.nextChunk);
      case Querying =>
        assert |s.fwd| > 1;
        CarryTail(s, s', |s.fwd| - 1, s.tx.total);
      case _ => assert false;
    }
  }

  lemma SameMeasure(s: Link, s': Link)
    requires |s.rx.slots| == 2 && s'.tx == s.tx && s'.rx == s.rx
    ensures Lacking(s') == Lacking(s) && Attempts(s') == Attempts(s)
  {
  }

  /** The number of packets ahead of the query, and the chunk bound they respect. */
  ghost function Ahead(s: Link): nat {
    if s.tx.state == Tx.Querying && s.fwd != [] then |s.fwd| - 1 else |s.fwd|
  }

  ghost function Bound(s: Link): nat {
    if s.tx.state == Tx.SendWindow then s.tx.chunk else if s.tx.state == Tx.Retransmit then s.tx.nextChunk
      else s.tx.total
  }

  /** The head of the queue, when it is DATA, is an honest packet of the current window for a chunk
      the receiver lacks. */
  lemma HeadData(s: Link)
    requires Inv(s) && s.fwd != [] && s.fwd[0].Data?
    ensures Active(s.tx) && !Acknowledged(s) && Ahead(s) > 0
    ensures Carrying(s, Ahead(s), Bound(s)) && Bound(s) <= s.tx.total
    ensures ChunkUnderWay(s, s.fwd[0], Bound(s))
    ensures Honest(s.tx.image, s.tx.imageCrc, s.fwd[0])
    ensures s.fwd[0].win == s.tx.sendWin < 256
  {
    hide Crc32.Of, WindowCount, ChunkCount, WindowBytes, Base, Counting, Slots, Flow, Honest, Inv, Acknowledged,
         Ahead, Bound, Safety.TxGood;
    CurrentActive(s);
    HeadTx(s);
    SenderCount(s);
    HeadCarried(s);
    Safety.ActiveWindow(s.tx);
  }

  lemma HeadTx(s: Link)
    requires Inv(s) && Active(s.tx)
    ensures Base(s) && Safety.TxGood(s.tx) && s.tx.sendWin < s.tx.totalWindows
  {
    hide Crc32.Of, WindowCount, ChunkCount, WindowBytes, PortAccepts, Safety.RxGood, Counting, Slots, Flow;
  }

  lemma HeadCarried(s: Link)
    requires Inv(s) && s.fwd != [] && s.fwd[0].Data?
    ensures Ahead(s) > 0 && Carrying(s, Ahead(s), Bound(s)) && Bound(s) <= s.tx.total
    ensures ChunkUnderWay(s, s.fwd[0], Bound(s))
  {
    hide Base, Counting, Slots, Tx.RoundCounted, Open, Replies, Tx.DataPacket;
    CurrentActive(s);
    if s.tx.state == Tx.Retransmit { Tx.CountedShape(s.tx); }
  }

  lemma CurrentActive(s: Link)
    requires Inv(s) && s.fwd != [] && s.fwd[0].Data?
    ensures Active(s.tx) && !Acknowledged(s)
  {
    hide Base, Counting, Slots, Tx.RoundCounted, Carrying;
  }

  /** A slot's bitmap once chunk c has been stored. */
  function Stored(t: Rx.Slot, c: nat): seq<bool> {
    var bits := if t.state == Rx.Free then NoBits() else t.bitmap;
    if c < |bits| then bits[c := true] else bits
  }

  /** A DATA packet is never dropped by the receiver: its slot is free or holds its own window. */
  lemma DataTaken(s: Link)
    requires Inv(s) && s.fwd != [] && s.fwd[0].Data?
    ensures Rx.Shape(s.rx)
    ensures var o := Rx.OnData(s.rx, s.fwd[0]);
            var i := s.tx.sendWin % 2;
            var t, t' := s.rx.slots[i], o.rx.slots[i];
            && (t.state == Rx.Free || t.win == s.fwd[0].win)
            && o.result && o.replies == [] && FreshData(s.rx, s.fwd[0])
            && o.rx == s.rx.(slots := s.rx.slots[i := t'])
            && t'.state == Rx.Receiving && t'.win == s.tx.sendWin && t'.retries == 0 && |t'.bitmap| == BITMAP_BITS
            && t'.bitmap == Stored(t, s.fwd[0].chunk)
  {
    hide Crc32.Of, WindowCount, ChunkCount, WindowBytes, PortAccepts, Safety.Filled, Safety.PrefixStaged, Flow, Slots,
         Counting;
    HeadData(s);
    CurrentSlot(s);
    var p := s.fwd[0];
    var t := s.rx.slots[s.tx.sendWin % 2];
    Safety.OpenedFor(t, p.win, |s.tx.image|);
    WindowFacts(|s.tx.image|, s.tx.sendWin);
    ChunkFacts(s.tx.winBytes, p.chunk);
  }

  lemma OtherSlotSame(s: Link, s': Link, i: nat)
    requires |s.rx.slots| == 2 && |s'.rx.slots| == 2 && i < 2 && s'.rx.slots[i] == s.rx.slots[i] && SlotUse(s, i)
    requires s'.rx.committed == s.rx.committed && Held(s') == Held(s) && s'.tx == s.tx
    ensures SlotUse(s', i)
  {
  }

  lemma DataOutcome(s: Link)
    requires Inv(s) && Shapes(s) && s.fwd != [] && s.fwd[0].Data?
    ensures var s' := Next(s, RequestArrives);
            var i := s.tx.sendWin % 2;
            && s' == s.(rx := s'.rx, fwd := s.fwd[1..], gained := true)
            && Rx.Shape(s'.rx) && Safety.RxGood(s'.rx, s.mem, s.tx.image)
            && s'.rx == s.rx.(slots := s.rx.slots[i := s'.rx.slots[i]])
            && s'.rx.slots[i].state == Rx.Receiving && s'.rx.slots[i].win == s.tx.sendWin && s'.rx.slots[i].retries == 0
            && s'.rx.slots[i].bitmap == Stored(s.rx.slots[i], s.fwd[0].chunk)
  {
    hide Crc32.Of, WindowCount, ChunkCount, WindowBytes, PortAccepts, Safety.RxGood, Safety.TxGood, Tx.DataPacket,
         Rx.OnData, Rx.SlotShape, Tx.RoundCounted, FreshData, Replies, Safety.SlotGood, Open, Carrying, Flow,
         ChunkUnderWay, Slots, Counting;
    HeadData(s);
    CurrentSlot(s);
    DataTaken(s);
    Safety.OnDataGood(s.rx, s.mem, s.tx.image, s.fwd[0]) by { TxFacts(s.tx); }
    Rx.ProcessKeepsShape(s.rx, s.fwd[0], FlashCrc(s.mem, s.rx.config.stagingOffset, s.rx.totalSize));
    assert s.bwd + [] == s.bwd;
  }

  lemma DataStep(s: Link)
    requires Inv(s) && Shapes(s) && s.fwd != [] && s.fwd[0].Data?
    ensures Inv(Next(s, RequestArrives)) && Below(Next(s, RequestArrives), s)
  {
    hide Crc32.Of, WindowCount, ChunkCount, WindowBytes, PortAccepts, Safety.RxGood, Safety.TxGood, Tx.DataPacket,
         Rx.OnData, Rx.SlotShape, Tx.RoundCounted, FreshData, Replies, Safety.SlotGood, Open, Carrying, Flow,
         ChunkUnderWay, Next, Lacking, Stored, Slots, Counting, SlotUse, Attempts;
    HeadData(s);
    CurrentSlot(s);
    DataOutcome(s);
    var s' := Next(s, RequestArrives);
    UnderWayFacts(s);
    DataFlow(s, s');
    DataSlots(s, s');
    LackingDrops(s, s');
  }

  lemma DataSlots(s: Link, s': Link)
    requires Inv(s) && Active(s.tx) && !Acknowledged(s) && Rx.Shape(s'.rx) && !Acknowledged(s')
    requires s'.tx == s.tx && s'.rx == s.rx.(slots := s.rx.slots[s.tx.sendWin % 2 := s'.rx.slots[s.tx.sendWin % 2]])
    requires var t := s'.rx.slots[s.tx.sendWin % 2];
             t.state == Rx.Receiving && t.win == s.tx.sendWin && t.retries == 0
    ensures Slots(s') && Counting(s') && Attempts(s') == Attempts(s)
  {
    hide Base, Flow, Tx.Int16, Rx.SlotShape, WindowCount;
    var i := s.tx.sendWin % 2;
    CurrentSlot(s);
    ReadyParity(s, 0);
    ReadyParity(s, 1);
    assert SlotUse(s, i) && SlotUse(s, 1 - i);
    OtherSlotSame(s, s', 1 - i);
    assert SlotUse(s', i);
    AttemptsSame(s, s', i);
  }

  lemma UnderWayFacts(s: Link)
    requires Inv(s) && s.fwd != [] && s.fwd[0].Data?
    ensures s.fwd[0].chunk < s.tx.total && Open(s.rx, s.tx.sendWin, s.fwd[0].chunk)
  {
    HeadData(s);
  }

  /** The queues after a DATA packet has been stored. */
  lemma DataFlow(s: Link, s': Link)
    requires Inv(s) && s.fwd != [] && s.fwd[0].Data? && Rx.Shape(s'.rx)
    requires s'.tx == s.tx && s'.fwd == s.fwd[1..] && s'.bwd == s.bwd && s'.gained && s'.rx.committed == s.rx.committed
    requires s'.rx.slots[s.tx.sendWin % 2].state == Rx.Receiving
    requires s'.rx.slots[s.tx.sendWin % 2].bitmap == Stored(s.rx.slots[s.tx.sendWin % 2], s.fwd[0].chunk)
    requires |s.rx.slots[s.tx.sendWin % 2].bitmap| == BITMAP_BITS && s.fwd[0].chunk < MAX_CHUNKS
             && s.tx.total <= MAX_CHUNKS
    ensures Flow(s') && !Acknowledged(s')
  {
    hide Crc32.Of, WindowCount, ChunkCount, WindowBytes, Base, Counting, Slots, Tx.DataPacket, Tx.RoundCounted,
         Replies, Open, ChunkUnderWay;
    HeadData(s);
    StillOpen(s, s');
    HeadBound(s);
    if s.tx.state == Tx.Retransmit { Tx.CountedShape(s.tx); }
    if s.tx.state == Tx.Querying { CarryLoosen(s', Ahead(s) - 1, Bound(s), s.tx.total); }
  }

  lemma HeadBound(s: Link)
    requires Inv(s) && s.fwd != [] && s.fwd[0].Data?
    ensures s.fwd[0].chunk < Bound(s)
  {
    HeadData(s);
  }

  lemma TxFacts(tx: Tx.Tx)
    requires Safety.TxGood(tx)
    ensures tx.imageCrc == Crc32.Of(tx.image) && Addressable(tx.image)
  {
    hide Crc32.Of;
  }

  /** Chunks other than the one just stored stay open, so the rest of the queue stays under way. */
  lemma StillOpen(s: Link, s': Link)
    requires Inv(s) && Rx.Shape(s'.rx) && s.fwd != [] && s.fwd[0].Data? && s'.tx == s.tx && s'.fwd == s.fwd[1..]
    requires s'.rx.slots[s.tx.sendWin % 2].state == Rx.Receiving
    requires s'.rx.slots[s.tx.sendWin % 2].bitmap == Stored(s.rx.slots[s.tx.sendWin % 2], s.fwd[0].chunk)
    requires |s.rx.slots[s.tx.sendWin % 2].bitmap| == BITMAP_BITS && s.fwd[0].chunk < MAX_CHUNKS
             && s.tx.total <= MAX_CHUNKS
    ensures Carrying(s', Ahead(s) - 1, Bound(s))
    ensures forall c :: s.fwd[0].chunk < c < s.tx.total && Open(s.rx, s.tx.sendWin, c) ==> Open(s'.rx, s.tx.sendWin, c)
  {
    hide Base, Counting, Slots, Flow, Tx.DataPacket, Tx.RoundCounted;
    HeadData(s);
    forall k | 0 <= k < Ahead(s) - 1 ensures ChunkUnderWay(s', s'.fwd[k], Bound(s)) {
      assert ChunkUnderWay(s, s.fwd[k + 1], Bound(s));
      assert s.fwd[0].chunk < s.fwd[k + 1].chunk;
    }
    forall k, j | 0 <= k < j < Ahead(s) - 1 ensures s'.fwd[k].chunk < s'.fwd[j].chunk {
      assert s.fwd[k + 1].chunk < s.fwd[j + 1].chunk;
    }
  }

  lemma LackingDrops(s: Link, s': Link)
    requires |s.rx.slots| == 2 && |s'.rx.slots| == 2 && Active(s.tx) && s'.tx == s.tx && s.tx.total <= MAX_CHUNKS
    requires s.fwd != [] && s.fwd[0].Data? && s.fwd[0].chunk < s.tx.total && Open(s.rx, s.tx.sendWin, s.fwd[0].chunk)
    requires |s.rx.slots[s.tx.sendWin % 2].bitmap| == BITMAP_BITS
    requires s'.rx.slots[s.tx.sendWin % 2].state == Rx.Receiving
    requires s'.rx.slots[s.tx.sendWin % 2].bitmap == Stored(s.rx.slots[s.tx.sendWin % 2], s.fwd[0].chunk)
    ensures Lacking(s') < Lacking(s)
  {
    var t := s.rx.slots[s.tx.sendWin % 2];
    var bits := if t.state == Rx.Free then NoBits() else t.bitmap;
    MissingSet(bits, s.tx.total, s.fwd[0].chunk);
    MissingBound(bits, s.tx.total);
  }

  // ---- the query -----------------------------------------------------------------------------------------

  lemma QueryOutcome(s: Link)
    requires Inv(s) && Shapes(s) && s.fwd != [] && s.fwd[0].Query?
    ensures var s' := Next(s, RequestArrives);
            var i := s.tx.sendWin % 2;
            var p := s'.bwd[|s'.bwd| - 1];
            && s'.bwd == s.bwd + [p]
            && s' == s.(rx := s'.rx, fwd := [], bwd := s'.bwd)
            && Rx.Shape(s'.rx) && Safety.RxGood(s'.rx, s.mem, s.tx.image)
            && s'.rx == s.rx.(slots := s.rx.slots[i := s'.rx.slots[i]])
            && s'.rx.slots[i]
               == s.rx.slots[i].(expectedCrc := s'.rx.slots[i].expectedCrc, state := s'.rx.slots[i].state)
            && ((s'.rx.slots[i].state == Rx.ReadyToFlash && Answers(p, s.tx, AllIn))
                || (s'.rx.slots[i].state == Rx.Receiving && Answers(p, s.tx, Wants(s'.rx.slots[i].bitmap))))
  {
    hide Crc32.Of, WindowCount, ChunkCount, WindowBytes, PortAccepts, Safety.RxGood, Safety.TxGood, Tx.RoundCounted,
         Replies, Rx.QuerySlot, Rx.SlotShape, Safety.SlotGood, Answers, Open, Rx.OnQuery, Slots, Counting, Flow;
    QueryHead(s);
    QueryAnswered(s);
    var o := Rx.OnQuery(s.rx, s.fwd[0]);
    Rx.ProcessKeepsShape(s.rx, s.fwd[0], FlashCrc(s.mem, s.rx.config.stagingOffset, s.rx.totalSize));
    assert !FreshData(s.rx, s.fwd[0]);
    assert o.replies == [o.replies[0]];
  }

  lemma QueryStep(s: Link)
    requires Inv(s) && Shapes(s) && s.fwd != [] && s.fwd[0].Query?
    ensures Inv(Next(s, RequestArrives)) && Below(Next(s, RequestArrives), s)
  {
    hide Crc32.Of, WindowCount, ChunkCount, WindowBytes, PortAccepts, Safety.RxGood, Safety.TxGood, Tx.RoundCounted,
         Replies, Rx.SlotShape, Safety.SlotGood, Answers, Open, Next, Attempts, Missing, Flow, Counting, Slots;
    QueryHead(s);
    CurrentSlot(s);
    QueryOutcome(s);
    ReadyParity(s, 0);
    ReadyParity(s, 1);
    var s' := Next(s, RequestArrives);
    QueryFlow(s, s');
    QuerySlots(s, s');
    AttemptsSame(s, s', s.tx.sendWin % 2);
    BaseKept(s, s');
  }

  lemma BaseKept(s: Link, s': Link)
    requires Base(s) && Safety.TxGood(s'.tx) && s'.tx.image == s.tx.image && Safety.RxGood(s'.rx, s'.mem, s.tx.image)
    requires s'.rx.config == s.rx.config && |s'.mem| == |s.mem|
    ensures Base(s')
  {
    hide Crc32.Of, WindowCount, PortAccepts, Safety.RxGood;
  }

  lemma QueryFlow(s: Link, s': Link)
    requires Inv(s) && s.fwd != [] && s.fwd[0].Query? && |s'.rx.slots| == 2 && s'.bwd != []
    requires s' == s.(rx := s'.rx, fwd := [], bwd := s'.bwd) && s'.rx.committed == s.rx.committed
    requires var i, p := s.tx.sendWin % 2, s'.bwd[|s'.bwd| - 1];
             && s'.bwd == s.bwd + [p]
             && ((s'.rx.slots[i].state == Rx.ReadyToFlash && Answers(p, s.tx, AllIn))
                 || (s'.rx.slots[i].state == Rx.Receiving && Answers(p, s.tx, Wants(s'.rx.slots[i].bitmap))))
    ensures Flow(s') && GainedMeansReceiving(s')
  {
    hide Crc32.Of, WindowCount, ChunkCount, WindowBytes, Base, Slots, Tx.RoundCounted, Replies, Answers, Carrying;
    QueryHead(s);
    var slot, p := s'.rx.slots[s.tx.sendWin % 2], s'.bwd[|s'.bwd| - 1];
    RepliesAddAnswer(s.bwd, s.tx.commitWin, s.rx.committed, s.tx, p,
      if slot.state == Rx.Receiving then Wants(slot.bitmap) else AllIn);
  }

  lemma QuerySlots(s: Link, s': Link)
    requires Inv(s) && s.fwd != [] && s.fwd[0].Query? && |s'.rx.slots| == 2
    requires s' == s.(rx := s'.rx, fwd := [], bwd := s'.bwd)
    requires var i := s.tx.sendWin % 2;
             && s'.rx == s.rx.(slots := s.rx.slots[i := s'.rx.slots[i]])
             && s'.rx.slots[i]
                == s.rx.slots[i].(expectedCrc := s'.rx.slots[i].expectedCrc, state := s'.rx.slots[i].state)
             && (s'.rx.slots[i].state == Rx.ReadyToFlash || s'.rx.slots[i].state == Rx.Receiving)
    ensures Slots(s') && Counting(s')
  {
    hide Crc32.Of, WindowCount, ChunkCount, WindowBytes, Base, Flow, Tx.RoundCounted;
    QueryHead(s);
    CurrentSlot(s);
    ReadyParity(s, 0);
    ReadyParity(s, 1);
    var i := s.tx.sendWin % 2;
    assert SlotUse(s, i) && SlotUse(s, 1 - i);
    assert SlotUse(s', i) && SlotUse(s', 1 - i);
  }

  lemma CarriedHead(s: Link, n: nat, bound: nat)
    requires |s.rx.slots| == 2 && n <= |s.fwd| && Carrying(s, n, bound)
    ensures n > 0 ==> s.fwd[0].Data?
  {
  }

  /** A slot that turns ready without a failed attempt leaves the attempts as they were. */
  lemma AttemptsSame(s: Link, s': Link, i: nat)
    requires |s.rx.slots| == 2 && |s'.rx.slots| == 2 && i < 2
    requires s'.rx.slots[1 - i] == s.rx.slots[1 - i] && s'.rx.committed == s.rx.committed
    requires s'.tx.totalWindows == s.tx.totalWindows
    requires !Rx.Flashable(s.rx, i) && s'.rx.slots[i].retries == 0
    requires s'.rx.slots[i].win % 2 == i
    requires s.rx.slots[1 - i].state == Rx.ReadyToFlash ==> s.rx.slots[1 - i].win % 2 == 1 - i
    ensures Attempts(s') == Attempts(s)
  {
    if i == 0 {
      assert s'.rx.slots[1] == s.rx.slots[1];
      assert Rx.Flashable(s'.rx, 1) == Rx.Flashable(s.rx, 1);
      assert !(Rx.Flashable(s'.rx, 0) && Rx.Flashable(s'.rx, 1));
    } else {
      assert s'.rx.slots[0] == s.rx.slots[0];
      assert Rx.Flashable(s'.rx, 0) == Rx.Flashable(s.rx, 0);
      assert !(Rx.Flashable(s'.rx, 0) && Rx.Flashable(s'.rx, 1));
    }
  }

  lemma ReadyParity(s: Link, i: nat)
    requires Inv(s) && Transferring(s.tx) && i < 2
    ensures s.rx.slots[i].state != Rx.Free ==> s.rx.slots[i].win % 2 == i
  {
    hide Flow, Crc32.Of, WindowCount, ChunkCount, WindowBytes, PortAccepts, Safety.Filled, Safety.PrefixStaged;
    Safety.SlotsAgree(s.rx, s.mem, s.tx.image, i);
  }

  lemma QueryHead(s: Link)
    requires Inv(s) && s.fwd != [] && s.fwd[0].Query?
    ensures s.tx.state == Tx.Querying && s.fwd == [Tx.QueryPacket(s.tx)] && s.gained && !Acknowledged(s)
    ensures s.rx.slots[s.tx.sendWin % 2].state == Rx.Receiving
    ensures Honest(s.tx.image, s.tx.imageCrc, s.fwd[0]) && Rx.WellFormed(s.fwd[0])
    ensures Replies(s.bwd, s.tx.commitWin, s.rx.committed, s.tx, Nothing)
  {
    hide Crc32.Of, WindowCount, ChunkCount, WindowBytes, PortAccepts, Safety.RxGood, Tx.RoundCounted, Replies,
         Counting, Slots;
    match s.tx.state {
      case SendWindow => CarriedHead(s, |s.fwd|, s.tx.chunk); assert false;
      case Retransmit => CarriedHead(s, |s.fwd|, s.tx.nextChunk); assert false;
      case Querying => CarriedHead(s, |s.fwd| - 1, s.tx.total);
      case _ => assert false;
    }
    Safety.ActiveWindow(s.tx);
    assert s.fwd == [s.fwd[0]];
  }

  /** The receiver's answer to the query of the current window. */
  lemma QueryAnswered(s: Link)
    requires Inv(s) && s.fwd != [] && s.fwd[0].Query?
    ensures Rx.Shape(s.rx) && Rx.WellFormed(s.fwd[0])
    ensures var o := Rx.OnQuery(s.rx, s.fwd[0]);
            var i := s.tx.sendWin % 2;
            var t, t' := s.rx.slots[i], o.rx.slots[i];
            && o.rx == s.rx.(slots := s.rx.slots[i := t'])
            && Safety.RxGood(o.rx, s.mem, s.tx.image)
            && t' == t.(expectedCrc := t'.expectedCrc, state := t'.state)
            && |o.replies| == 1
            && ((t'.state == Rx.ReadyToFlash && Answers(o.replies[0], s.tx, AllIn))
                || (t'.state == Rx.Receiving && Answers(o.replies[0], s.tx, Wants(t'.bitmap))))
  {
    hide Crc32.Of, WindowCount, ChunkCount, WindowBytes, PortAccepts, Safety.PrefixStaged, Safety.Filled,
         Tx.RoundCounted, Replies, Rx.QuerySlot, Flow, Slots, Counting, Answers, Safety.ReplyGood, CoveringBits,
         Rx.OnQuery, Missing;
    QueryHead(s);
    CurrentSlot(s);
    var i := s.tx.sendWin % 2;
    var t, p := s.rx.slots[i], s.fwd[0];
    Safety.QuerySlotGood(t, i, s.tx.image);
    Safety.OnQueryGood(s.rx, s.mem, s.tx.image, p) by { TxFacts(s.tx); }
    OwnQuery(s.rx, p);
    var (t', missing) := Rx.QuerySlot(t, p.winCrc, p.winBytes);
    var o := Rx.OnQuery(s.rx, p);
    assert o.replies[0] in o.replies;
    AnswerGood(s.tx, t', missing);
  }

  /** The reply to a query for the window the slot holds. */
  lemma OwnQuery(rx: Rx.Rx, p: Request)
    requires Rx.Shape(rx) && p.Query? && Rx.WellFormed(p) && rx.state == Rx.Transfer
    requires rx.slots[p.win % 2].state != Rx.Free && rx.slots[p.win % 2].win == p.win
    requires ChunkCount(p.winBytes) <= MAX_CHUNKS
    ensures var (t', missing) := Rx.QuerySlot(rx.slots[p.win % 2], p.winCrc, p.winBytes);
            var total := ChunkCount(p.winBytes);
            && CoveringBits(total) <= |t'.bitmap|
            && Rx.OnQuery(rx, p) == Rx.Outcome(rx.(slots := rx.slots[p.win % 2 := t']),
                                               [QueryResp(p.win, missing, t'.bitmap[..CoveringBits(total)])], true)
  {
    hide ChunkCount, Crc32.Of;
    Safety.Covering(ChunkCount(p.winBytes));
  }

  /** The answer carries the slot's bitmap, cut to the bytes that cover the window. */
  lemma AnswerGood(tx: Tx.Tx, t: Rx.Slot, missing: nat)
    requires tx.total <= MAX_CHUNKS && |t.bitmap| == BITMAP_BITS && missing == Missing(t.bitmap, tx.total)
    ensures tx.total <= CoveringBits(tx.total) <= BITMAP_BITS
    ensures var p := QueryResp(tx.sendWin, missing, t.bitmap[..CoveringBits(tx.total)]);
            Safety.ReplyGood(p, tx.image) ==> Answers(p, tx, if missing == 0 then AllIn else Wants(t.bitmap))
  {
    hide Safety.ReplyGood;
    Safety.Covering(tx.total);
    var bits := t.bitmap[..CoveringBits(tx.total)];
    assert bits[..tx.total] == t.bitmap[..tx.total];
    MissingPrefix(t.bitmap, bits, tx.total);
  }

  // ---- start and finish -------------------------------------------------------------------------------

  lemma StartStep(s: Link)
    requires Inv(s) && Shapes(s) && s.tx.state == Tx.Starting && s.fwd != []
    ensures Inv(Next(s, RequestArrives)) && Below(Next(s, RequestArrives), s)
  {
    hide Crc32.Of, WindowCount, ChunkCount, WindowBytes, Safety.TxGood, Safety.RxGood, Tx.RoundCounted, Replies;
    TxFacts(s.tx);
    SenderCount(s);
    Safety.OnStartGood(s.rx, s.mem, s.tx.image, s.fwd[0]);
    StartAccepted(s);
  }

  lemma SenderCount(s: Link)
    requires Base(s)
    ensures s.tx.totalWindows == WindowCount(|s.tx.image|) && 0 < s.tx.totalWindows <= MAX_WINDOWS
  {
    hide Crc32.Of, WindowCount, ChunkCount, WindowBytes, Safety.RxGood, PortAccepts;
    WindowCountFacts(|s.tx.image|);
  }

  lemma StartAccepted(s: Link)
    requires Base(s) && Rx.Shape(s.rx) && s.fwd == [Tx.StartPacket(s.tx)]
    ensures var o := Rx.OnStart(s.rx, s.fwd[0]);
            && o.rx.state == Rx.Transfer && o.rx.committed == 0 && o.rx.config == s.rx.config
            && Rx.Shape(o.rx) && o.rx.slots[0].state == o.rx.slots[1].state == Rx.Free
            && o.replies == [StartAck(Ok, Rx.Credit(s.rx.config))]
  {
    hide Crc32.Of, WindowCount, ChunkCount, WindowBytes, Safety.TxGood, Safety.RxGood;
    TxFacts(s.tx);
  }

  lemma StartAckStep(s: Link)
    requires Inv(s) && Shapes(s) && s.tx.state == Tx.Starting && s.bwd != []
    ensures Inv(Next(s, ReplyArrives)) && Below(Next(s, ReplyArrives), s)
  {
    hide Crc32.Of, WindowCount, ChunkCount, WindowBytes, PortAccepts, Safety.TxGood, Safety.RxGood, Tx.RoundCounted;
    SenderCount(s);
    Safety.HandleGood(s.tx, s.bwd[0]);
    WindowFacts(|s.tx.image|, 0);
    SetupFields(s.tx.(credits := Tx.Int16(Rx.Credit(s.rx.config)), retries := 0));
  }

  lemma SetupFields(tx: Tx.Tx)
    ensures var t := Tx.SetupWindow(tx, tx.sendWin);
            && t.total == ChunkCount(WindowBytes(|tx.image|, tx.sendWin)) && t.chunk == 0 && t.sendWin == tx.sendWin
            && t.commitWin == tx.commitWin && t.credits == tx.credits && t.totalWindows == tx.totalWindows
            && t.image == tx.image && t.imageCrc == tx.imageCrc && t.state == tx.state
  {
    hide Crc32.Of, ChunkCount, WindowBytes;
  }

  /** The final verification succeeds: the flash holds the image. */
  lemma FinalizeAccepted(s: Link)
    requires Base(s) && Rx.Shape(s.rx) && s.rx.state == Rx.Transfer && s.rx.committed == s.tx.totalWindows
    ensures var o := Rx.OnFinalize(s.rx, Finalize(s.tx.imageCrc),
                                   FlashCrc(s.mem, s.rx.config.stagingOffset, s.rx.totalSize));
            && o.rx == s.rx.(state := Rx.Complete) && o.replies == [Report(Ok, s.tx.imageCrc)]
            && Safety.RxGood(o.rx, s.mem, s.tx.image)
  {
    hide Crc32.Of, WindowCount, ChunkCount, WindowBytes, PortAccepts, Safety.SlotGood, Rx.SlotShape,
         Safety.PrefixStaged;
    TxFacts(s.tx);
    SenderCount(s);
    Safety.OnFinalizeGood(s.rx, s.mem, s.tx.image, Finalize(s.tx.imageCrc));
    Safety.WholeImageStaged(s.rx, s.mem, s.tx.image);
  }

  lemma FinalizeStep(s: Link)
    requires Inv(s) && Shapes(s) && s.tx.state == Tx.Finalizing && s.fwd != []
    ensures Inv(Next(s, RequestArrives)) && Below(Next(s, RequestArrives), s)
  {
    hide Crc32.Of, WindowCount, ChunkCount, WindowBytes, PortAccepts, Safety.TxGood, Tx.RoundCounted, Replies,
         Safety.SlotGood, Safety.RxGood, Rx.SlotShape, Carrying;
    FinalizeAccepted(s);
  }

  lemma ReportStep(s: Link)
    requires Inv(s) && Shapes(s) && s.tx.state == Tx.Finalizing && s.bwd != []
    ensures Inv(Next(s, ReplyArrives)) && Below(Next(s, ReplyArrives), s)
  {
    hide Crc32.Of, WindowCount, ChunkCount, WindowBytes, PortAccepts, Safety.TxGood, Safety.RxGood, Tx.RoundCounted,
         Replies;
    Safety.HandleGood(s.tx, s.bwd[0]);
  }

  // ---- answers to the query -----------------------------------------------------------------------------

  /** The reply at the head, when it is not READY, answers the outstanding query. */
  lemma AnswerHead(s: Link)
    requires Inv(s) && s.bwd != [] && s.bwd[0].QueryResp?
    ensures s.tx.state == Tx.Querying && s.fwd == []
    ensures Replies(s.bwd[1..], s.tx.commitWin, s.rx.committed, s.tx, Nothing)
    ensures Safety.ReplyGood(s.bwd[0], s.tx.image) && s.bwd[0].win == s.tx.sendWin
    ensures if Acknowledged(s) then s.bwd[0].missing == 0
            else Answers(s.bwd[0], s.tx, Wants(s.rx.slots[s.tx.sendWin % 2].bitmap)) && s.gained
  {
    hide Crc32.Of, WindowCount, ChunkCount, WindowBytes, Base, Counting, Slots, Tx.RoundCounted, Carrying,
         Safety.ReplyGood;
    NoAnswer(s.bwd[0], s.tx);
  }

  lemma MissingStep(s: Link)
    requires Inv(s) && Shapes(s) && s.bwd != [] && s.bwd[0].QueryResp? && !Acknowledged(s)
    ensures Inv(Next(s, ReplyArrives)) && Below(Next(s, ReplyArrives), s)
  {
    hide Crc32.Of, WindowCount, ChunkCount, WindowBytes, PortAccepts, Safety.TxGood, Safety.RxGood, Tx.RoundCounted,
         Replies, Safety.ReplyGood, Safety.SlotGood, Rx.SlotShape, Tx.ClearBits, Next, Slots, Counting;
    AnswerHead(s);
    CurrentSlot(s);
    var p, slot := s.bwd[0], s.rx.slots[s.tx.sendWin % 2];
    Tx.QueryRespStartsRound(s.tx, p);
    Safety.HandleGood(s.tx, p);
    var s' := Next(s, ReplyArrives);
    MissingOutcome(s, s');
    Tx.CountedShape(s'.tx);
    MissingSlots(s, s');
    RepliesAnySender(s'.bwd, s.tx.commitWin, s.rx.committed, s.tx, s'.tx);
    forall c | 0 <= c < s'.tx.total && !s'.tx.bitmap[c] ensures Open(s'.rx, s'.tx.sendWin, c) {
      assert p.bitmap[..s.tx.total][c] == slot.bitmap[..s.tx.total][c];
    }
  }

  /** What the sender does when told that chunks are missing. */
  lemma MissingOutcome(s: Link, s': Link)
    requires Inv(s) && Shapes(s) && s.bwd != [] && s.bwd[0].QueryResp? && !Acknowledged(s)
    requires s' == Next(s, ReplyArrives)
    ensures s.fwd == [] && s.bwd[0].missing > 0 && |s.bwd[0].bitmap| <= BITMAP_BITS
    ensures s' == s.(tx := s'.tx, bwd := s.bwd[1..], gained := false)
    ensures s'.tx == s.tx.(bitmap := s.bwd[0].bitmap + s.tx.bitmap[|s.bwd[0].bitmap|..],
                           remaining := s.bwd[0].missing, nextChunk := 0, state := Tx.Retransmit)
  {
    hide Crc32.Of, WindowCount, ChunkCount, WindowBytes, PortAccepts, Safety.TxGood, Safety.RxGood, Tx.RoundCounted,
         Replies, Safety.ReplyGood, Counting, Slots, Flow, Base;
    AnswerHead(s);
  }

  lemma MissingSlots(s: Link, s': Link)
    requires Inv(s) && !Acknowledged(s) && s.tx.state == Tx.Querying && s.fwd == []
    requires s' == s.(tx := s'.tx, bwd := s'.bwd, gained := false)
    requires s'.tx == s.tx.(bitmap := s'.tx.bitmap, remaining := s'.tx.remaining, nextChunk := 0,
             state := Tx.Retransmit)
    ensures Slots(s') && Counting(s')
  {
    hide Crc32.Of, WindowCount, ChunkCount, WindowBytes, Base, Flow, Tx.Int16;
    assert SlotUse(s, 0) && SlotUse(s, 1);
    assert SlotUse(s', 0) && SlotUse(s', 1);
  }

  /** What the sender does when told that its window is complete. */
  lemma AllInOutcome(s: Link)
    requires Inv(s) && Shapes(s) && s.bwd != [] && s.bwd[0].QueryResp? && Acknowledged(s)
    ensures var s' := Next(s, ReplyArrives);
            && s' == s.(tx := s'.tx, bwd := s.bwd[1..], gained := false)
            && Safety.TxGood(s'.tx) && s'.tx.image == s.tx.image && s'.tx.totalWindows == s.tx.totalWindows
            && s'.tx.sendWin == s.tx.sendWin + 1 <= s.tx.totalWindows && s'.tx.credits == Tx.Int16(s.tx.credits - 1)
            && s'.tx.commitWin == s.tx.commitWin
            && (if s.tx.sendWin + 1 < s.tx.totalWindows && s'.tx.credits > 0
                then s'.tx.state == Tx.SendWindow && s'.tx.chunk == 0
                     && s'.tx.total == ChunkCount(WindowBytes(|s.tx.image|, s.tx.sendWin + 1))
                else s'.tx.state == Tx.WaitReady)
  {
    hide Crc32.Of, WindowCount, ChunkCount, WindowBytes, PortAccepts, Safety.TxGood, Safety.RxGood, Tx.RoundCounted,
         Replies, Safety.ReplyGood, Safety.SlotGood, Rx.SlotShape, Tx.SetupWindow, Slots, Flow;
    AnswerHead(s);
    SenderCount(s);
    QueryingWindow(s);
    Safety.HandleGood(s.tx, s.bwd[0]);
    SetupFields(s.tx.(credits := Tx.Int16(s.tx.credits - 1), sendWin := s.tx.sendWin + 1, retries := 0));
  }

  /** Moving on to the next window changes no slot: none is receiving any more. */
  lemma AllInSlots(s: Link, s': Link)
    requires Inv(s) && Acknowledged(s) && s'.rx == s.rx && s'.tx.sendWin == s.tx.sendWin + 1
             && s'.tx.state != Tx.Querying
    ensures Held(s') == Held(s) && !Acknowledged(s') && Slots(s')
  {
    hide Crc32.Of, WindowCount, ChunkCount, WindowBytes, PortAccepts, Base, Flow, Counting;
    ReadyParity(s, 0);
    ReadyParity(s, 1);
    assert SlotUse(s, 0) && SlotUse(s, 1);
  }

  lemma AllInStep(s: Link)
    requires Inv(s) && Shapes(s) && s.bwd != [] && s.bwd[0].QueryResp? && Acknowledged(s)
    requires !Crowded(Next(s, ReplyArrives))
    ensures Inv(Next(s, ReplyArrives)) && Below(Next(s, ReplyArrives), s)
  {
    hide Crc32.Of, WindowCount, ChunkCount, WindowBytes, PortAccepts, Safety.TxGood, Safety.RxGood, Tx.RoundCounted,
         Replies, Safety.ReplyGood, Safety.SlotGood, Rx.SlotShape, Tx.SetupWindow, Slots, Open, Next;
    AnswerHead(s);
    SenderCount(s);
    QueryingWindow(s);
    var s' := Next(s, ReplyArrives);
    AllInOutcome(s);
    AllInSlots(s, s');
    RepliesAnySender(s'.bwd, s.tx.commitWin, s.rx.committed, s.tx, s'.tx);
    CreditMoves(s, -1);
    assert Counting(s');
    if s'.tx.state == Tx.SendWindow {
      WindowFacts(|s.tx.image|, s'.tx.sendWin);
      NextSlotFree(s, s');
    }
  }

  /** One credit more or less, in 16 bits. */
  lemma CreditMoves(s: Link, d: int)
    requires Inv(s) && Transferring(s.tx)
    ensures Tx.Int16(s.tx.credits + d) == Tx.Int16(Rx.Credit(s.rx.config) + s.tx.commitWin - s.tx.sendWin + d)
  {
    hide Base, Slots, Flow, Tx.Int16;
    Int16Add(Rx.Credit(s.rx.config) + s.tx.commitWin - s.tx.sendWin, d);
  }

  lemma Int16Add(x: int, d: int)
    ensures Tx.Int16(Tx.Int16(x) + d) == Tx.Int16(x + d)
  {
  }

  lemma QueryingWindow(s: Link)
    requires Inv(s) && Active(s.tx)
    ensures s.tx.sendWin < s.tx.totalWindows
  {
    hide Crc32.Of, WindowCount, ChunkCount, WindowBytes, PortAccepts, Safety.RxGood, Counting, Slots, Flow;
  }

  /** When the sender may go on, the slot of its next window is free: the window two before it has
      been committed. */
  lemma NextSlotFree(s: Link, s': Link)
    requires Inv(s) && Transferring(s.tx) && |s'.rx.slots| == 2 && s'.rx == s.rx
    requires s'.tx.sendWin == Held(s) <= s.rx.committed + 1
    requires !Active(s.tx) || Acknowledged(s)
    ensures s.rx.slots[s'.tx.sendWin % 2].state == Rx.Free
    ensures forall c :: Open(s'.rx, s'.tx.sendWin, c)
  {
    hide Crc32.Of, WindowCount, ChunkCount, WindowBytes, PortAccepts, Safety.RxGood, Flow, Base, Counting;
    var i := s'.tx.sendWin % 2;
    ReadyParity(s, i);
    assert SlotUse(s, i) by { assert i == 0 || i == 1; }
    assert SlotUse(s, 1 - i) by { assert i == 0 || i == 1; }
    ReadyParity(s, s.tx.sendWin % 2);
  }

  // ---- READY --------------------------------------------------------------------------------------------

  lemma ReadyHead(s: Link)
    requires Inv(s) && s.bwd != [] && s.bwd[0].Ready?
    ensures Transferring(s.tx) && s.bwd[0] == Ready(s.tx.commitWin, Ok, 1)
    ensures s.tx.commitWin < s.rx.committed && s.tx.commitWin < s.tx.sendWin
    ensures Safety.ReplyGood(s.bwd[0], s.tx.image)
  {
    hide Crc32.Of, WindowCount, ChunkCount, WindowBytes, Slots, Tx.RoundCounted, Carrying, Safety.RxGood, PortAccepts;
    SenderCount(s);
  }

  /** A READY while the sender is busy with a window only moves the counters. */
  lemma ReadyBusyOutcome(s: Link)
    requires Inv(s) && Shapes(s) && s.bwd != [] && s.bwd[0].Ready? && s.tx.commitWin + 1 < s.tx.totalWindows
    requires Active(s.tx) || s.tx.sendWin == s.tx.totalWindows
    ensures Next(s, ReplyArrives)
            == s.(tx := s.tx.(credits := Tx.Int16(s.tx.credits + 1), commitWin := s.tx.commitWin + 1),
              bwd := s.bwd[1..])
    ensures Safety.TxGood(Next(s, ReplyArrives).tx)
  {
    hide Crc32.Of, WindowCount, ChunkCount, WindowBytes, PortAccepts, Safety.TxGood, Safety.RxGood, Tx.RoundCounted,
         Replies, Safety.ReplyGood, Safety.SlotGood, Rx.SlotShape, Tx.SetupWindow, Open, Flow, Slots;
    ReadyHead(s);
    SenderCount(s);
    Safety.HandleGood(s.tx, s.bwd[0]);
    assert s.fwd + [] == s.fwd;
  }

  lemma ReadyBusyStep(s: Link)
    requires Inv(s) && Shapes(s) && s.bwd != [] && s.bwd[0].Ready? && s.tx.commitWin + 1 < s.tx.totalWindows
    requires Active(s.tx) || s.tx.sendWin == s.tx.totalWindows
    ensures Inv(Next(s, ReplyArrives)) && Below(Next(s, ReplyArrives), s)
  {
    hide Crc32.Of, WindowCount, ChunkCount, WindowBytes, PortAccepts, Safety.TxGood, Safety.RxGood, Tx.RoundCounted,
         Replies, Safety.ReplyGood, Safety.SlotGood, Rx.SlotShape, Tx.SetupWindow, Open, Flow, Next;
    ReadyHead(s);
    ReadyBusyOutcome(s);
    CreditMoves(s, 1);
    var s' := Next(s, ReplyArrives);
    ReadyFlow(s, s');
    assert SlotUse(s, 0) && SlotUse(s, 1);
    assert SlotUse(s', 0) && SlotUse(s', 1);
  }

  lemma ReadyFlow(s: Link, s': Link)
    requires Inv(s) && s.bwd != [] && s.bwd[0].Ready? && Transferring(s.tx)
    requires s.bwd[0] == Ready(s.tx.commitWin, Ok, 1)
    requires s' == s.(tx := s.tx.(credits := s'.tx.credits, commitWin := s.tx.commitWin + 1), bwd := s.bwd[1..])
    ensures Flow(s')
  {
    hide Crc32.Of, WindowCount, ChunkCount, WindowBytes, Base, Counting, Slots, Safety.ReplyGood, Open, Tx.DataPacket,
         Answers;
    var n := s.tx.commitWin + 1;
    if s.tx.state == Tx.Querying && s.fwd == [] {
      var owed := if Acknowledged(s) then AllIn else Wants(s.rx.slots[s.tx.sendWin % 2].bitmap);
      RepliesSameWindow(s'.bwd, n, s.rx.committed, s.tx, s'.tx, owed);
    } else {
      RepliesAnySender(s'.bwd, n, s.rx.committed, s.tx, s'.tx);
    }
    CarrySame(s, s');
  }

  lemma CarrySame(s: Link, s': Link)
    requires |s.rx.slots| == 2 && s'.rx == s.rx && SameWindow(s.tx, s'.tx) && s'.fwd == s.fwd
    ensures forall n: nat, bound: nat :: n <= |s.fwd| && Carrying(s, n, bound) ==> Carrying(s', n, bound)
  {
    forall n: nat, bound: nat | n <= |s.fwd| && Carrying(s, n, bound) ensures Carrying(s', n, bound) {
      forall i | 0 <= i < n ensures ChunkUnderWay(s', s'.fwd[i], bound) {
        assert ChunkUnderWay(s, s.fwd[i], bound);
        Tx.DataPacketSame(s.tx, s'.tx, s.fwd[i].chunk);
      }
    }
  }

  /** A READY that lets a waiting sender start the next window. */
  lemma ReadyWaitingOutcome(s: Link)
    requires Inv(s) && Shapes(s) && s.bwd != [] && s.bwd[0].Ready? && s.tx.commitWin + 1 < s.tx.totalWindows
    requires s.tx.state == Tx.WaitReady && s.tx.sendWin < s.tx.totalWindows
    ensures var s' := Next(s, ReplyArrives);
            && s' == s.(tx := s'.tx, bwd := s.bwd[1..])
            && Safety.TxGood(s'.tx) && s'.tx.image == s.tx.image && s'.tx.totalWindows == s.tx.totalWindows
            && s'.tx.sendWin == s.tx.sendWin && s'.tx.credits == Tx.Int16(s.tx.credits + 1)
               && s'.tx.commitWin == s.tx.commitWin + 1
            && s'.tx.state == Tx.SendWindow && s'.tx.chunk == 0
            && s'.tx.total == ChunkCount(WindowBytes(|s.tx.image|, s.tx.sendWin))
  {
    hide Crc32.Of, WindowCount, ChunkCount, WindowBytes, PortAccepts, Safety.TxGood, Safety.RxGood, Tx.RoundCounted,
         Replies, Safety.ReplyGood, Safety.SlotGood, Rx.SlotShape, Tx.SetupWindow, Slots;
    ReadyHead(s);
    SenderCount(s);
    Safety.HandleGood(s.tx, s.bwd[0]);
    var tx1 := s.tx.(credits := Tx.Int16(s.tx.credits + 1), commitWin := s.tx.commitWin + 1);
    SetupFields(tx1);
    assert Next(s, ReplyArrives).tx == Tx.SetupWindow(tx1, tx1.sendWin).(state := Tx.SendWindow);
  }

  lemma ReadyWaitingStep(s: Link)
    requires Inv(s) && Shapes(s) && s.bwd != [] && s.bwd[0].Ready? && s.tx.commitWin + 1 < s.tx.totalWindows
    requires s.tx.state == Tx.WaitReady && s.tx.sendWin < s.tx.totalWindows && !Crowded(Next(s, ReplyArrives))
    ensures Inv(Next(s, ReplyArrives)) && Below(Next(s, ReplyArrives), s)
  {
    hide Crc32.Of, WindowCount, ChunkCount, WindowBytes, PortAccepts, Safety.TxGood, Safety.RxGood, Tx.RoundCounted,
         Replies, Safety.ReplyGood, Safety.SlotGood, Rx.SlotShape, Tx.SetupWindow, Open, Next;
    ReadyHead(s);
    SenderCount(s);
    ReadyWaitingOutcome(s);
    CreditMoves(s, 1);
    var s' := Next(s, ReplyArrives);
    ReadyTail(s);
    RepliesAnySender(s'.bwd, s.tx.commitWin + 1, s.rx.committed, s.tx, s'.tx);
    WindowFacts(|s.tx.image|, s'.tx.sendWin);
    NextSlotFree(s, s');
    assert SlotUse(s, 0) && SlotUse(s, 1);
    assert SlotUse(s', 0) && SlotUse(s', 1);
  }

  lemma ReadyTail(s: Link)
    requires s.bwd != [] && s.bwd[0].Ready? && Replies(s.bwd, s.tx.commitWin, s.rx.committed, s.tx, Nothing)
    ensures Replies(s.bwd[1..], s.tx.commitWin + 1, s.rx.committed, s.tx, Nothing)
  {
  }

  /** The last READY makes the sender ask for the final verification. */
  lemma ReadyLastStep(s: Link)
    requires Inv(s) && Shapes(s) && s.bwd != [] && s.bwd[0].Ready? && s.tx.commitWin + 1 == s.tx.totalWindows
    ensures Inv(Next(s, ReplyArrives)) && Below(Next(s, ReplyArrives), s)
  {
    hide Crc32.Of, WindowCount, ChunkCount, WindowBytes, PortAccepts, Safety.TxGood, Safety.RxGood, Tx.RoundCounted,
         Safety.ReplyGood, Safety.SlotGood, Rx.SlotShape, Tx.SetupWindow, Open, Answers;
    ReadyHead(s);
    SenderCount(s);
    Safety.HandleGood(s.tx, s.bwd[0]);
    LastReadyAlone(s);
  }

  /** By the time the last window is committed nothing else is under way. */
  lemma LastReadyAlone(s: Link)
    requires Inv(s) && s.bwd != [] && s.bwd[0].Ready? && s.tx.commitWin + 1 == s.tx.totalWindows
    ensures s.tx.state == Tx.WaitReady && s.fwd == [] && s.bwd == [s.bwd[0]] && s.rx.committed == s.tx.totalWindows
    ensures s.rx.state == Rx.Transfer
  {
    hide Crc32.Of, WindowCount, ChunkCount, WindowBytes, PortAccepts, Safety.TxGood, Safety.RxGood, Tx.RoundCounted,
         Slots, Answers, Carrying;
    ReadyHead(s);
    SenderCount(s);
    if Active(s.tx) { QueryingWindow(s); }
    SentAtMostAll(s);
    assert s.tx.sendWin == s.tx.totalWindows;
    ReadyTail(s);
    TailEmpty(s);
  }

  lemma SentAtMostAll(s: Link)
    requires Base(s)
    ensures s.tx.sendWin <= s.tx.totalWindows
  {
    hide Crc32.Of, WindowCount, ChunkCount, WindowBytes, Safety.RxGood, PortAccepts;
  }

  lemma TailEmpty(s: Link)
    requires s.bwd != [] && Replies(s.bwd[1..], s.rx.committed, s.rx.committed, s.tx, Nothing)
    ensures s.bwd[1..] == []
  {
    hide Answers;
    NothingOwed(s.bwd[1..], s.rx.committed, s.tx);
  }

  lemma NothingOwed(q: seq<Reply>, n: nat, tx: Tx.Tx)
    requires Replies(q, n, n, tx, Nothing)
    ensures q == []
  {
    hide Answers;
    if q != [] { NoAnswer(q[0], tx); }
  }

  // ---- flash -------------------------------------------------------------------------------------------

  predicate CanFlash(rx: Rx.Rx)
    requires |rx.slots| == 2
  {
    rx.state == Rx.Transfer && (Rx.Flashable(rx, 0) || Rx.Flashable(rx, 1))
  }

  /** A window is ready for flash only while the sender is transferring. */
  lemma FlashTransferring(s: Link)
    requires Inv(s) && CanFlash(s.rx)
    ensures Transferring(s.tx) && Rx.Flashable(s.rx, ReadySlot(s.rx))
    ensures var slot := s.rx.slots[ReadySlot(s.rx)];
            && s.rx.committed == slot.win < Held(s)
               && slot.win < WindowCount(|s.tx.image|) == s.tx.totalWindows <= MAX_WINDOWS
            && slot.retries < MAX_FLASH_RETRIES && slot.win % 2 == ReadySlot(s.rx)
  {
    hide Crc32.Of, WindowCount, ChunkCount, WindowBytes, PortAccepts, Tx.RoundCounted, Replies, Carrying,
         Safety.Filled, Safety.PrefixStaged;
    SenderCount(s);
    var k := ReadySlot(s.rx);
    Safety.SlotsAgree(s.rx, s.mem, s.tx.image, k);
    if Transferring(s.tx) { assert SlotUse(s, k) by { assert k == 0 || k == 1; } }
  }

  /** The staging check passes and the flash functions accept the window. */
  lemma FlashAccepted(s: Link)
    requires Inv(s) && CanFlash(s.rx)
    ensures var slot := s.rx.slots[ReadySlot(s.rx)];
            var offset := Rx.FlashOffset(s.rx, slot);
            && EraseAccepted(s.rx.config.port, |s.mem|, offset, WINDOW)
            && ProgramAccepted(s.rx.config.port, |s.mem|, offset, slot.winBytes)
            && (s.rx.config.stagingMax > 0
               ==> offset + slot.winBytes <= s.rx.config.stagingOffset + s.rx.config.stagingMax)
  {
    hide Crc32.Of, WindowCount, ChunkCount, WindowBytes, Tx.RoundCounted, Replies, Carrying, Safety.Filled,
         Safety.PrefixStaged, EraseAccepted, ProgramAccepted, Flow, Slots, Counting;
    FlashTransferring(s);
    Safety.ReadySlot(s.rx, ReadySlot(s.rx), s.mem, s.tx.image);
    assert WindowAccepted(s.rx.config, |s.mem|, |s.tx.image|, s.rx.committed);
  }

  ghost predicate FailedOnce(s: Link, s': Link, k: nat)
    requires |s.rx.slots| == 2 && k < 2
  {
    && s.rx.slots[k].retries + 1 < MAX_FLASH_RETRIES
    && s' == s.(rx := s.rx.(slots := s.rx.slots[k := s.rx.slots[k].(retries := s.rx.slots[k].retries + 1)]),
       mem := s'.mem)
  }

  ghost predicate CommittedOne(s: Link, s': Link, k: nat)
    requires |s.rx.slots| == 2 && k < 2
  {
    s' == s.(rx := s.rx.(slots := s.rx.slots[k := s.rx.slots[k].(state := Rx.Free)], committed := s.rx.committed + 1),
             mem := s'.mem, bwd := s.bwd + [Ready(s.rx.committed, Ok, 1)])
  }

  lemma FlashOutcome(s: Link, plan: Rx.Plan)
    requires Inv(s) && Shapes(s) && Enabled(s, FlashSteps(plan))
    ensures var s' := Next(s, FlashSteps(plan));
            && |s'.mem| == |s.mem| && Safety.RxGood(s'.rx, s'.mem, s.tx.image)
            && (FailedOnce(s, s', ReadySlot(s.rx)) || CommittedOne(s, s', ReadySlot(s.rx)))
  {
    hide Crc32.Of, WindowCount, ChunkCount, WindowBytes, PortAccepts, Safety.TxGood, Safety.RxGood, Tx.RoundCounted,
         Flow, Slots, Counting, EraseAccepted, ProgramAccepted, Program, Erase, Rx.Clobber, Rx.SlotShape;
    var k := ReadySlot(s.rx);
    FlashTransferring(s);
    FlashAccepted(s);
    Safety.FlashSlotGood(s.rx, k, s.mem, s.tx.image, plan);
    Rx.FlashSlotShape(s.rx, k, s.mem, plan);
    FlashSlotResult(s.rx, k, s.mem, plan);
    assert s.bwd + [] == s.bwd;
  }

  /** One attempt on a window the flash accepts: it counts as a failure or commits the window. */
  lemma FlashSlotResult(rx: Rx.Rx, k: nat, mem: seq<byte>, plan: Rx.Plan)
    requires Rx.Shape(rx) && k < 2 && Rx.Flashable(rx, k) && rx.committed < MAX_WINDOWS
             && rx.slots[k].retries < MAX_FLASH_RETRIES
    requires var offset := Rx.FlashOffset(rx, rx.slots[k]);
             && EraseAccepted(rx.config.port, |mem|, offset, WINDOW)
             && ProgramAccepted(rx.config.port, |mem|, offset, rx.slots[k].winBytes)
             && (rx.config.stagingMax > 0
                ==> offset + rx.slots[k].winBytes <= rx.config.stagingOffset + rx.config.stagingMax)
    ensures var o := Rx.FlashSlot(rx, k, mem, plan);
            || (o.rx == rx.(slots := rx.slots[k := rx.slots[k].(state := Rx.Free)], committed := rx.committed + 1)
                && o.replies == [Ready(rx.committed, Ok, 1)])
            || (o.rx.committed == rx.committed
                && (rx.slots[k].retries + 1 < MAX_FLASH_RETRIES ==>
                      o.rx == rx.(slots := rx.slots[k := rx.slots[k].(retries := rx.slots[k].retries + 1)])
                        && o.replies == []))
  {
    hide Crc32.Of, ChunkCount, Program, Erase, Rx.Clobber, EraseAccepted, ProgramAccepted;
  }

  /** The rest of the state looks the same to the sender whatever happened to a ready slot. */
  lemma OtherSlotFlow(s: Link, s': Link, k: nat, owedNow: nat)
    requires Inv(s) && Transferring(s.tx) && k < 2 && s.rx.slots[k].state == Rx.ReadyToFlash
    requires |s'.rx.slots| == 2 && s'.tx == s.tx && s'.fwd == s.fwd && s'.gained == s.gained
    requires s'.rx.slots[1 - k] == s.rx.slots[1 - k] && s'.rx.slots[k].state != Rx.Receiving
             && s'.rx.committed == owedNow
    requires forall owed :: Replies(s.bwd, s.tx.commitWin, s.rx.committed, s.tx, owed) ==>
                              Replies(s'.bwd, s.tx.commitWin, owedNow, s.tx, owed)
    ensures Flow(s') && GainedMeansReceiving(s') && Held(s') == Held(s)
  {
    hide Crc32.Of, WindowCount, ChunkCount, WindowBytes, Base, Counting, Slots, Tx.RoundCounted, Replies, Open,
         Tx.DataPacket;
    if Active(s.tx) && !Acknowledged(s) {
      CurrentSlot(s);
      assert s'.rx.slots[s.tx.sendWin % 2] == s.rx.slots[s.tx.sendWin % 2];
      SameOpen(s, s');
    }
  }

  lemma SameOpen(s: Link, s': Link)
    requires |s.rx.slots| == 2 && |s'.rx.slots| == 2 && s'.tx == s.tx && s'.fwd == s.fwd
    requires s'.rx.slots[s.tx.sendWin % 2] == s.rx.slots[s.tx.sendWin % 2]
    ensures forall c :: Open(s'.rx, s.tx.sendWin, c) == Open(s.rx, s.tx.sendWin, c)
    ensures forall n: nat, bound: nat :: n <= |s.fwd| && Carrying(s, n, bound) ==> Carrying(s', n, bound)
  {
    hide Tx.DataPacket;
    forall n: nat, bound: nat | n <= |s.fwd| && Carrying(s, n, bound) ensures Carrying(s', n, bound) {
      forall i | 0 <= i < n ensures ChunkUnderWay(s', s'.fwd[i], bound) {
        assert ChunkUnderWay(s, s.fwd[i], bound);
      }
    }
  }

  lemma FailedStep(s: Link, s': Link)
    requires Inv(s) && CanFlash(s.rx) && FailedOnce(s, s', ReadySlot(s.rx))
    requires |s'.mem| == |s.mem| && Safety.RxGood(s'.rx, s'.mem, s.tx.image)
    ensures Inv(s') && Below(s', s)
  {
    hide Crc32.Of, WindowCount, ChunkCount, WindowBytes, PortAccepts, Safety.TxGood, Safety.RxGood, Tx.RoundCounted,
         Flow, Replies, Missing, Slots, Counting;
    var k := ReadySlot(s.rx);
    FlashTransferring(s);
    OtherSlotFlow(s, s', k, s.rx.committed);
    BaseKept(s, s');
    SlotShapeKept(s, s');
    FailedSlots(s, s', k);
    assert ReadySlot(s'.rx) == k;
  }

  lemma FailedSlots(s: Link, s': Link, k: nat)
    requires Inv(s) && Transferring(s.tx) && k < 2 && FailedOnce(s, s', k) && Held(s') == Held(s)
    requires s.rx.slots[k].state == Rx.ReadyToFlash && s.rx.slots[k].win == s.rx.committed
    ensures Slots(s') && Counting(s')
  {
    hide Crc32.Of, WindowCount, ChunkCount, WindowBytes, Base, Flow, Tx.Int16;
    assert SlotUse(s, k) && SlotUse(s, 1 - k);
    assert SlotUse(s', k) && SlotUse(s', 1 - k);
  }

  lemma SlotShapeKept(s: Link, s': Link)
    requires Base(s) && Safety.RxGood(s'.rx, s'.mem, s.tx.image)
    ensures Rx.Shape(s'.rx)
  {
    hide Crc32.Of, WindowCount, PortAccepts;
  }

  lemma CommittedSlots(s: Link, s': Link)
    requires Inv(s) && CanFlash(s.rx) && CommittedOne(s, s', ReadySlot(s.rx)) && Held(s') == Held(s)
    ensures Slots(s') && Counting(s')
  {
    hide Crc32.Of, WindowCount, ChunkCount, WindowBytes, Base, Flow;
    var k := ReadySlot(s.rx);
    FlashTransferring(s);
    ReadyParity(s, 0);
    ReadyParity(s, 1);
    assert SlotUse(s, k) && SlotUse(s, 1 - k);
    assert SlotUse(s', k) && SlotUse(s', 1 - k);
  }

  lemma CommittedAttempts(s: Link, s': Link)
    requires Inv(s) && CanFlash(s.rx) && CommittedOne(s, s', ReadySlot(s.rx))
    ensures Attempts(s') < Attempts(s)
  {
    hide Crc32.Of, WindowCount, ChunkCount, WindowBytes, Base, Flow, Counting, Slots;
    FlashTransferring(s);
  }

  lemma CommittedStep(s: Link, s': Link)
    requires Inv(s) && CanFlash(s.rx) && CommittedOne(s, s', ReadySlot(s.rx))
    requires |s'.mem| == |s.mem| && Safety.RxGood(s'.rx, s'.mem, s.tx.image)
    ensures Inv(s') && Below(s', s)
  {
    hide Crc32.Of, WindowCount, ChunkCount, WindowBytes, PortAccepts, Safety.TxGood, Safety.RxGood, Tx.RoundCounted,
         Flow, Replies, Missing, Slots, Counting, Attempts;
    var k := ReadySlot(s.rx);
    FlashTransferring(s);
    forall owed | Replies(s.bwd, s.tx.commitWin, s.rx.committed, s.tx, owed)
      ensures Replies(s'.bwd, s.tx.commitWin, s.rx.committed + 1, s.tx, owed)
    {
      RepliesAddReady(s.bwd, s.tx.commitWin, s.rx.committed, s.tx, owed);
    }
    OtherSlotFlow(s, s', k, s.rx.committed + 1);
    BaseKept(s, s');
    SlotShapeKept(s, s');
    CommittedSlots(s, s');
    CommittedAttempts(s, s');
  }

  lemma FlashStep(s: Link, plan: Rx.Plan)
    requires Inv(s) && Shapes(s) && Enabled(s, FlashSteps(plan))
    ensures Inv(Next(s, FlashSteps(plan))) && Below(Next(s, FlashSteps(plan)), s)
  {
    hide Inv, Next, Below, FailedOnce, CommittedOne, FlashFails;
    FlashOutcome(s, plan);
    var s' := Next(s, FlashSteps(plan));
    if FailedOnce(s, s', ReadySlot(s.rx)) { FailedStep(s, s'); } else { CommittedStep(s, s'); }
  }

  // ---- every event -------------------------------------------------------------------------------------

  lemma {:induction false} RepliesShapes(q: seq<Reply>, next: nat, committed: nat, tx: Tx.Tx, owed: Expect, i: nat)
    requires Replies(q, next, committed, tx, owed) && i < |q|
    ensures q[i].QueryResp? ==> |q[i].bitmap| <= BITMAP_BITS
    ensures q[i].Ready? || q[i].QueryResp?
    decreases |q|
  {
    if i > 0 {
      if q[0].Ready? { RepliesShapes(q[1..], next + 1, committed, tx, owed, i - 1); }
      else { RepliesShapes(q[1..], next, committed, tx, Nothing, i - 1); }
    }
  }

  /** What the sender still expects while it transfers. */
  lemma OwedNow(s: Link)
    requires Inv(s) && Transferring(s.tx)
    ensures exists owed :: Replies(s.bwd, s.tx.commitWin, s.rx.committed, s.tx, owed)
  {
    hide Base, Counting, Slots, Carrying, Replies, Tx.RoundCounted;
  }

  /** While a window is being transferred only its DATA packets and its query are under way. */
  lemma HeadKind(s: Link, i: nat)
    requires Inv(s) && Transferring(s.tx) && i < |s.fwd|
    ensures (s.fwd[i].Data? || s.fwd[i].Query?) && Rx.WellFormed(s.fwd[i])
  {
    hide Crc32.Of, WindowCount, ChunkCount, WindowBytes, PortAccepts, Safety.RxGood, Counting, Slots, Replies,
         Tx.RoundCounted;
    if Active(s.tx) { Safety.ActiveWindow(s.tx); }
  }

  lemma InvShapes(s: Link)
    requires Inv(s)
    ensures Shapes(s)
  {
    hide Crc32.Of, WindowCount, ChunkCount, PortAccepts, Safety.RxGood, Replies, Counting, Slots, Carrying,
         Tx.RoundCounted, Rx.SlotShape;
    if Transferring(s.tx) {
      OwedNow(s);
      var owed :| Replies(s.bwd, s.tx.commitWin, s.rx.committed, s.tx, owed);
      forall i | 0 <= i < |s.bwd| ensures s.bwd[i].QueryResp? ==> |s.bwd[i].bitmap| <= BITMAP_BITS {
        RepliesShapes(s.bwd, s.tx.commitWin, s.rx.committed, s.tx, owed, i);
      }
      forall i | 0 <= i < |s.fwd| ensures Rx.WellFormed(s.fwd[i]) { HeadKind(s, i); }
    }
  }

  lemma RequestStep(s: Link)
    requires Inv(s) && Shapes(s) && s.fwd != []
    ensures Inv(Next(s, RequestArrives)) && Below(Next(s, RequestArrives), s)
  {
    hide Base, Counting, Slots, Next, Below, Rx.SlotShape, Tx.RoundCounted, Replies, Carrying;
    if s.tx.state == Tx.Starting { StartStep(s); }
    else if s.tx.state == Tx.Finalizing { FinalizeStep(s); }
    else {
      HeadKind(s, 0);
      if s.fwd[0].Data? { DataStep(s); } else { QueryStep(s); }
    }
  }

  lemma ReplyStep(s: Link)
    requires Inv(s) && Shapes(s) && s.bwd != [] && !Crowded(Next(s, ReplyArrives))
    ensures Inv(Next(s, ReplyArrives)) && Below(Next(s, ReplyArrives), s)
  {
    hide Base, Counting, Slots, Next, Below, Rx.SlotShape, Tx.RoundCounted, Replies, Carrying;
    if s.tx.state == Tx.Starting { StartAckStep(s); }
    else if s.tx.state == Tx.Finalizing { ReportStep(s); }
    else {
      OwedNow(s);
      var owed :| Replies(s.bwd, s.tx.commitWin, s.rx.committed, s.tx, owed);
      RepliesShapes(s.bwd, s.tx.commitWin, s.rx.committed, s.tx, owed, 0);
      if s.bwd[0].QueryResp? {
        if Acknowledged(s) { AllInStep(s); } else { MissingStep(s); }
      } else {
        StillToCommit(s);
        if s.tx.commitWin + 1 == s.tx.totalWindows { ReadyLastStep(s); }
        else if Active(s.tx) || s.tx.sendWin == s.tx.totalWindows { ReadyBusyStep(s); }
        else { ReadyWaitingStep(s); }
      }
    }
  }

  lemma StillToCommit(s: Link)
    requires Inv(s) && Transferring(s.tx)
    ensures s.tx.commitWin < s.tx.totalWindows && s.tx.sendWin <= s.tx.totalWindows
  {
    hide Flow, Slots, Crc32.Of, WindowCount, ChunkCount, PortAccepts, Safety.RxGood;
  }

  /** Every event that does not crowd the slots keeps the invariant and lowers the measure. */
  lemma InvNext(s: Link, e: Event)
    requires Inv(s) && Shapes(s) && Enabled(s, e) && !Crowded(Next(s, e))
    ensures Inv(Next(s, e)) && Below(Next(s, e), s)
  {
    hide Inv, Next, Below, FlashFails;
    match e {
      case SenderSteps => if s.tx.state == Tx.SendWindow { SendWindowStep(s); } else { RetransmitStep(s); }
      case RequestArrives => RequestStep(s);
      case DataLost => LossStep(s);
      case ReplyArrives => ReplyStep(s);
      case FlashSteps(plan) => FlashStep(s, plan);
    }
  }

  lemma InitInv(s: Link, image: seq<byte>)
    requires Init(s, image)
    ensures Inv(s)
  {
    hide Crc32.Of, WindowCount, ChunkCount, Rx.SlotShape, PortAccepts;
    WindowCountFacts(|image|);
  }

  // ---- nothing gets stuck --------------------------------------------------------------------------------

  /** Flash hardware that behaves commits the window at once. */
  const GOOD_FLASH := Rx.Plan(false, false, [], false, 0)

  lemma GoodFlashCommits(s: Link)
    requires Inv(s) && CanFlash(s.rx)
    ensures Rx.Shape(s.rx) && !FlashFails(s, GOOD_FLASH)
  {
    hide Crc32.Of, WindowCount, ChunkCount, WindowBytes, PortAccepts, Tx.RoundCounted, Flow, Slots, Counting,
         EraseAccepted, ProgramAccepted, Rx.FlashSlot, Safety.Filled, Safety.PrefixStaged;
    var k := ReadySlot(s.rx);
    FlashTransferring(s);
    FlashAccepted(s);
    Safety.ReadySlot(s.rx, k, s.mem, s.tx.image);
    Safety.SlotsAgree(s.rx, s.mem, s.tx.image, k);
    GoodFlashSlot(s.rx, k, s.mem);
  }

  /** A window that matches its CRC, on flash that accepts it and does not fail. */
  lemma GoodFlashSlot(rx: Rx.Rx, k: nat, mem: seq<byte>)
    requires Rx.Shape(rx) && k < 2 && rx.committed < MAX_WINDOWS
    requires var slot, offset := rx.slots[k], Rx.FlashOffset(rx, rx.slots[k]);
             && EraseAccepted(rx.config.port, |mem|, offset, WINDOW)
             && ProgramAccepted(rx.config.port, |mem|, offset, slot.winBytes)
             && (rx.config.stagingMax > 0 ==>
                   offset + slot.winBytes <= rx.config.stagingOffset + rx.config.stagingMax)
             && slot.winBytes <= WINDOW == |slot.buffer|
             && slot.expectedCrc == Crc32.Of(slot.buffer[..slot.winBytes])
    ensures Rx.FlashSlot(rx, k, mem, GOOD_FLASH).rx.committed == rx.committed + 1
  {
    hide Crc32.Of, ChunkCount, Program, Erase, Rx.Clobber, Rx.FlashFailed;
    var slot, offset := rx.slots[k], Rx.FlashOffset(rx, rx.slots[k]);
    ProgramErased(mem, offset, WINDOW, slot.buffer[..slot.winBytes]);
  }

  /** As long as the transfer is not complete something can happen. */
  lemma NotStuck(s: Link)
    requires Inv(s) && !Final(s)
    ensures Shapes(s) && exists e: Event :: Enabled(s, e)
  {
    hide Crc32.Of, WindowCount, ChunkCount, PortAccepts, Carrying, Tx.RoundCounted, Rx.SlotShape, Answers, FlashFails,
         Base;
    InvShapes(s);
    if s.fwd != [] { assert Enabled(s, RequestArrives); }
    else if s.bwd != [] { assert Enabled(s, ReplyArrives); }
    else if Sending(s.tx) { assert Enabled(s, SenderSteps); }
    else {
      assert s.tx.state == Tx.WaitReady;
      assert s.rx.committed < Held(s);
      assert s.rx.slots[s.rx.committed % 2].win == s.rx.committed;
      GoodFlashCommits(s);
      assert Enabled(s, FlashSteps(GOOD_FLASH));
    }
  }

  // ---- pacing ------------------------------------------------------------------------------------------

  /** The credit grants and images for which the sender never runs ahead of the two slots. A grant above
      0x8000 is negative as an int16 and lets the sender start one window at a time; 0x8000 itself wraps
      to the largest positive credit as soon as one is spent. */
  predicate Paced(config: Rx.Config, size: nat) {
    Rx.Credit(config) <= 2 || Rx.Credit(config) > 0x8000 || WindowCount(size) <= 2
  }

  /** Windows that may be sent and not known to be committed. */
  function Depth(credit: nat): nat { if credit > 0x8000 then 1 else if credit <= 2 then credit else 2 }

  ghost predicate Throttled(s: Link) {
    && Paced(s.rx.config, |s.tx.image|)
    && (Transferring(s.tx) ==>
          s.tx.sendWin + (if Active(s.tx) then 1 else 0) <= s.tx.commitWin + Depth(Rx.Credit(s.rx.config)))
  }

  lemma NotCrowded(s: Link)
    requires Inv(s)
    ensures !Crowded(s)
  {
    hide Base, Slots, Flow;
  }

  /** Told that its window is complete, a paced sender goes on only if the slot is free. */
  lemma AllInThrottled(s: Link)
    requires Inv(s) && Throttled(s) && Shapes(s) && s.bwd != [] && s.bwd[0].QueryResp? && Acknowledged(s)
    ensures Throttled(Next(s, ReplyArrives)) && !Crowded(Next(s, ReplyArrives))
  {
    hide Base, Slots, Flow, Next, WindowCount, Shapes;
    AllInOutcome(s);
    AnswerHead(s);
    CreditMoves(s, -1);
    CountedNow(s);
  }

  lemma CountedNow(s: Link)
    requires Inv(s)
    ensures Counting(s) && s.tx.totalWindows == WindowCount(|s.tx.image|) && s.rx.config.initialCredits < 0x1_0000
  {
    hide Slots, Flow, Counting;
    SenderCount(s);
  }

  lemma ReadyThrottled(s: Link)
    requires Inv(s) && Throttled(s) && Shapes(s) && s.bwd != [] && s.bwd[0].Ready?
    ensures Throttled(Next(s, ReplyArrives)) && !Crowded(Next(s, ReplyArrives))
  {
    hide Base, Slots, Flow, Next, WindowCount, Shapes, Inv;
    ReadyHead(s);
    CountedNow(s);
    StillToCommit(s);
    if s.tx.commitWin + 1 == s.tx.totalWindows {
      ReadyLastStep(s);
      LastReadyOutcome(s);
    } else if Active(s.tx) || s.tx.sendWin == s.tx.totalWindows {
      ReadyBusyOutcome(s);
    } else {
      ReadyWaitingOutcome(s);
    }
  }

  lemma LastReadyOutcome(s: Link)
    requires Inv(s) && Shapes(s) && s.bwd != [] && s.bwd[0].Ready? && s.tx.commitWin + 1 == s.tx.totalWindows
    ensures Next(s, ReplyArrives).tx.state == Tx.Finalizing && Next(s, ReplyArrives).tx.image == s.tx.image
    ensures Next(s, ReplyArrives).rx == s.rx
  {
    hide Base, Slots, Flow, Inv, Tx.SetupWindow, Tx.Int16;
    ReadyHead(s);
    SentNoMore(s);
  }

  lemma SentNoMore(s: Link)
    requires Inv(s)
    ensures s.tx.totalWindows <= MAX_WINDOWS
  {
    hide Slots, Flow, Counting;
    SenderCount(s);
  }

  lemma ReplyThrottled(s: Link)
    requires Inv(s) && Throttled(s) && Shapes(s) && s.bwd != []
    ensures Throttled(Next(s, ReplyArrives)) && !Crowded(Next(s, ReplyArrives))
  {
    hide Base, Slots, Rx.SlotShape, Tx.RoundCounted, Replies, Carrying, WindowCount, Counting, Tx.SetupWindow;
    if Transferring(s.tx) {
      OwedNow(s);
      var owed :| Replies(s.bwd, s.tx.commitWin, s.rx.committed, s.tx, owed);
      RepliesShapes(s.bwd, s.tx.commitWin, s.rx.committed, s.tx, owed, 0);
      if s.bwd[0].Ready? { ReadyThrottled(s); }
      else if Acknowledged(s) { AllInThrottled(s); }
      else {
        AnswerHead(s);
        NotCrowded(s);
      }
    } else if s.tx.state == Tx.Starting {
      SetupFields(s.tx.(credits := Tx.Int16(Rx.Credit(s.rx.config)), retries := 0));
    }
  }

  lemma StepThrottled(s: Link)
    requires Inv(s) && Throttled(s) && Shapes(s) && Sending(s.tx)
    ensures Throttled(Next(s, SenderSteps)) && !Crowded(Next(s, SenderSteps))
  {
    hide Inv, Shapes, Next, WindowCount, Tx.SendChunks, Tx.ResendChunks, Tx.DataPacket;
    NotCrowded(s);
    if s.tx.state == Tx.SendWindow {
      SendWindowOutcome(s);
    } else {
      RetransmitOutcome(s);
      RetransmitShape(s);
    }
  }

  /** A paced sender stays paced and never crowds the slots, so every event keeps the invariant. */
  lemma PacedNext(s: Link, e: Event)
    requires Inv(s) && Throttled(s) && Shapes(s) && Enabled(s, e)
    ensures Inv(Next(s, e)) && Throttled(Next(s, e)) && Below(Next(s, e), s)
    ensures Next(s, e).tx.image == s.tx.image && Next(s, e).rx.config == s.rx.config
  {
    hide Inv, Next, Below, FlashFails, Shapes, WindowCount;
    ImageKept(s, e);
    match e {
      case ReplyArrives => ReplyThrottled(s);
      case SenderSteps => StepThrottled(s);
      case RequestArrives => SameSender(s, e); RequestStep(s); NotCrowded(Next(s, e));
      case DataLost => SameSender(s, e); LossStep(s); NotCrowded(Next(s, e));
      case FlashSteps(plan) => SameSender(s, e); FlashStep(s, plan); NotCrowded(Next(s, e));
    }
    InvNext(s, e);
  }

  lemma SameSender(s: Link, e: Event)
    requires Shapes(s) && Enabled(s, e) && !e.SenderSteps? && !e.ReplyArrives?
    ensures Next(s, e).tx == s.tx
  {
    hide Rx.Process, Rx.StepFlash, Shapes, FlashFails;
  }

  // ---- whole runs ----------------------------------------------------------------------------------------

  ghost predicate Moves(s: Link, e: Event, s': Link) { Shapes(s) && Enabled(s, e) && s' == Next(s, e) }

  /** A schedule: whatever happens, something happens, until the transfer is complete. */
  ghost predicate Schedule(st: nat -> Link, ev: nat -> Event, image: seq<byte>) {
    Init(st(0), image) && forall n: nat :: Final(st(n)) || Moves(st(n), ev(n), st(n + 1))
  }

  /** From any good state a schedule, whatever the credits, either completes or crowds the slots. */
  lemma {:induction false} ReachesEnd(st: nat -> Link, ev: nat -> Event, image: seq<byte>, n: nat) returns (m: nat)
    requires Schedule(st, ev, image) && Inv(st(n))
    ensures n <= m && (forall k :: n <= k < m ==> Inv(st(k)) && !Final(st(k)))
    ensures Crowded(st(m)) || (Final(st(m)) && Inv(st(m)))
    decreases Phase(st(n)), Left(st(n).tx.totalWindows, st(n).tx.sendWin), Attempts(st(n)),
      Left(st(n).tx.totalWindows, st(n).tx.commitWin), Lacking(st(n)), if st(n).gained then 1 else 0, Stage(st(n)),
      ToSend(st(n).tx), |st(n).fwd| + |st(n).bwd|
  {
    hide Base, Counting, Slots, Flow, GainedMeansReceiving, Rx.SlotShape, Phase, Left, Attempts, Lacking, Stage,
         ToSend, Next, Final, Enabled, Shapes, Init, Crowded;
    if Final(st(n)) || Crowded(st(n)) {
      m := n;
    } else {
      assert Moves(st(n), ev(n), st(n + 1));
      if Crowded(st(n + 1)) {
        m := n + 1;
      } else {
        InvNext(st(n), ev(n));
        m := ReachesEnd(st, ev, image, n + 1);
      }
    }
  }

  lemma {:induction false} ScheduleInv(st: nat -> Link, ev: nat -> Event, image: seq<byte>, n: nat)
    requires Schedule(st, ev, image) && forall k: nat :: k < n ==> !Final(st(k))
    requires Paced(st(0).rx.config, |image|)
    ensures Inv(st(n)) && Throttled(st(n)) && st(n).tx.image == image && st(n).rx.config == st(0).rx.config
  {
    hide Inv, Next, Final, Enabled, Shapes, Below, WindowCount;
    if n == 0 {
      InitInv(st(0), image);
      InitThrottled(st(0), image);
    } else {
      ScheduleInv(st, ev, image, n - 1);
      assert Moves(st(n - 1), ev(n - 1), st(n));
      PacedNext(st(n - 1), ev(n - 1));
    }
  }

  lemma InitThrottled(s: Link, image: seq<byte>)
    requires Init(s, image) && Paced(s.rx.config, |image|)
    ensures Throttled(s) && s.tx.image == image
  {
    hide Crc32.Of, WindowCount, Rx.SlotShape, PortAccepts;
  }

  lemma ImageKept(s: Link, e: Event)
    requires Inv(s) && Shapes(s) && Enabled(s, e)
    ensures Next(s, e).tx.image == s.tx.image && Next(s, e).rx.config == s.rx.config
  {
    hide Crc32.Of, WindowCount, ChunkCount, WindowBytes, PortAccepts, Rx.SlotShape, Tx.RoundCounted, Flow, Slots,
         Counting, Tx.Step, Tx.Handle, Rx.Process, Rx.StepFlash, Safety.TxGood, Safety.RxGood, FlashFails;
    match e {
      case SenderSteps => Safety.StepGood(s.tx, false);
      case ReplyArrives => HandleKeepsImage(s.tx, s.bwd[0]);
      case RequestArrives =>
        Safety.ConfigKept(s.rx, s.fwd[0], FlashCrc(s.mem, s.rx.config.stagingOffset, s.rx.totalSize));
      case FlashSteps(plan) => Safety.FlashConfigKept(s.rx, s.mem, plan);
      case DataLost =>
    }
  }

  lemma HandleKeepsImage(tx: Tx.Tx, p: Reply)
    requires |tx.bitmap| == BITMAP_BITS && (p.QueryResp? ==> |p.bitmap| <= BITMAP_BITS)
    ensures Tx.Handle(tx, p).tx.image == tx.image
  {
    hide Crc32.Of, ChunkCount, WindowBytes, Tx.Int16;
  }

  /** Every schedule completes: after finitely many events both machines are in COMPLETE and the
      staged range of the flash holds the image. */
  lemma EveryScheduleCompletes(st: nat -> Link, ev: nat -> Event, image: seq<byte>)
    requires Schedule(st, ev, image) && Paced(st(0).rx.config, |image|)
    ensures Completes(st, image)
  {
    hide Inv, Init, Next, Delivered, Final, Enabled, Shapes, Crowded, WindowCount;
    InitInv(st(0), image);
    var m := ReachesEnd(st, ev, image, 0);
    ScheduleInv(st, ev, image, m);
    NotCrowded(st(m));
    FinalDelivered(st(m));
  }

  ghost predicate Completes(st: nat -> Link, image: seq<byte>) {
    exists n: nat :: Delivered(st(n), image, st(0).rx.config.stagingOffset)
  }

  ghost predicate Delivered(s: Link, image: seq<byte>, offset: nat) {
    && s.tx.state == Tx.Complete && s.rx.state == Rx.Complete
    && offset + |image| <= |s.mem| && s.mem[offset..offset + |image|] == image
  }

  lemma FinalDelivered(s: Link)
    requires Inv(s) && Final(s)
    ensures Delivered(s, s.tx.image, s.rx.config.stagingOffset)
  {
    hide Crc32.Of, WindowCount, ChunkCount, PortAccepts, Flow, Slots, Counting, Safety.PrefixStaged, Safety.SlotGood;
    Safety.WholeImageStaged(s.rx, s.mem, s.tx.image);
  }

  /** A finite run. */
  ghost predicate Run(states: seq<Link>, events: seq<Event>, image: seq<byte>) {
    && |states| == |events| + 1
    && Init(states[0], image)
    && forall i :: 0 <= i < |events| ==> Moves(states[i], events[i], states[i + 1])
  }

  lemma {:induction false} RunInv(states: seq<Link>, events: seq<Event>, image: seq<byte>, i: nat)
    requires Run(states, events, image) && i < |states| && Paced(states[0].rx.config, |image|)
    ensures Inv(states[i]) && Throttled(states[i])
    ensures states[i].tx.image == image && states[i].rx.config == states[0].rx.config
  {
    hide Inv, Next, Enabled, Shapes, Below, Init, WindowCount;
    if i == 0 {
      InitInv(states[0], image);
      InitThrottled(states[0], image);
    } else {
      RunInv(states, events, image, i - 1);
      assert Moves(states[i - 1], events[i - 1], states[i]);
      PacedNext(states[i - 1], events[i - 1]);
    }
  }

  lemma Longer(states: seq<Link>, events: seq<Event>, image: seq<byte>, e: Event)
    requires Run(states, events, image) && Shapes(states[|events|]) && Enabled(states[|events|], e)
    ensures Run(states + [Next(states[|events|], e)], events + [e], image)
  {
    hide Next, Enabled, Shapes, Init;
    var states', events' := states + [Next(states[|events|], e)], events + [e];
    forall i | 0 <= i < |events'| ensures Moves(states'[i], events'[i], states'[i + 1]) {
      if i < |events| { assert Moves(states[i], events[i], states[i + 1]); }
    }
  }

  /** Every run can be continued until it is complete. */
  lemma RunContinues(states: seq<Link>, events: seq<Event>, image: seq<byte>)
    requires Run(states, events, image) && !Final(states[|states| - 1]) && Paced(states[0].rx.config, |image|)
    ensures exists e: Event, s': Link :: Run(states + [s'], events + [e], image)
  {
    hide Inv, Next, Enabled, Shapes, Init, Final, WindowCount;
    RunInv(states, events, image, |events|);
    NotStuck(states[|states| - 1]);
    var e: Event :| Enabled(states[|states| - 1], e);
    Longer(states, events, image, e);
  }

  /** Every run can be finished. */
  lemma {:induction false} RunFinishes(states: seq<Link>, events: seq<Event>, image: seq<byte>)
    returns (states': seq<Link>, events': seq<Event>)
    requires Run(states, events, image) && Paced(states[0].rx.config, |image|)
    requires Inv(states[|events|]) && Throttled(states[|events|])
    ensures states <= states' && events <= events' && Run(states', events', image) && Final(states'[|events'|])
    decreases Phase(states[|events|]), Left(states[|events|].tx.totalWindows, states[|events|].tx.sendWin),
      Attempts(states[|events|]), Left(states[|events|].tx.totalWindows, states[|events|].tx.commitWin),
      Lacking(states[|events|]), if states[|events|].gained then 1 else 0, Stage(states[|events|]),
      ToSend(states[|events|].tx), |states[|events|].fwd| + |states[|events|].bwd|
  {
    hide Base, Counting, Slots, Flow, GainedMeansReceiving, Rx.SlotShape, Phase, Left, Attempts, Lacking, Stage,
         ToSend, Next, Final, Enabled, Shapes, Init, Throttled, Paced;
    var s := states[|events|];
    if Final(s) {
      states', events' := states, events;
    } else {
      NotStuck(s);
      var e: Event :| Enabled(s, e);
      PacedNext(s, e);
      Longer(states, events, image, e);
      states', events' := RunFinishes(states + [Next(s, e)], events + [e], image);
    }
  }

  /** Credit conservation: credits, plus windows sent, less windows known to be committed, is the
      initial credit at every moment; credits go negative only if the grant exceeds an int16. */
  lemma CreditsConserved(states: seq<Link>, events: seq<Event>, image: seq<byte>, i: nat)
    requires Run(states, events, image) && i < |states| && Transferring(states[i].tx)
    requires Paced(states[0].rx.config, |image|)
    ensures var tx, grant := states[i].tx, Rx.Credit(states[0].rx.config);
            && tx.commitWin <= tx.sendWin <= tx.commitWin + Depth(grant) <= tx.commitWin + 2
            && tx.credits == Tx.Int16(grant - (tx.sendWin - tx.commitWin))
            && (grant < 0x8000 ==> tx.credits + tx.sendWin - tx.commitWin == grant && 0 <= tx.credits)
            && (grant >= 0x8000 && tx.sendWin == tx.commitWin ==> tx.credits == grant - 0x1_0000 < 0)
  {
    hide Base, Flow, Slots, Init, WindowCount;
    RunInv(states, events, image, i);
    CountedNow(states[i]);
  }

  /** Double buffering is safe: no DATA packet ever finds its slot holding another window. */
  lemma NoDataDropped(states: seq<Link>, events: seq<Event>, image: seq<byte>, i: nat)
    requires Run(states, events, image) && i < |states| && states[i].fwd != [] && states[i].fwd[0].Data?
    requires Paced(states[0].rx.config, |image|)
    ensures var rx, p := states[i].rx, states[i].fwd[0];
            && Rx.Shape(rx) && Rx.OnData(rx, p).result
            && (rx.slots[p.win % 2].state == Rx.Free || rx.slots[p.win % 2].win == p.win)
            && Rx.OnData(rx, p).rx.slots[p.win % 2].win == p.win
  {
    hide Inv, Init, Rx.OnData, WindowCount;
    RunInv(states, events, image, i);
    HeadData(states[i]);
    DataTaken(states[i]);
  }

  // ---- the reply queue is short ----------------------------------------------------------------------------

  lemma {:induction false} RepliesLength(q: seq<Reply>, next: nat, committed: nat, tx: Tx.Tx, owed: Expect)
    requires Replies(q, next, committed, tx, owed)
    ensures next <= committed && |q| == committed - next + (if owed == Nothing then 0 else 1)
    decreases |q|
  {
    hide Safety.ReplyGood;
    if q != [] {
      if q[0].Ready? { RepliesLength(q[1..], next + 1, committed, tx, owed); }
      else { RepliesLength(q[1..], next, committed, tx, Nothing); }
    }
  }

  /** Never more than three replies are under way, so the queue between the cores, which takes 31,
      never refuses one. */
  lemma RepliesFew(states: seq<Link>, events: seq<Event>, image: seq<byte>, i: nat)
    requires Run(states, events, image) && i < |states| && Paced(states[0].rx.config, |image|)
    ensures |states[i].bwd| <= 3 < Queue.SIZE - 1
  {
    hide Base, Slots, Init, WindowCount, Replies, Carrying, Tx.RoundCounted;
    RunInv(states, events, image, i);
    var s := states[i];
    if Transferring(s.tx) {
      OwedNow(s);
      var owed :| Replies(s.bwd, s.tx.commitWin, s.rx.committed, s.tx, owed);
      RepliesLength(s.bwd, s.tx.commitWin, s.rx.committed, s.tx, owed);
      CountedNow(s);
    }
  }
}
