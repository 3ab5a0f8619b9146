/** For which credit grants the transfer works at all: exactly those that keep the sender from running
    ahead of the two slots. For every other grant a run is built that starves. */
module OtaCredit {
  import opened Bytes
  import opened OtaProtocol
  import opened FlashMemory
  import Crc32
  import Rx = OtaReceiver
  import Tx = OtaSender
  import Safety = OtaSafety
  import opened OtaLink

  /** Slot w % 2 belongs to window w. */
  predicate Holds(rx: Rx.Rx, w: nat)
    requires |rx.slots| == 2
  {
    rx.slots[w % 2].state != Rx.Free && rx.slots[w % 2].win == w
  }

  /** The schedule that starves flash: requests first, then replies, then the sender. */
  function Greedy(s: Link): Event {
    if s.fwd != [] then RequestArrives else if s.bwd != [] then ReplyArrives else SenderSteps
  }

  ghost predicate AllData(q: seq<Request>) { forall i :: 0 <= i < |q| ==> q[i].Data? }

  ghost predicate HonestQueue(s: Link)
    requires Addressable(s.tx.image)
  {
    forall i :: 0 <= i < |s.fwd| ==> Honest(s.tx.image, s.tx.imageCrc, s.fwd[i]) && Rx.WellFormed(s.fwd[i])
  }

  /** At most one reply is under way, the answer to the query; "nothing missing" comes only from a slot
      that belongs to the window. */
  ghost predicate Answering(s: Link)
    requires |s.rx.slots| == 2
  {
    && s.fwd == [] && |s.bwd| == 1 && s.bwd[0].QueryResp? && s.bwd[0].win == s.tx.sendWin
    && Safety.ReplyGood(s.bwd[0], s.tx.image) && (s.bwd[0].missing == 0 ==> Holds(s.rx, s.tx.sendWin))
  }

  ghost predicate Talking(s: Link)
    requires |s.rx.slots| == 2 && Addressable(s.tx.image)
  {
    match s.tx.state
    case Starting =>
      || (s.fwd == [Tx.StartPacket(s.tx)] && s.bwd == [] && s.rx.state == Rx.Idle)
      || (s.fwd == [] && s.bwd == [StartAck(Ok, Rx.Credit(s.rx.config))] && s.rx.state == Rx.Transfer)
    case SendWindow => s.rx.state == Rx.Transfer && s.bwd == [] && HonestQueue(s) && AllData(s.fwd)
    case Retransmit => s.rx.state == Rx.Transfer && s.bwd == [] && HonestQueue(s) && AllData(s.fwd)
    case Querying =>
      && s.rx.state == Rx.Transfer
      && (|| Answering(s)
          || (&& s.fwd != [] && s.bwd == [] && HonestQueue(s) && AllData(s.fwd[..|s.fwd| - 1])
              && s.fwd[|s.fwd| - 1] == Tx.QueryPacket(s.tx)))
    case _ => false
  }

  /** Nothing is ever flashed: the sender is at most at window 2, for which slot 0 is never free. */
  ghost predicate Starved(s: Link) {
    && Base(s) && Rx.Shape(s.rx)
    && 3 <= Rx.Credit(s.rx.config) <= 0x8000 && s.tx.totalWindows >= 3
    && s.rx.committed == 0
    && Talking(s)
    && s.tx.sendWin <= 2 && (s.tx.sendWin >= 1 ==> Holds(s.rx, 0))
    && (s.tx.state == Tx.Starting ==> s.tx.sendWin == 0)
    && (s.tx.state != Tx.Starting ==> s.tx.credits == Tx.Int16(Rx.Credit(s.rx.config) - s.tx.sendWin))
  }

  lemma StarvedShapes(s: Link)
    requires Starved(s)
    ensures Shapes(s) && Enabled(s, Greedy(s)) && !Final(s)
  {
    hide Crc32.Of, WindowCount, ChunkCount, WindowBytes, PortAccepts, Safety.RxGood, Rx.SlotShape;
    forall i | 0 <= i < |s.fwd| ensures Rx.WellFormed(s.fwd[i]) {}
  }

  // ---- the sender ---------------------------------------------------------------------------------------

  lemma {:induction false} ChunksAreData(tx: Tx.Tx, n: nat)
    ensures AllData(Tx.SendChunks(tx, n).1)
    decreases n
  {
    if n > 0 && tx.chunk < tx.total { ChunksAreData(tx.(chunk := tx.chunk + 1), n - 1); }
  }

  lemma {:induction false} ResentAreData(tx: Tx.Tx, n: nat)
    requires |tx.bitmap| == BITMAP_BITS && tx.total <= BITMAP_BITS
    ensures AllData(Tx.ResendChunks(tx, n).1)
    decreases n
  {
    if n > 0 && tx.remaining > 0 {
      var c := NextMissing(tx.bitmap, tx.nextChunk, tx.total);
      if c < tx.total {
        ResentAreData(tx.(bitmap := tx.bitmap[c := true], nextChunk := c + 1, remaining := tx.remaining - 1), n - 1);
      }
    }
  }

  /** A batch is DATA, followed by the query when it is the last. */
  lemma BatchShape(tx: Tx.Tx)
    requires Safety.TxGood(tx) && Sending(tx)
    ensures var o := Tx.Step(tx, false);
            && Safety.TxGood(o.tx) && Safety.AllHonest(tx, o.sent) && o.tx.imageCrc == tx.imageCrc
            && o.tx == tx.(state := o.tx.state, chunk := o.tx.chunk, retries := o.tx.retries, bitmap := o.tx.bitmap,
                           nextChunk := o.tx.nextChunk, remaining := o.tx.remaining)
            && ((o.tx.state == tx.state && AllData(o.sent))
                || (o.tx.state == Tx.Querying && o.sent != [] && AllData(o.sent[..|o.sent| - 1])
                    && o.sent[|o.sent| - 1] == Tx.QueryPacket(o.tx)))
  {
    hide Crc32.Of, WindowCount, ChunkCount, WindowBytes, Tx.SendChunks, Tx.ResendChunks, Honest, Tx.DataPacket,
         Safety.TxGood;
    TxShape(tx);
    Safety.StepGood(tx, false);
    if tx.state == Tx.SendWindow {
      ChunksAreData(tx, Tx.BATCH);
      Safety.SendChunksHonest(tx, Tx.BATCH);
      var (tx1, sent) := Tx.SendChunks(tx, Tx.BATCH);
      assert (sent + [Tx.QueryPacket(tx1)])[..|sent|] == sent;
    } else {
      ResentAreData(tx, Tx.BATCH);
      Safety.ResendChunksHonest(tx, Tx.BATCH);
      var (tx1, sent) := Tx.ResendChunks(tx, Tx.BATCH);
      assert (sent + [Tx.QueryPacket(tx1)])[..|sent|] == sent;
    }
  }

  lemma TxShape(tx: Tx.Tx)
    requires Safety.TxGood(tx)
    ensures Tx.Shape(tx) && tx.imageCrc == Crc32.Of(tx.image)
  {
    hide Crc32.Of, WindowCount, ChunkCount, WindowBytes;
  }

  lemma SenderStarves(s: Link)
    requires Starved(s) && Shapes(s) && s.fwd == [] && s.bwd == [] && Sending(s.tx)
    ensures Starved(Next(s, SenderSteps))
  {
    hide Crc32.Of, WindowCount, ChunkCount, WindowBytes, PortAccepts, Safety.RxGood, Safety.TxGood, Rx.SlotShape,
         Tx.Step, Honest, Tx.Int16, Holds, HonestQueue;
    BatchShape(s.tx);
    var o := Tx.Step(s.tx, false);
    assert [] + o.sent == o.sent;
    var s' := s.(tx := o.tx, fwd := o.sent);
    assert Next(s, SenderSteps) == s';
    BatchHonest(s, s');
  }

  lemma BatchHonest(s: Link, s': Link)
    requires Addressable(s.tx.image) && Addressable(s'.tx.image) && s'.tx.image == s.tx.image
    requires s'.tx.imageCrc == s.tx.imageCrc && Safety.AllHonest(s.tx, s'.fwd)
    ensures HonestQueue(s')
  {
    hide Honest;
  }

  // ---- the receiver ---------------------------------------------------------------------------------------

  lemma DataKeepsHold(rx: Rx.Rx, mem: seq<byte>, image: seq<byte>, p: Request)
    requires Addressable(image) && Safety.RxGood(rx, mem, image) && p.Data? && rx.state == Rx.Transfer
    ensures Rx.Shape(rx)
    ensures var o := Rx.OnData(rx, p);
            && o.rx == rx.(slots := o.rx.slots) && |o.rx.slots| == 2 && o.replies == []
            && forall w: nat :: Holds(rx, w) ==> Holds(o.rx, w)
  {
    hide Crc32.Of, WindowCount, ChunkCount, WindowBytes, Safety.Filled, Safety.PrefixStaged;
    Safety.SlotsAgree(rx, mem, image, p.win % 2);
  }

  lemma DataStarves(s: Link)
    requires Starved(s) && Shapes(s) && s.fwd != [] && s.fwd[0].Data?
    ensures Starved(Next(s, RequestArrives))
  {
    hide Crc32.Of, WindowCount, ChunkCount, WindowBytes, PortAccepts, Safety.RxGood, Safety.TxGood, Rx.SlotShape,
         Honest, Rx.OnData, Holds, FreshData;
    TxShape(s.tx);
    HeadHonest(s);
    Safety.OnDataGood(s.rx, s.mem, s.tx.image, s.fwd[0]);
    DataKeepsHold(s.rx, s.mem, s.tx.image, s.fwd[0]);
    Rx.ProcessKeepsShape(s.rx, s.fwd[0], FlashCrc(s.mem, s.rx.config.stagingOffset, s.rx.totalSize));
    var s' := Next(s, RequestArrives);
    assert s'.bwd == s.bwd + [] == s.bwd;
    if s.tx.state == Tx.Querying {
      assert s'.fwd[..|s'.fwd| - 1] == s.fwd[..|s.fwd| - 1][1..];
    }
  }

  lemma HeadHonest(s: Link)
    requires Starved(s) && s.fwd != [] && !s.fwd[0].Start?
    ensures Honest(s.tx.image, s.tx.imageCrc, s.fwd[0]) && Rx.WellFormed(s.fwd[0]) && s.rx.state == Rx.Transfer
    ensures s.bwd == [] && HonestQueue(s)
    ensures !s.fwd[0].Data? ==> s.fwd == [Tx.QueryPacket(s.tx)] && s.tx.state == Tx.Querying
  {
    hide Crc32.Of, WindowCount, ChunkCount, WindowBytes, PortAccepts, Safety.RxGood, Safety.TxGood, Rx.SlotShape,
         Honest;
    assert |s.fwd| > 1 ==> s.fwd[..|s.fwd| - 1][0] == s.fwd[0];
    if !s.fwd[0].Data? { assert s.fwd == [s.fwd[0]]; }
  }

  /** "Nothing missing" is answered only by a slot that belongs to the window asked about. */
  lemma AnswerFromSlot(rx: Rx.Rx, mem: seq<byte>, image: seq<byte>, p: Request)
    requires Addressable(image) && Safety.RxGood(rx, mem, image) && p.Query? && rx.state == Rx.Transfer
    requires Honest(image, Crc32.Of(image), p) && Rx.WellFormed(p)
    ensures Rx.Shape(rx)
    ensures var o := Rx.OnQuery(rx, p);
            && o.rx == rx.(slots := o.rx.slots) && |o.rx.slots| == 2
            && |o.replies| == 1 && o.replies[0].QueryResp? && o.replies[0].win == p.win
            && (o.replies[0].missing == 0 ==> Holds(o.rx, p.win))
            && (forall w: nat :: Holds(rx, w) ==> Holds(o.rx, w))
            && Safety.RxGood(o.rx, mem, image) && Safety.ReplyGood(o.replies[0], image)
  {
    hide Crc32.Of, WindowCount, ChunkCount, WindowBytes, Safety.RxGood, Safety.ReplyGood, Rx.SlotShape;
    Safety.OnQueryGood(rx, mem, image, p);
    WindowFacts(|image|, p.win);
    Safety.GoodShape(rx, mem, image);
    var o := Rx.OnQuery(rx, p);
    assert o.replies[0] in o.replies;
  }

  lemma QueryStarves(s: Link)
    requires Starved(s) && Shapes(s) && s.fwd != [] && s.fwd[0].Query?
    ensures Starved(Next(s, RequestArrives))
  {
    hide Crc32.Of, WindowCount, ChunkCount, WindowBytes, PortAccepts, Safety.RxGood, Safety.TxGood, Rx.SlotShape,
         Honest, Rx.OnQuery, Holds, FreshData, Safety.ReplyGood;
    TxShape(s.tx);
    HeadHonest(s);
    AnswerFromSlot(s.rx, s.mem, s.tx.image, s.fwd[0]);
    Rx.ProcessKeepsShape(s.rx, s.fwd[0], FlashCrc(s.mem, s.rx.config.stagingOffset, s.rx.totalSize));
    QueryWindow(s.tx);
    var s' := Next(s, RequestArrives);
    assert s'.bwd == Rx.OnQuery(s.rx, s.fwd[0]).replies;
  }

  lemma QueryWindow(tx: Tx.Tx)
    requires tx.sendWin <= 2
    ensures Tx.QueryPacket(tx).win == tx.sendWin
  {
  }

  lemma StartStarves(s: Link)
    requires Starved(s) && Shapes(s) && s.fwd != [] && s.fwd[0].Start?
    ensures Starved(Next(s, RequestArrives))
  {
    hide Crc32.Of, WindowCount, ChunkCount, WindowBytes, Safety.TxGood, Safety.RxGood, Rx.SlotShape, FreshData,
         PortAccepts;
    assert s.tx.state == Tx.Starting by { StartOnlyFirst(s); }
    TxShape(s.tx);
    SenderCount(s);
    Safety.OnStartGood(s.rx, s.mem, s.tx.image, s.fwd[0]);
    StartAccepted(s);
  }

  lemma StartOnlyFirst(s: Link)
    requires Starved(s) && s.fwd != []
    ensures s.fwd[0].Start? ==> s.tx.state == Tx.Starting
  {
    hide Crc32.Of, WindowCount, ChunkCount, WindowBytes, PortAccepts, Safety.RxGood, Safety.TxGood, Rx.SlotShape,
         Honest;
    assert |s.fwd| > 1 ==> s.fwd[..|s.fwd| - 1][0] == s.fwd[0];
  }

  // ---- replies ------------------------------------------------------------------------------------------

  lemma ReplyStarves(s: Link)
    requires Starved(s) && Shapes(s) && s.fwd == [] && s.bwd != []
    ensures Starved(Next(s, ReplyArrives))
  {
    hide Crc32.Of, WindowCount, ChunkCount, WindowBytes, PortAccepts, Safety.TxGood, Safety.RxGood, Rx.SlotShape,
         Safety.ReplyGood, Tx.Handle, Holds, Tx.Int16;
    SenderCount(s);
    SingleReply(s);
    var s' := Next(s, ReplyArrives);
    Safety.HandleGood(s.tx, s.bwd[0]);
    if s.bwd[0].StartAck? { StartAckHandled(s); }
    else if s.bwd[0].missing > 0 { MissingHandled(s); }
    else { AllInHandled(s); }
    assert s'.bwd == [];
    assert s'.fwd == [];
  }

  lemma StartAckHandled(s: Link)
    requires Starved(s) && Shapes(s) && s.fwd == [] && s.bwd != [] && s.bwd[0].StartAck?
    ensures var o := Tx.Handle(s.tx, s.bwd[0]);
            && o.sent == [] && o.tx.state == Tx.SendWindow && o.tx.sendWin == 0
            && o.tx.credits == Tx.Int16(Rx.Credit(s.rx.config)) && o.tx.totalWindows == s.tx.totalWindows
  {
    hide Base, Rx.SlotShape, Tx.SetupWindow, Tx.Int16, Shapes;
    SetupFields(s.tx.(credits := Tx.Int16(Rx.Credit(s.rx.config)), retries := 0));
  }

  lemma MissingHandled(s: Link)
    requires Starved(s) && Shapes(s) && s.fwd == [] && s.bwd != [] && s.bwd[0].QueryResp? && s.bwd[0].missing > 0
    ensures var o := Tx.Handle(s.tx, s.bwd[0]);
            && o.sent == [] && o.tx.state == Tx.Retransmit && o.tx.sendWin == s.tx.sendWin
            && o.tx.credits == s.tx.credits && o.tx.totalWindows == s.tx.totalWindows
  {
    hide Base, Rx.SlotShape, Tx.SetupWindow, Tx.Int16, Shapes, Holds;
    ShapesOf(s);
  }

  lemma ShapesOf(s: Link)
    requires Shapes(s) && s.bwd != [] && s.bwd[0].QueryResp?
    ensures |s.tx.bitmap| == BITMAP_BITS && |s.bwd[0].bitmap| <= BITMAP_BITS
  {
  }

  /** "Nothing missing" is heard for windows 0 and 1 only, and with credits left. */
  lemma AllInHandled(s: Link)
    requires Starved(s) && Shapes(s) && s.fwd == [] && s.bwd != [] && s.bwd[0].QueryResp? && s.bwd[0].missing == 0
    ensures var o := Tx.Handle(s.tx, s.bwd[0]);
            && o.sent == [] && o.tx.state == Tx.SendWindow && o.tx.sendWin == s.tx.sendWin + 1 <= 2
            && o.tx.credits == Tx.Int16(Rx.Credit(s.rx.config) - o.tx.sendWin) && o.tx.totalWindows == s.tx.totalWindows
            && Holds(s.rx, 0)
  {
    hide Base, Rx.SlotShape, Tx.SetupWindow, Shapes;
    ShapesOf(s);
    SetupFields(s.tx.(credits := Tx.Int16(s.tx.credits - 1), sendWin := s.tx.sendWin + 1, retries := 0));
  }

  lemma SingleReply(s: Link)
    requires Starved(s) && s.fwd == [] && s.bwd != []
    ensures |s.bwd| == 1 && Safety.ReplyGood(s.bwd[0], s.tx.image) && (s.bwd[0].StartAck? || s.bwd[0].QueryResp?)
  {
    hide Crc32.Of, WindowCount, ChunkCount, WindowBytes, PortAccepts, Safety.TxGood, Safety.RxGood, Rx.SlotShape;
  }

  lemma StarvedNext(s: Link)
    requires Starved(s)
    ensures Shapes(s) && Enabled(s, Greedy(s)) && Starved(Next(s, Greedy(s))) && !Final(s)
  {
    hide Base, Rx.SlotShape, Next, Shapes, Enabled, Holds, HonestQueue;
    StarvedShapes(s);
    if s.fwd != [] {
      if s.fwd[0].Start? { StartStarves(s); }
      else {
        HeadHonest(s);
        if s.fwd[0].Data? { DataStarves(s); } else { QueryStarves(s); }
      }
    } else if s.bwd != [] {
      ReplyStarves(s);
    } else {
      SenderStarves(s);
    }
  }

  lemma InitStarved(s: Link, image: seq<byte>)
    requires Init(s, image) && !Paced(s.rx.config, |image|)
    ensures Starved(s) && Inv(s)
  {
    hide Crc32.Of, WindowCount, ChunkCount, Rx.SlotShape, PortAccepts, Inv;
    InitInv(s, image);
    WindowCountFacts(|image|);
  }

  // ---- the schedule ----------------------------------------------------------------------------------------

  ghost function After(s: Link, n: nat): (r: Link)
    requires Starved(s)
    ensures Starved(r)
  {
    if n == 0 then s
    else
      StarvedNext(After(s, n - 1));
      Next(After(s, n - 1), Greedy(After(s, n - 1)))
  }

  lemma AfterMoves(s: Link, n: nat)
    requires Starved(s)
    ensures Moves(After(s, n), Greedy(After(s, n)), After(s, n + 1)) && !Final(After(s, n))
  {
    StarvedNext(After(s, n));
  }

  ghost predicate Starts(s: Link, st: nat -> Link, ev: nat -> Event, image: seq<byte>) {
    st(0) == s && Schedule(st, ev, image)
  }

  /** Not paced: there is a schedule, no packet lost, on which the transfer never completes. */
  lemma StarvesForever(s: Link, image: seq<byte>) returns (st: nat -> Link, ev: nat -> Event)
    requires Init(s, image) && !Paced(s.rx.config, |image|)
    ensures Starts(s, st, ev, image) && !Completes(st, image)
    ensures Starved(s) && forall n: nat :: st(n) == After(s, n) && ev(n) == Greedy(st(n))
  {
    hide Init, Starved, Final, Moves, WindowCount, Next, Greedy, Delivered, After;
    InitStarved(s, image);
    AfterStart(s);
    st, ev := (n: nat) => After(s, n), (n: nat) => Greedy(After(s, n));
    forall n: nat ensures Moves(st(n), ev(n), st(n + 1)) && !Final(st(n)) { AfterMoves(s, n); }
    if Completes(st, image) {
      var n: nat :| Delivered(st(n), image, st(0).rx.config.stagingOffset);
      DeliveredFinal(st(n), image, st(0).rx.config.stagingOffset);
    }
  }

  lemma AfterStart(s: Link)
    requires Starved(s)
    ensures After(s, 0) == s
  {
  }

  lemma DeliveredFinal(s: Link, image: seq<byte>, offset: nat)
    requires Delivered(s, image, offset)
    ensures Final(s)
  {
  }

  /** Termination, exactly: every schedule from a start state completes if and only if the credits
      granted keep the sender from running ahead of the two slots. */
  lemma CompletesIff(s: Link, image: seq<byte>)
    requires Init(s, image)
    ensures (forall st, ev :: Starts(s, st, ev, image) ==> Completes(st, image)) <==> Paced(s.rx.config, |image|)
  {
    hide Init, Schedule, Completes, WindowCount, Paced;
    if Paced(s.rx.config, |image|) {
      forall st, ev | Starts(s, st, ev, image) ensures Completes(st, image) { EveryScheduleCompletes(st, ev, image); }
    } else {
      var st, ev := StarvesForever(s, image);
    }
  }

  // ---- the dropped packet -----------------------------------------------------------------------------------

  /** The receiver takes the DATA packet at the head of the queue: its slot is free or its own. */
  ghost predicate HeadTaken(s: Link) {
    s.fwd != [] && s.fwd[0].Data? ==> Rx.Shape(s.rx) && Rx.OnData(s.rx, s.fwd[0]).result
  }

  ghost predicate AllTaken(s: Link, image: seq<byte>) {
    forall states, events, i :: Run(states, events, image) && states[0] == s && 0 <= i < |states|
      ==> HeadTaken(states[i])
  }

  /** Slots get crowded only when the sender moves on to a window. */
  lemma CrowdedHow(s: Link, e: Event)
    requires Starved(s) && Inv(s) && Shapes(s) && e == Greedy(s) && Enabled(s, e) && Crowded(Next(s, e))
    ensures var t := Next(s, e);
            t.tx.state == Tx.SendWindow && t.tx.sendWin == 2 && t.tx.chunk == 0 && t.fwd == [] && t.bwd == []
  {
    hide Inv, Next, Base, WindowCount, ChunkCount, WindowBytes, Rx.SlotShape, Crc32.Of, FlashFails;
    match e {
      case RequestArrives => RequestStep(s); NotCrowded(Next(s, e));
      case SenderSteps =>
        if s.tx.state == Tx.SendWindow { SendWindowStep(s); } else { RetransmitStep(s); }
        NotCrowded(Next(s, e));
      case ReplyArrives =>
        SingleReply(s);
        StarvedNext(s);
        if s.bwd[0].StartAck? {
          StartAckStep(s);
          NotCrowded(Next(s, e));
        } else if Acknowledged(s) {
          AllInOutcome(s);
        } else {
          MissingStep(s);
          NotCrowded(Next(s, e));
        }
      case _ =>
    }
  }

  lemma FirstBatch(s: Link)
    requires Starved(s) && Shapes(s) && s.tx.state == Tx.SendWindow && s.tx.sendWin == 2 && s.tx.chunk == 0
             && s.fwd == [] && s.bwd == []
    ensures var t := Next(s, SenderSteps);
            Starved(t) && t.fwd != [] && t.fwd[0].Data? && t.fwd[0].win == 2 && t.tx.sendWin == 2
  {
    hide Crc32.Of, WindowCount, ChunkCount, WindowBytes, PortAccepts, Safety.RxGood, Rx.SlotShape, Honest,
         Tx.DataPacket, Tx.SendChunks;
    SenderStarves(s);
    WindowFacts(|s.tx.image|, 2);
    Tx.SendChunksExact(s.tx, Tx.BATCH);
    DataWindow(s.tx);
  }

  lemma DataWindow(tx: Tx.Tx)
    requires tx.sendWin == 2
    ensures Tx.DataPacket(tx, 0).Data? && Tx.DataPacket(tx, 0).win == 2
  {
  }

  lemma Refused(s: Link)
    requires Starved(s) && s.fwd != [] && s.fwd[0].Data? && s.fwd[0].win == 2 && s.tx.sendWin == 2
    ensures !HeadTaken(s)
  {
    hide Crc32.Of, WindowCount, ChunkCount, WindowBytes, PortAccepts, Safety.TxGood, Safety.Filled,
         Safety.PrefixStaged, Honest;
    TxShape(s.tx);
    HeadHonest(s);
    Safety.SlotsAgree(s.rx, s.mem, s.tx.image, 0);
  }

  /** The first n events of the starving schedule, as a run. */
  lemma GreedyRun(s: Link, image: seq<byte>, n: nat) returns (states: seq<Link>, events: seq<Event>)
    requires Init(s, image) && Starved(s)
    ensures Run(states, events, image) && |events| == n && states[0] == s && states[n] == After(s, n)
  {
    hide Init, Starved, Moves, Next, Greedy, After;
    AfterStart(s);
    states, events := seq(n + 1, i requires 0 <= i => After(s, i)), seq(n, i requires 0 <= i => Greedy(After(s, i)));
    forall i | 0 <= i < n ensures Moves(states[i], events[i], states[i + 1]) { AfterMoves(s, i); }
  }

  /** Not paced: on that schedule a DATA packet of window 2 finds its slot still holding window 0. */
  lemma DropsData(s: Link, image: seq<byte>) returns (states: seq<Link>, events: seq<Event>)
    requires Init(s, image) && !Paced(s.rx.config, |image|)
    ensures Run(states, events, image) && states[0] == s && !HeadTaken(states[|events|])
  {
    hide Init, Starved, Final, Inv, Schedule, Crowded, HeadTaken, Next, Shapes, Enabled, WindowCount;
    InitStarved(s, image);
    var st, ev := StarvesForever(s, image);
    ScheduleStart(s, st, ev, image);
    var m := ReachesEnd(st, ev, image, 0);
    AfterMoves(s, m);
    assert Crowded(st(m));
    NotCrowded(s);
    AfterMoves(s, m - 1);
    CrowdedHow(st(m - 1), ev(m - 1));
    AfterMoves(s, m);
    FirstBatch(st(m));
    Refused(After(s, m + 1));
    states, events := GreedyRun(s, image, m + 1);
  }

  lemma ScheduleStart(s: Link, st: nat -> Link, ev: nat -> Event, image: seq<byte>)
    requires Starts(s, st, ev, image)
    ensures Schedule(st, ev, image) && st(0) == s
  {
  }

  /** Double buffering, exactly: no DATA packet is dropped in any run from a start state if and only if
      the credits granted keep the sender from running ahead of the two slots. */
  lemma AllTakenIff(s: Link, image: seq<byte>)
    requires Init(s, image)
    ensures AllTaken(s, image) <==> Paced(s.rx.config, |image|)
  {
    hide Init, Paced, Moves, HeadTaken;
    if Paced(s.rx.config, |image|) {
      forall states, events, i | Run(states, events, image) && states[0] == s && 0 <= i < |states|
        ensures HeadTaken(states[i])
      {
        TakenInRun(states, events, image, i);
      }
    } else {
      var states, events := DropsData(s, image);
      assert HeadTaken(states[|events|]) || !AllTaken(s, image);
    }
  }

  lemma TakenInRun(states: seq<Link>, events: seq<Event>, image: seq<byte>, i: nat)
    requires Run(states, events, image) && i < |states| && Paced(states[0].rx.config, |image|)
    ensures HeadTaken(states[i])
  {
    hide Run, Paced, Rx.OnData, Rx.SlotShape;
    if states[i].fwd != [] && states[i].fwd[0].Data? { NoDataDropped(states, events, image, i); }
  }
}
