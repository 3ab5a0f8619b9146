/** What a packet proves about the other machine, over every run of the adversarial network: an acknowledgement,
    a READY, a START_ACK and a final report are sent only after what they say has happened. */
module OtaAnswers {
  import opened Bytes
  import opened OtaProtocol
  import opened FlashMemory
  import Crc32
  import Rx = OtaReceiver
  import Tx = OtaSender
  import Rules = OtaRules
  import opened OtaSafety

  // ---- the moments a packet testifies to ---------------------------------------------------------------------

  /** The receiver holds window w completely, byte for byte. */
  ghost predicate HoldsAll(s: Net, w: nat) {
    && |s.rx.slots| == 2
    && var t := s.rx.slots[w % 2];
       && t.state != Rx.Free && t.win == w && w * WINDOW <= |s.tx.image|
       && t.winBytes == WindowBytes(|s.tx.image|, w) && t.winBytes <= |t.buffer|
       && t.buffer[..t.winBytes] == Window(s.tx.image, w)
  }

  ghost predicate WasHeld(states: seq<Net>, i: nat, w: nat)
    requires i < |states|
  {
    exists j: nat :: j <= i && HoldsAll(states[j], w)
  }

  ghost predicate WasCommitted(states: seq<Net>, i: nat, w: nat)
    requires i < |states|
  {
    exists j: nat :: j <= i && states[j].rx.committed > w
  }

  ghost predicate WasOpen(states: seq<Net>, i: nat)
    requires i < |states|
  {
    exists j: nat :: j <= i && states[j].rx.state == Rx.Transfer
  }

  lemma HeldLater(states: seq<Net>, i: nat, w: nat)
    requires i + 1 < |states| && WasHeld(states, i, w)
    ensures WasHeld(states, i + 1, w)
  {
    var j: nat :| j <= i && HoldsAll(states[j], w);
    assert j <= i + 1 && HoldsAll(states[j], w);
  }

  lemma CommittedLater(states: seq<Net>, i: nat, w: nat)
    requires i + 1 < |states| && WasCommitted(states, i, w)
    ensures WasCommitted(states, i + 1, w)
  {
    var j: nat :| j <= i && states[j].rx.committed > w;
    assert j <= i + 1 && states[j].rx.committed > w;
  }

  lemma OpenLater(states: seq<Net>, i: nat)
    requires i + 1 < |states| && WasOpen(states, i)
    ensures WasOpen(states, i + 1)
  {
    var j: nat :| j <= i && states[j].rx.state == Rx.Transfer;
    assert j <= i + 1 && states[j].rx.state == Rx.Transfer;
  }

  // ---- what the receiver has just sent -------------------------------------------------------------------------

  predicate AllIn(p: Reply) { p.QueryResp? && p.missing == 0 }

  predicate Success(p: Reply) { p.Ready? && p.status == Ok }

  predicate Accepted(p: Reply) { p.StartAck? && p.status == Ok }

  /** A new reply says only what is true in the state it leaves behind. */
  ghost predicate Truthful(t: Net, p: Reply) {
    && (AllIn(p) ==> HoldsAll(t, p.win))
    && (Success(p) ==> t.rx.committed > p.win)
    && (Accepted(p) ==> t.rx.state == Rx.Transfer)
    && (p.Report? && p.status == Ok ==> t.rx.state == Rx.Complete && p.stagedCrc == t.tx.imageCrc)
  }

  ghost predicate NewTruthful(s: Net, t: Net) { forall r :: r in t.replies && r !in s.replies ==> Truthful(t, r) }

  lemma QueryTruthful(s: Net, p: Request)
    requires Inv(s) && Shapes(s) && p in s.requests && p.Query?
    ensures NewTruthful(s, Next(s, ReceiverHears(p)))
  {
    hide Crc32.Of, WindowCount, ChunkCount, WindowBytes, TxGood, RxGood, Rx.Process, Rx.QuerySlot, ReplyGood,
         HoldsAll, Honest;
    var readback := FlashCrc(s.mem, s.rx.config.stagingOffset, s.rx.totalSize);
    HonestQuery(s, p);
    if s.rx.state == Rx.Transfer {
      Rules.QueryAnsweredOnce(s.rx, p, readback);
      var o := Rx.Process(s.rx, p, readback);
      if AllIn(o.replies[0]) { AllInHolds(s, p); }
    } else {
      Rules.DeafOutsideTransfer(s.rx, p, readback, s.mem, Rx.Plan(false, false, [], false, 0));
    }
  }

  lemma HonestQuery(s: Net, p: Request)
    requires Inv(s) && p in s.requests && p.Query?
    ensures Addressable(s.tx.image) && RxGood(s.rx, s.mem, s.tx.image)
    ensures p.win < WindowCount(|s.tx.image|) && p.win * WINDOW <= |s.tx.image| && Rx.WellFormed(p)
    ensures p.winBytes == WindowBytes(|s.tx.image|, p.win) && 0 < p.winBytes <= WINDOW
    ensures p.winCrc == Crc32.Of(Window(s.tx.image, p.win))
  {
    hide Crc32.Of, WindowCount, ChunkCount, RxGood;
    assert Honest(s.tx.image, s.tx.imageCrc, p);
    WindowFacts(|s.tx.image|, p.win);
  }

  /** "Nothing missing" comes from a slot that holds the window. */
  lemma AllInHolds(s: Net, p: Request)
    requires Inv(s) && Shapes(s) && p in s.requests && p.Query? && s.rx.state == Rx.Transfer
    requires var o := Rx.Process(s.rx, p, FlashCrc(s.mem, s.rx.config.stagingOffset, s.rx.totalSize));
             |o.replies| == 1 && AllIn(o.replies[0])
    ensures HoldsAll(Next(s, ReceiverHears(p)), p.win)
  {
    hide Crc32.Of, WindowCount, ChunkCount, WindowBytes, TxGood, Rx.Process, Rx.QuerySlot, ReplyGood, Honest,
         PrefixStaged, Filled;
    var readback := FlashCrc(s.mem, s.rx.config.stagingOffset, s.rx.totalSize);
    HonestQuery(s, p);
    Rules.QueryAnsweredOnce(s.rx, p, readback);
    Rules.BytesHaveChunks(p.winBytes);
    var i, slot := p.win % 2, s.rx.slots[p.win % 2];
    assert slot.state != Rx.Free && slot.win == p.win;
    SlotsAgree(s.rx, s.mem, s.tx.image, i);
    QuerySlotGood(slot, i, s.tx.image);
    FullSlot(Rx.QuerySlot(slot, p.winCrc, p.winBytes).0, i, s.tx.image);
  }

  lemma OthersTruthful(s: Net, p: Request)
    requires Inv(s) && Shapes(s) && p in s.requests && !p.Query?
    ensures NewTruthful(s, Next(s, ReceiverHears(p)))
  {
    hide Crc32.Of, WindowCount, ChunkCount, WindowBytes, Rx.Process, ReplyGood, HoldsAll, Rx.SlotShape, SlotGood,
         PrefixStaged;
    var readback := FlashCrc(s.mem, s.rx.config.stagingOffset, s.rx.totalSize);
    assert Honest(s.tx.image, s.tx.imageCrc, p);
    match p {
      case Start(_, _, _, _) => Rules.StartAnswered(s.rx, p, readback);
      case _ =>
        if s.rx.state != Rx.Transfer {
          Rules.DeafOutsideTransfer(s.rx, p, readback, s.mem, Rx.Plan(false, false, [], false, 0));
        } else if p.Data? {
          Rules.DataTakenIff(s.rx, p, readback);
        } else {
          Rules.FinalVerdict(s.rx, p, readback);
        }
    }
  }

  lemma FlashTruthful(s: Net, plan: Rx.Plan)
    requires Inv(s) && Shapes(s)
    ensures NewTruthful(s, Next(s, FlashSteps(plan)))
  {
    hide Crc32.Of, WindowCount, ChunkCount, WindowBytes, TxGood, RxGood, Rx.FlashSlot, ReplyGood, HoldsAll,
         Rx.SlotShape, Honest, Rules.Verifies, Rules.Beyond, Rules.Fault;
    if s.rx.state == Rx.Transfer && (Rx.Flashable(s.rx, 0) || Rx.Flashable(s.rx, 1)) {
      var i := if Rx.Flashable(s.rx, 0) then 0 else 1;
      ReadyBounds(s, i);
      Rules.AttemptVerdict(s.rx, i, s.mem, plan);
    }
  }

  lemma ReadyBounds(s: Net, i: nat)
    requires Inv(s) && Shapes(s) && s.rx.state == Rx.Transfer && i < 2 && Rx.Flashable(s.rx, i)
    ensures s.rx.slots[i].win == s.rx.committed < 256
  {
    hide Crc32.Of, WindowCount, ChunkCount, WindowBytes, Filled, PrefixStaged, ReplyGood, Honest;
    assert Addressable(s.tx.image);
    SlotsAgree(s.rx, s.mem, s.tx.image, i);
    WindowCountFacts(|s.tx.image|);
  }

  /** Whatever the receiver sends is true at that moment. */
  lemma NewRepliesTruthful(s: Net, e: Event)
    requires Inv(s) && Shapes(s) && Enabled(s, e)
    ensures NewTruthful(s, Next(s, e))
  {
    hide Inv, Shapes, Truthful, Rx.Process, Rx.StepFlash, Tx.Step, Tx.Handle;
    match e {
      case ReceiverHears(p) => if p.Query? { QueryTruthful(s, p); } else { OthersTruthful(s, p); }
      case FlashSteps(plan) => FlashTruthful(s, plan);
      case _ =>
    }
  }

  // ---- whole runs ------------------------------------------------------------------------------------------------

  /** Every reply that was ever sent testifies to a moment at or before now. */
  ghost predicate Testified(states: seq<Net>, i: nat, p: Reply)
    requires i < |states|
  {
    exists j: nat :: j <= i && Truthful(states[j], p)
  }

  lemma {:induction false} RepliesTestify(states: seq<Net>, events: seq<Event>, image: seq<byte>, i: nat, p: Reply)
    requires Run(states, events, image) && i < |states| && p in states[i].replies
    ensures Testified(states, i, p)
  {
    hide Inv, Enabled, Next, Shapes, Truthful;
    NoRepliesYet(states[0], image);
    if i > 0 {
      var s, e := states[i - 1], events[i - 1];
      assert Moves(s, e, states[i]);
      if p in s.replies {
        RepliesTestify(states, events, image, i - 1, p);
        var j: nat :| j <= i - 1 && Truthful(states[j], p);
        assert j <= i && Truthful(states[j], p);
      } else {
        RunInv(states, events, image, i - 1);
        NewRepliesTruthful(s, e);
        assert Truthful(states[i], p);
      }
    }
  }

  lemma NoRepliesYet(s: Net, image: seq<byte>)
    requires Init(s, image)
    ensures s.replies == {}
  {
  }

  /** A success READY on the wire means that the receiver has committed that window. */
  lemma ReadyMeansCommitted(states: seq<Net>, events: seq<Event>, image: seq<byte>, i: nat, w: nat, credit: nat)
    requires Run(states, events, image) && i < |states| && Ready(w, Ok, credit) in states[i].replies
    ensures WasCommitted(states, i, w)
  {
    RepliesTestify(states, events, image, i, Ready(w, Ok, credit));
    var j: nat :| j <= i && Truthful(states[j], Ready(w, Ok, credit));
    assert states[j].rx.committed > w;
  }

  /** An accepting START_ACK on the wire means that the receiver has begun the transfer. */
  lemma StartAckMeansOpen(states: seq<Net>, events: seq<Event>, image: seq<byte>, i: nat, credit: nat)
    requires Run(states, events, image) && i < |states| && StartAck(Ok, credit) in states[i].replies
    ensures WasOpen(states, i)
  {
    RepliesTestify(states, events, image, i, StartAck(Ok, credit));
    var j: nat :| j <= i && Truthful(states[j], StartAck(Ok, credit));
    assert states[j].rx.state == Rx.Transfer;
  }

  /** "Nothing missing" on the wire means that the receiver has held that window completely. */
  lemma AllInMeansHeld(states: seq<Net>, events: seq<Event>, image: seq<byte>, i: nat, p: Reply)
    requires Run(states, events, image) && i < |states| && p in states[i].replies && AllIn(p)
    ensures WasHeld(states, i, p.win)
  {
    hide HoldsAll;
    RepliesTestify(states, events, image, i, p);
    var j: nat :| j <= i && Truthful(states[j], p);
    assert HoldsAll(states[j], p.win);
  }

  // ---- what the sender believes is true ----------------------------------------------------------------------------

  /** The fields of the sender that replies move. */
  lemma StepKeepsPlace(tx: Tx.Tx, expired: bool)
    requires TxGood(tx)
    ensures |tx.bitmap| == BITMAP_BITS && tx.total <= BITMAP_BITS
    ensures var t := Tx.Step(tx, expired).tx;
            && t.sendWin == tx.sendWin && t.commitWin == tx.commitWin && t.totalWindows == tx.totalWindows
            && t.image == tx.image && t.imageCrc == tx.imageCrc
            && (t.state == tx.state || t.state == Tx.Failed
                || (t.state == Tx.Querying && (tx.state == Tx.SendWindow || tx.state == Tx.Retransmit)))
  {
    hide TxGood, Tx.SendChunks, Tx.ResendChunks, WindowCount, ChunkCount, Crc32.Of, Tx.DataPacket;
    GoodSizes(tx);
    if tx.state == Tx.SendWindow { SendChunksHonest(tx, Tx.BATCH); }
    if tx.state == Tx.Retransmit { ResendChunksHonest(tx, Tx.BATCH); }
  }

  lemma GoodSizes(tx: Tx.Tx)
    requires TxGood(tx)
    ensures Rules.Sized(tx) && tx.sendWin <= tx.totalWindows <= MAX_WINDOWS && Addressable(tx.image)
    ensures tx.totalWindows == WindowCount(|tx.image|) && tx.imageCrc == Crc32.Of(tx.image)
  {
    hide WindowCount, ChunkCount, Crc32.Of, WindowBytes;
    WindowCountFacts(|tx.image|);
  }

  /** The sender passes a window only on the word that nothing of it is missing. */
  lemma PassesOnWord(tx: Tx.Tx, p: Reply)
    requires TxGood(tx) && ReplyGood(p, tx.image)
    ensures Rules.Carries(p)
    ensures var t := Tx.Handle(tx, p).tx;
            t.sendWin == tx.sendWin || (t.sendWin == tx.sendWin + 1 && AllIn(p) && p.win == tx.sendWin)
  {
    hide TxGood, Tx.Handle, WindowCount, ChunkCount, WindowBytes, Crc32.Of, Rules.FreshWindow, Rules.Concerns;
    GoodSizes(tx);
    if !Rules.Concerns(tx, p) {
      Rules.OthersIgnored(tx, p);
    } else {
      ConcernIs(tx, p);
      match p {
        case QueryResp(_, _, _) => AnswerPlace(tx, p);
        case StartAck(_, _) => StartAckPlace(tx, p);
        case Ready(_, _, _) => Rules.ReadyMoves(tx, p);
        case _ => Rules.VerdictMoves(tx, p);
      }
    }
  }

  lemma ConcernIs(tx: Tx.Tx, p: Reply)
    requires Rules.Concerns(tx, p)
    ensures p.QueryResp? ==> tx.state == Tx.Querying && p.win == tx.sendWin
    ensures p.StartAck? ==> tx.state == Tx.Starting
    ensures p.Report? ==> tx.state == Tx.Finalizing
  {
  }

  lemma AnswerPlace(tx: Tx.Tx, p: Reply)
    requires Rules.Sized(tx) && p.QueryResp? && |p.bitmap| <= 536 && tx.state == Tx.Querying
             && p.win == tx.sendWin < 256
    ensures var t := Tx.Handle(tx, p).tx;
            t.sendWin == tx.sendWin || (t.sendWin == tx.sendWin + 1 && AllIn(p))
  {
    hide Crc32.Of, ChunkCount, WindowBytes, Tx.Int16;
  }

  lemma StartAckPlace(tx: Tx.Tx, p: Reply)
    requires Rules.Sized(tx) && p.StartAck? && tx.state == Tx.Starting
    ensures Tx.Handle(tx, p).tx.sendWin == tx.sendWin
  {
    Rules.StartAckMoves(tx, p);
  }

  /** Every window below the one being sent has been held completely by the receiver, at this moment or before. */
  lemma {:induction false} PassedWindowsHeld(states: seq<Net>, events: seq<Event>, image: seq<byte>, i: nat, w: nat)
    requires Run(states, events, image) && i < |states| && w < states[i].tx.sendWin
    ensures WasHeld(states, i, w)
  {
    hide Inv, Enabled, Next, Shapes, HoldsAll, TxGood, RxGood, ReplyGood, Honest, WasHeld;
    StartsAtZero(states[0], image);
    if i > 0 {
      var s, e := states[i - 1], events[i - 1];
      assert Moves(s, e, states[i]);
      RunInv(states, events, image, i - 1);
      if w < s.tx.sendWin {
        PassedWindowsHeld(states, events, image, i - 1, w);
        HeldLater(states, i - 1, w);
      } else {
        PlaceMoved(s, e);
        AllInMeansHeld(states, events, image, i - 1, e.reply);
        HeldLater(states, i - 1, w);
      }
    }
  }

  lemma StartsAtZero(s: Net, image: seq<byte>)
    requires Init(s, image)
    ensures s.tx.sendWin == s.tx.commitWin == 0 && s.tx.state == Tx.Starting && s.tx.retries == 0
  {
  }

  lemma PlaceMoved(s: Net, e: Event)
    requires Inv(s) && Shapes(s) && Enabled(s, e)
    ensures Next(s, e).tx.sendWin == s.tx.sendWin
            || (&& e.SenderHears? && e.reply in s.replies && AllIn(e.reply) && e.reply.win == s.tx.sendWin
                && Next(s, e).tx.sendWin == s.tx.sendWin + 1)
  {
    hide TxGood, RxGood, ReplyGood, Honest, Tx.Step, Tx.Handle, Rx.Process, Rx.StepFlash, Rx.Shape;
    match e {
      case SenderSteps(expired) => StepKeepsPlace(s.tx, expired);
      case SenderHears(r) => PassesOnWord(s.tx, r);
      case _ =>
    }
  }

  // ---- counting committed windows ------------------------------------------------------------------------------

  /** What the sender counts as committed has been committed: for commitWin, and for all windows once it asks
      for the final verdict. */
  ghost predicate CountsTrue(states: seq<Net>, i: nat)
    requires i < |states|
  {
    var tx := states[i].tx;
    && (tx.commitWin > 0 ==> WasCommitted(states, i, tx.commitWin - 1))
    && (tx.state == Tx.Finalizing || tx.state == Tx.Complete ==>
          tx.totalWindows > 0 && WasCommitted(states, i, tx.totalWindows - 1))
  }

  /** Only a success READY moves the count, and only the READY of the last window leads to FINALIZE. */
  lemma CountMoves(tx: Tx.Tx, p: Reply)
    requires TxGood(tx) && ReplyGood(p, tx.image)
    ensures Rules.Carries(p) && tx.totalWindows > 0
    ensures var t := Tx.Handle(tx, p).tx;
            && t.totalWindows == tx.totalWindows
            && (t.commitWin == tx.commitWin || (Success(p) && t.commitWin == p.win + 1))
            && (t.state == Tx.Finalizing && tx.state != Tx.Finalizing ==> Success(p) && p.win + 1 == tx.totalWindows)
            && (t.state == Tx.Complete && tx.state != Tx.Complete ==> tx.state == Tx.Finalizing)
  {
    hide TxGood, Tx.Handle, WindowCount, ChunkCount, WindowBytes, Crc32.Of, Rules.FreshWindow, Rules.Concerns;
    GoodSizes(tx);
    ReadyIndex(tx, p);
    SomeWindow(tx);
    if !Rules.Concerns(tx, p) {
      Rules.OthersIgnored(tx, p);
    } else {
      ConcernIs(tx, p);
      match p {
        case QueryResp(_, _, _) => AnswerCounts(tx, p);
        case StartAck(_, _) => Rules.StartAckMoves(tx, p);
        case Ready(_, _, _) => Rules.ReadyMoves(tx, p);
        case _ => Rules.VerdictMoves(tx, p);
      }
    }
  }

  lemma ReadyIndex(tx: Tx.Tx, p: Reply)
    requires TxGood(tx) && ReplyGood(p, tx.image)
    ensures p.Ready? ==> p.win < 256
  {
    hide Crc32.Of, WindowCount, ChunkCount, WindowBytes;
    WindowCountFacts(|tx.image|);
  }

  lemma SomeWindow(tx: Tx.Tx)
    requires TxGood(tx)
    ensures tx.totalWindows > 0
  {
    hide Crc32.Of, WindowCount, ChunkCount, WindowBytes;
    WindowCountFacts(|tx.image|);
  }

  lemma AnswerCounts(tx: Tx.Tx, p: Reply)
    requires Rules.Sized(tx) && p.QueryResp? && |p.bitmap| <= 536 && tx.state == Tx.Querying
             && p.win == tx.sendWin < 256
    ensures var t := Tx.Handle(tx, p).tx;
            && t.commitWin == tx.commitWin && t.totalWindows == tx.totalWindows
            && t.state != Tx.Finalizing && t.state != Tx.Complete
  {
    hide Crc32.Of, ChunkCount, WindowBytes, Tx.Int16;
  }

  /** A sender that has asked for the final verdict, or heard it, has had every window committed. */
  lemma {:induction false} CountsAreTrue(states: seq<Net>, events: seq<Event>, image: seq<byte>, i: nat)
    requires Run(states, events, image) && i < |states|
    ensures CountsTrue(states, i)
  {
    hide Inv, Enabled, Next, Shapes, TxGood, RxGood, ReplyGood, Honest, WasCommitted;
    StartsAtZero(states[0], image);
    if i > 0 {
      var s, e := states[i - 1], events[i - 1];
      assert Moves(s, e, states[i]);
      RunInv(states, events, image, i - 1);
      CountsAreTrue(states, events, image, i - 1);
      CountChanges(s, e);
      SomeWindow(s.tx) by { InvTx(s); }
      if e.SenderHears? && Success(e.reply) {
        ReadyMeansCommitted(states, events, image, i - 1, e.reply.win, e.reply.credit)
          by { ReplyIs(e.reply); HeardReply(s, e); }
        CommittedLater(states, i - 1, e.reply.win);
      }
      if s.tx.commitWin > 0 { CommittedLater(states, i - 1, s.tx.commitWin - 1); }
      if s.tx.state == Tx.Finalizing || s.tx.state == Tx.Complete {
        CommittedLater(states, i - 1, s.tx.totalWindows - 1);
      }
    }
  }

  lemma InvTx(s: Net)
    requires Inv(s)
    ensures TxGood(s.tx)
  {
    hide TxGood, RxGood, ReplyGood, Honest;
  }

  lemma ReplyIs(p: Reply)
    requires Success(p)
    ensures p == Ready(p.win, Ok, p.credit)
  {
  }

  lemma HeardReply(s: Net, e: Event)
    requires Enabled(s, e) && e.SenderHears?
    ensures e.reply in s.replies
  {
  }

  lemma CountChanges(s: Net, e: Event)
    requires Inv(s) && Shapes(s) && Enabled(s, e)
    ensures var t := Next(s, e).tx;
            && t.totalWindows == s.tx.totalWindows
            && (t.commitWin == s.tx.commitWin || (e.SenderHears? && Success(e.reply) && t.commitWin == e.reply.win + 1))
            && (t.state == Tx.Finalizing && s.tx.state != Tx.Finalizing ==>
                  e.SenderHears? && Success(e.reply) && e.reply.win + 1 == s.tx.totalWindows)
            && (t.state == Tx.Complete && s.tx.state != Tx.Complete ==> s.tx.state == Tx.Finalizing)
  {
    hide TxGood, RxGood, ReplyGood, Honest, Tx.Step, Tx.Handle, Rx.Process, Rx.StepFlash, Rx.Shape;
    match e {
      case SenderSteps(expired) => StepKeepsPlace(s.tx, expired);
      case SenderHears(r) => CountMoves(s.tx, r);
      case _ =>
    }
  }

  // ---- an image that does not fit ------------------------------------------------------------------------------

  /** START refused: the receiver stays idle, no reply grants anything, the sender is starting or has failed. */
  ghost predicate Refused(s: Net) {
    && s.rx.state == Rx.Idle
    && (s.tx.state == Tx.Starting || s.tx.state == Tx.Failed)
    && forall p :: p in s.replies ==> p == StartAck(ErrSize, 0)
  }

  lemma RefusedNext(s: Net, e: Event)
    requires Inv(s) && Shapes(s) && Enabled(s, e) && Refused(s)
    requires 0 < s.rx.config.stagingMax < |s.tx.image|
    ensures Refused(Next(s, e))
  {
    hide TxGood, RxGood, Tx.Step, Tx.Handle, Rx.Process, Rx.StepFlash, Rx.SlotShape, Crc32.Of, WindowCount,
         ChunkCount, WindowBytes, ReplyGood;
    match e {
      case SenderSteps(expired) =>
        StepKeepsPlace(s.tx, expired);
        Rules.WaitsQuietly(s.tx);
      case SenderHears(p) =>
        if s.tx.state == Tx.Starting { Rules.StartAckMoves(s.tx, p); } else { Rules.OthersIgnored(s.tx, p); }
      case ReceiverHears(p) =>
        var readback := FlashCrc(s.mem, s.rx.config.stagingOffset, s.rx.totalSize);
        assert Honest(s.tx.image, s.tx.imageCrc, p);
        if p.Start? { Rules.StartAnswered(s.rx, p, readback); }
        else { Rules.DeafOutsideTransfer(s.rx, p, readback, s.mem, Rx.Plan(false, false, [], false, 0)); }
      case FlashSteps(plan) =>
        Rules.DeafOutsideTransfer(s.rx, Abort, 0, s.mem, plan);
    }
  }

  /** An image larger than the staging area is refused in every run: no START_ACK ever grants credit, and the
      sender gets no further than START, or fails. */
  lemma {:induction false} OversizeNeverStarts(states: seq<Net>, events: seq<Event>, image: seq<byte>, i: nat)
    requires Run(states, events, image) && i < |states| && 0 < states[0].rx.config.stagingMax < |image|
    ensures Refused(states[i])
  {
    hide Inv, Enabled, Next, Shapes, Refused;
    if i == 0 {
      StartRefused(states[0], image);
    } else {
      OversizeNeverStarts(states, events, image, i - 1);
      assert Moves(states[i - 1], events[i - 1], states[i]);
      RunInv(states, events, image, i - 1);
      RefusedNext(states[i - 1], events[i - 1]);
    }
  }

  lemma StartRefused(s: Net, image: seq<byte>)
    requires Init(s, image)
    ensures Refused(s)
  {
  }

  // ---- patience --------------------------------------------------------------------------------------------------

  /** Expired timeouts among the events from a to b. */
  function Expiries(events: seq<Event>, a: nat, b: nat): nat
    requires a <= b <= |events|
    decreases b - a
  {
    if a == b then 0 else Expiries(events, a, b - 1) + if events[b - 1] == SenderSteps(true) then 1 else 0
  }

  /** Since state j the sender has waited for the same answer, and this often its timeout has expired. */
  ghost predicate WaitedSince(states: seq<Net>, events: seq<Event>, j: nat, i: nat, times: nat)
    requires j <= i < |states| && i <= |events|
  {
    && (forall m :: j <= m <= i ==> states[m].tx.state == states[i].tx.state)
    && Expiries(events, j, i) == times
  }

  /** One event of a waiting sender: an expiry counts, or the count starts anew, or nothing changes. */
  lemma CountOfExpiries(s: Net, e: Event)
    requires Inv(s) && Shapes(s) && Enabled(s, e) && Rules.Retrying(Next(s, e).tx)
    requires Rules.Retrying(s.tx) ==> s.tx.retries <= 10
    ensures var t := Next(s, e).tx;
            || t.retries == 0
            || (Rules.Retrying(s.tx) && t.state == s.tx.state
                && t.retries == s.tx.retries + (if e == SenderSteps(true) then 1 else 0) <= 10)
  {
    hide TxGood, RxGood, Tx.Step, Tx.Handle, Rx.Process, Rx.StepFlash, Rx.Shape, Crc32.Of, WindowCount, ChunkCount,
         WindowBytes, ReplyGood, Honest, Rules.FreshWindow;
    GoodSizes(s.tx) by { InvTx(s); }
    match e {
      case SenderSteps(expired) =>
        if Rules.Retrying(s.tx) {
          if expired { Rules.ExpiredResends(s.tx); } else { Rules.WaitsQuietly(s.tx); }
        } else if s.tx.state == Tx.SendWindow || s.tx.state == Tx.Retransmit {
          Rules.BusyIgnoresTime(s.tx);
        } else {
          Rules.WaitsQuietly(s.tx);
        }
      case SenderHears(p) => HearingCounts(s.tx, p);
      case _ =>
    }
  }

  lemma HearingCounts(tx: Tx.Tx, p: Reply)
    requires TxGood(tx) && ReplyGood(p, tx.image)
    ensures Rules.Carries(p)
    ensures var t := Tx.Handle(tx, p).tx;
            Rules.Retrying(t) ==> t.retries == 0 || (t.state == tx.state && t.retries == tx.retries)
  {
    hide TxGood, Tx.Handle, WindowCount, ChunkCount, WindowBytes, Crc32.Of, Rules.FreshWindow, Rules.Concerns;
    GoodSizes(tx);
    ReadyIndex(tx, p);
    if !Rules.Concerns(tx, p) {
      Rules.OthersIgnored(tx, p);
    } else {
      ConcernIs(tx, p);
      match p {
        case QueryResp(_, _, _) => AnswerLeaves(tx, p);
        case StartAck(_, _) => Rules.StartAckMoves(tx, p);
        case Ready(_, _, _) => Rules.ReadyMoves(tx, p);
        case _ => Rules.VerdictMoves(tx, p);
      }
    }
  }

  lemma AnswerLeaves(tx: Tx.Tx, p: Reply)
    requires Rules.Sized(tx) && p.QueryResp? && |p.bitmap| <= 536 && tx.state == Tx.Querying
             && p.win == tx.sendWin < 256
    ensures !Rules.Retrying(Tx.Handle(tx, p).tx)
  {
    hide Crc32.Of, ChunkCount, WindowBytes, Tx.Int16;
  }

  /** The retry counter of a waiting sender is the number of timeouts that have expired since it last began to
      wait, or was answered, and never exceeds ten. */
  lemma {:induction false} RetriesCounted(states: seq<Net>, events: seq<Event>, image: seq<byte>, i: nat)
    returns (j: nat)
    requires Run(states, events, image) && i < |states| && Rules.Retrying(states[i].tx)
    ensures j <= i && states[i].tx.retries <= 10 && WaitedSince(states, events, j, i, states[i].tx.retries)
  {
    hide Inv, Enabled, Next, Shapes;
    j := i;
    StartsAtZero(states[0], image);
    if i > 0 && states[i].tx.retries > 0 {
      var s, e := states[i - 1], events[i - 1];
      assert Moves(s, e, states[i]);
      RunInv(states, events, image, i - 1);
      if Rules.Retrying(s.tx) { j := RetriesCounted(states, events, image, i - 1); }
      CountOfExpiries(s, e);
    }
  }

  /** A sender that waits for START_ACK, an answer to its query or the final report gives up on a timeout only
      after eleven have expired while it waited. */
  lemma GivesUpAfterEleven(states: seq<Net>, events: seq<Event>, image: seq<byte>, i: nat) returns (j: nat)
    requires Run(states, events, image) && i < |events| && Rules.Retrying(states[i].tx)
    requires events[i].SenderSteps? && states[i + 1].tx.state == Tx.Failed
    ensures j <= i && Expiries(events, j, i + 1) == 11
    ensures forall m :: j <= m <= i ==> states[m].tx.state == states[i].tx.state
  {
    hide Inv, Enabled, Next, Shapes, TxGood, RxGood;
    j := RetriesCounted(states, events, image, i);
    assert Moves(states[i], events[i], states[i + 1]);
    RunInv(states, events, image, i);
    FailsWhen(states[i], events[i]);
  }

  lemma FailsWhen(s: Net, e: Event)
    requires Inv(s) && Shapes(s) && Enabled(s, e) && e.SenderSteps? && Rules.Retrying(s.tx) && s.tx.retries <= 10
    ensures Next(s, e).tx.state == Tx.Failed ==> e.expired && s.tx.retries == 10
  {
    hide TxGood, RxGood, Tx.Step, ReplyGood, Honest;
    GoodSizes(s.tx) by { InvTx(s); }
    Rules.ExpiredResends(s.tx);
    Rules.WaitsQuietly(s.tx);
  }

  // ---- the call that starts a transfer ---------------------------------------------------------------------------

  /** ota_sender_start on a fresh sender for an addressable image leads to the start state of the runs, with the
      START packet on its way; an empty image is refused and nothing changes. */
  lemma BeginStarts(tx: Tx.Tx, rx: Rx.Rx, mem: seq<byte>)
    requires |tx.bitmap| == BITMAP_BITS && tx.total == tx.remaining == 0 && tx.imageCrc == Crc32.Of(tx.image)
    requires Rx.Shape(rx) && rx.state == Rx.Idle && rx.committed == 0
    requires rx.slots[0].state == rx.slots[1].state == Rx.Free && rx.config.stagingOffset <= |mem|
    ensures Addressable(tx.image) ==>
              && Tx.Begin(tx).result && |Tx.Begin(tx).sent| == 1
              && Init(Net(Tx.Begin(tx).tx, rx, mem, {Tx.Begin(tx).sent[0]}, {}), tx.image)
    ensures tx.image == [] ==> Tx.Begin(tx) == Tx.Outcome(tx, [], false)
  {
    hide Crc32.Of, WindowCount, Rx.SlotShape;
  }
}
