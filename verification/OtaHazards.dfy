/** What duplicates and timeouts can do to a transfer. None of it breaks content safety; all of it is
    reachable, and each lemma says exactly when it happens. */
module OtaHazards {
  import opened Bytes
  import opened OtaProtocol
  import opened FlashMemory
  import Crc32
  import Rx = OtaReceiver
  import Tx = OtaSender
  import opened OtaSafety
  import Link = OtaLink
  import Credit = OtaCredit
  import Rules = OtaRules

  // ---- timeouts -------------------------------------------------------------------------------------------

  /** The sender after n steps at which its timeout had expired (ExpiredStep). */
  function Expired(tx: Tx.Tx, n: nat): Tx.Tx {
    if tx.retries + n <= Tx.MAX_TIMEOUT_RETRIES then tx.(retries := tx.retries + n)
    else tx.(retries := Tx.MAX_TIMEOUT_RETRIES + 1, state := Tx.Failed)
  }

  /** A fresh sender fails on timeouts alone, at the eleventh and not before. */
  lemma TimeoutsAloneFail(s: Net, image: seq<byte>, n: nat) returns (states: seq<Net>, events: seq<Event>)
    requires Init(s, image)
    ensures Run(states, events, image) && states[0] == s && |events| == n
    ensures forall e :: e in events ==> e == SenderSteps(true)
    ensures states[n].tx.state == Tx.Failed <==> n > Tx.MAX_TIMEOUT_RETRIES
  {
    hide Crc32.Of, WindowCount, Init, Shapes;
    InitFacts(s, image);
    states := seq(n + 1, i requires 0 <= i => s.(tx := Expired(s.tx, i)));
    events := seq(n, i => SenderSteps(true));
    forall i | 0 <= i < n ensures Moves(states[i], events[i], states[i + 1]) { ExpiryMoves(s, image, i); }
    assert states[0] == s;
  }

  lemma InitFacts(s: Net, image: seq<byte>)
    requires Init(s, image)
    ensures s.tx.state == Tx.Starting && s.tx.retries == 0 && |s.tx.bitmap| == BITMAP_BITS && s.tx.total == 0
    ensures s.requests == {Tx.StartPacket(s.tx)} && Shapes(s)
  {
    hide Crc32.Of, WindowCount, Inv;
    InitInv(s, image);
    InvShapes(s);
  }

  lemma ExpiryMoves(s: Net, image: seq<byte>, i: nat)
    requires Init(s, image)
    ensures Moves(s.(tx := Expired(s.tx, i)), SenderSteps(true), s.(tx := Expired(s.tx, i + 1)))
  {
    hide Crc32.Of, WindowCount, Init, Expired, Shapes, Tx.Step;
    InitFacts(s, image);
    ExpiredStep(s.tx, i);
    ExpiredFields(s.tx, i);
    ExpiredShapes(s, Expired(s.tx, i));
    assert s.requests + Range([Tx.StartPacket(s.tx)]) == s.requests;
    assert s.requests + Range([]) == s.requests;
  }

  lemma ExpiredFields(tx: Tx.Tx, n: nat)
    ensures Expired(tx, n) == tx.(state := Expired(tx, n).state, retries := Expired(tx, n).retries)
  {
  }

  lemma ExpiredShapes(s: Net, tx: Tx.Tx)
    requires Shapes(s) && tx == s.tx.(state := tx.state, retries := tx.retries)
    ensures Shapes(s.(tx := tx))
  {
    hide Rx.SlotShape;
  }

  /** One expired step resends the packet, or gives up. */
  lemma ExpireOnce(tx: Tx.Tx)
    requires Rules.Retrying(tx) && tx.retries <= Tx.MAX_TIMEOUT_RETRIES && |tx.bitmap| == BITMAP_BITS
             && tx.total <= BITMAP_BITS
    ensures var o := Tx.Step(tx, true);
            && o.tx == Expired(tx, 1)
            && o.sent == if tx.retries < Tx.MAX_TIMEOUT_RETRIES then [Rules.Outstanding(tx)] else []
  {
    hide Tx.Step;
    Rules.ExpiredResends(tx);
  }

  lemma FailedStays(tx: Tx.Tx)
    requires tx.state == Tx.Failed && |tx.bitmap| == BITMAP_BITS && tx.total <= BITMAP_BITS
    ensures Tx.Step(tx, true) == Tx.Outcome(tx, [], false)
  {
  }

  lemma ExpiredStep(tx: Tx.Tx, n: nat)
    requires Rules.Retrying(tx) && tx.retries <= Tx.MAX_TIMEOUT_RETRIES && |tx.bitmap| == BITMAP_BITS
             && tx.total <= BITMAP_BITS
    ensures Expired(tx, 0) == tx && Expired(tx, n + 1) == Tx.Step(Expired(tx, n), true).tx
    ensures Tx.Step(Expired(tx, n), true).sent
            == if tx.retries + n < Tx.MAX_TIMEOUT_RETRIES then [Rules.Outstanding(tx)] else []
  {
    hide Tx.Step;
    if tx.retries + n <= Tx.MAX_TIMEOUT_RETRIES {
      ExpireOnce(Expired(tx, n));
    } else {
      FailedStays(Expired(tx, n));
    }
  }

  // ---- every first-in first-out run is a run of the adversarial network -------------------------------------

  /** The network holds at least what is under way on the link. */
  ghost predicate Embeds(n: Net, l: Link.Link) {
    && n.tx == l.tx && n.rx == l.rx && n.mem == l.mem
    && (forall i :: 0 <= i < |l.fwd| ==> l.fwd[i] in n.requests)
    && (forall i :: 0 <= i < |l.bwd| ==> l.bwd[i] in n.replies)
  }

  function NetEvent(l: Link.Link, e: Link.Event): Event
    requires !e.DataLost? && (e.RequestArrives? ==> l.fwd != []) && (e.ReplyArrives? ==> l.bwd != [])
  {
    match e
    case SenderSteps => SenderSteps(false)
    case RequestArrives => ReceiverHears(l.fwd[0])
    case ReplyArrives => SenderHears(l.bwd[0])
    case FlashSteps(plan) => FlashSteps(plan)
  }

  lemma EmbedStep(n: Net, l: Link.Link, e: Link.Event)
    requires Embeds(n, l) && Shapes(n) && Link.Shapes(l) && Link.Enabled(l, e)
    ensures if e.DataLost? then Embeds(n, Link.Next(l, e))
            else Enabled(n, NetEvent(l, e)) && Embeds(Next(n, NetEvent(l, e)), Link.Next(l, e))
  {
    hide Shapes, Link.Shapes, Tx.Step, Tx.Handle, Rx.Process, Rx.StepFlash, Link.FlashFails, Link.FreshData;
  }

  lemma StartEmbeds(l: Link.Link, image: seq<byte>) returns (n: Net)
    requires Link.Init(l, image)
    ensures Init(n, image) && Embeds(n, l) && n.rx.config == l.rx.config
  {
    hide Crc32.Of, WindowCount, Link.PortAccepts, Rx.SlotShape;
    n := Net(l.tx, l.rx, l.mem, {Tx.StartPacket(l.tx)}, {});
  }

  lemma Extend(states: seq<Net>, events: seq<Event>, image: seq<byte>, e: Event)
    requires Run(states, events, image) && Shapes(states[|events|]) && Enabled(states[|events|], e)
    ensures Run(states + [Next(states[|events|], e)], events + [e], image)
  {
    hide Next, Enabled, Shapes, Init;
    var states', events' := states + [Next(states[|events|], e)], events + [e];
    forall i | 0 <= i < |events'| ensures Moves(states'[i], events'[i], states'[i + 1]) {
      if i < |events| { assert Moves(states[i], events[i], states[i + 1]); }
    }
  }

  /** The link refines the network: all that holds in every adversarial run holds on the link. */
  lemma {:induction false} LinkRunIsNetRun(links: seq<Link.Link>, moves: seq<Link.Event>, image: seq<byte>, i: nat)
    returns (states: seq<Net>, events: seq<Event>)
    requires Link.Run(links, moves, image) && i < |links|
    ensures Run(states, events, image) && Embeds(states[|events|], links[i])
    ensures states[0].rx.config == links[0].rx.config
  {
    hide Shapes, Next, Enabled, Init, Embeds, Link.Init, Link.Next, Link.Enabled, Link.Shapes;
    if i == 0 {
      var n := StartEmbeds(links[0], image);
      states, events := [n], [];
    } else {
      states, events := LinkRunIsNetRun(links, moves, image, i - 1);
      var l, e := links[i - 1], moves[i - 1];
      assert Link.Moves(l, e, links[i]);
      ReachableShapes(states, events, image, |events|);
      EmbedStep(states[|events|], l, e);
      if !e.DataLost? {
        HeadThere(l, e);
        Extend(states, events, image, NetEvent(l, e));
        states, events := states + [Next(states[|events|], NetEvent(l, e))], events + [NetEvent(l, e)];
      }
    }
  }

  lemma HeadThere(l: Link.Link, e: Link.Event)
    requires Link.Shapes(l) && Link.Enabled(l, e)
    ensures (e.RequestArrives? ==> l.fwd != []) && (e.ReplyArrives? ==> l.bwd != [])
  {
    hide Link.Shapes, Link.FlashFails;
  }

  /** Every image the flash functions accept can be transferred, so the hazards below are reachable. */
  lemma CompleteRun(l: Link.Link, image: seq<byte>) returns (states: seq<Net>, events: seq<Event>)
    requires Link.Init(l, image) && Link.Paced(l.rx.config, |image|)
    ensures Run(states, events, image) && states[|events|].tx.state == Tx.Complete
            && states[|events|].rx.state == Rx.Complete
  {
    hide Link.Init, Link.Paced, Link.Inv, Link.Throttled;
    Link.InitInv(l, image);
    Link.InitThrottled(l, image);
    var links, moves := Link.RunFinishes([l], [], image);
    states, events := LinkRunIsNetRun(links, moves, image, |moves|);
  }

  // ---- a duplicate READY ---------------------------------------------------------------------------------------

  /** What takes a sender out of COMPLETE: an abort, a failure report, or the READY of the last window. */
  lemma CompleteLeftIff(tx: Tx.Tx, p: Reply)
    requires tx.state == Tx.Complete && |tx.bitmap| == BITMAP_BITS && (p.QueryResp? ==> |p.bitmap| <= BITMAP_BITS)
    ensures Tx.Handle(tx, p).tx.state != Tx.Complete <==>
            p.Aborted? || (p.Ready? && (p.status != Ok || (p.win + 1) % 0x1_0000 == tx.totalWindows))
    ensures p.Ready? && p.status == Ok && (p.win + 1) % 0x1_0000 == tx.totalWindows ==>
              Tx.Handle(tx, p).tx.state == Tx.Finalizing
  {
    hide Tx.Int16;
  }

  predicate LastReady(p: Reply, windows: nat) { p.Ready? && p.status == Ok && (p.win + 1) % 0x1_0000 == windows }

  ghost predicate Concluding(s: Net) {
    s.tx.state == Tx.Finalizing || s.tx.state == Tx.Complete ==>
      exists p :: p in s.replies && LastReady(p, s.tx.totalWindows)
  }

  lemma ConcludingNext(s: Net, e: Event)
    requires Inv(s) && Shapes(s) && Enabled(s, e) && Concluding(s)
    ensures Concluding(Next(s, e))
  {
    hide TxGood, RxGood, ReplyGood, Honest, Tx.Step, Tx.Handle, Rx.Process, Rx.StepFlash, Rx.Shape, LastReady;
    var t := Next(s, e);
    assert s.replies <= t.replies;
    match e {
      case SenderSteps(expired) => StepConcludes(s.tx, expired);
      case SenderHears(p) => HandleConcludes(s.tx, p);
      case _ => assert t.tx == s.tx;
    }
    if (s.tx.state == Tx.Finalizing || s.tx.state == Tx.Complete) && t.tx.totalWindows == s.tx.totalWindows {
      var p :| p in s.replies && LastReady(p, s.tx.totalWindows);
      assert p in t.replies;
    }
  }

  lemma StepConcludes(tx: Tx.Tx, expired: bool)
    requires TxGood(tx) && |tx.bitmap| == BITMAP_BITS && tx.total <= BITMAP_BITS
    ensures var t := Tx.Step(tx, expired).tx;
            && t.totalWindows == tx.totalWindows
            && (t.state == Tx.Finalizing || t.state == Tx.Complete ==> t.state == tx.state)
  {
    hide TxGood, Tx.SendChunks, Tx.ResendChunks, WindowCount, ChunkCount, Crc32.Of;
    if tx.state == Tx.SendWindow { SendChunksHonest(tx, Tx.BATCH); }
    if tx.state == Tx.Retransmit { ResendChunksHonest(tx, Tx.BATCH); }
  }

  lemma HandleConcludes(tx: Tx.Tx, p: Reply)
    requires |tx.bitmap| == BITMAP_BITS && (p.QueryResp? ==> |p.bitmap| <= BITMAP_BITS)
    ensures var t := Tx.Handle(tx, p).tx;
            && t.totalWindows == tx.totalWindows
            && (t.state == Tx.Finalizing || t.state == Tx.Complete ==>
                  tx.state == Tx.Finalizing || tx.state == Tx.Complete || LastReady(p, tx.totalWindows))
  {
    hide Tx.SetupWindow, Tx.Int16;
    SetupKeepsState(tx);
    SetupKeepsWindows(tx);
  }

  lemma SetupKeepsWindows(tx: Tx.Tx)
    ensures forall t: Tx.Tx, w :: Tx.SetupWindow(t, w).totalWindows == t.totalWindows
  {
    hide Crc32.Of, ChunkCount, WindowBytes;
  }

  lemma {:induction false} RunConcluding(states: seq<Net>, events: seq<Event>, image: seq<byte>, i: nat)
    requires Run(states, events, image) && i < |states|
    ensures Concluding(states[i])
  {
    hide Inv, Enabled, Next, Shapes, Concluding;
    if i == 0 {
      InitConcluding(states[0], image);
    } else {
      RunConcluding(states, events, image, i - 1);
      RunInv(states, events, image, i - 1);
      assert Moves(states[i - 1], events[i - 1], states[i]);
      ConcludingNext(states[i - 1], events[i - 1]);
    }
  }

  lemma InitConcluding(s: Net, image: seq<byte>)
    requires Init(s, image)
    ensures Concluding(s)
  {
  }

  /** Every run in which the sender has completed goes on, by a READY delivered twice, with the sender back
      in FINALIZE, where a receiver in COMPLETE answers it no more. */
  lemma DuplicateReadyReopens(states: seq<Net>, events: seq<Event>, image: seq<byte>) returns (p: Reply)
    requires Run(states, events, image) && states[|events|].tx.state == Tx.Complete
    ensures Shapes(states[|events|]) && p in states[|events|].replies && LastReady(p, states[|events|].tx.totalWindows)
    ensures var s' := Next(states[|events|], SenderHears(p));
            Run(states + [s'], events + [SenderHears(p)], image) && s'.tx.state == Tx.Finalizing
  {
    hide Inv, Init, Rx.Shape, Tx.Handle;
    var s := states[|events|];
    RunConcluding(states, events, image, |events|);
    ReachableShapes(states, events, image, |events|);
    p :| p in s.replies && LastReady(p, s.tx.totalWindows);
    Extend(states, events, image, SenderHears(p));
    CompleteLeftIff(s.tx, p);
  }

  /** A receiver in COMPLETE does not answer FINALIZE. */
  lemma NoSecondReport(rx: Rx.Rx, p: Request, readback: bv32)
    requires p.Finalize? && Rx.Shape(rx)
    ensures Rx.Process(rx, p, readback).replies == [] <==> rx.state != Rx.Transfer
  {
  }

  /** Such a run exists for every image that can be transferred. */
  lemma DuplicateReadyRun(l: Link.Link, image: seq<byte>) returns (states: seq<Net>, events: seq<Event>)
    requires Link.Init(l, image) && Link.Paced(l.rx.config, |image|)
    ensures Run(states, events, image) && |events| > 0
    ensures states[|events| - 1].tx.state == Tx.Complete && states[|events|].tx.state == Tx.Finalizing
  {
    hide Link.Init, Link.Paced, Init, Moves, Next, Shapes;
    states, events := CompleteRun(l, image);
    var p := DuplicateReadyReopens(states, events, image);
    var n := |events|;
    states, events := states + [Next(states[n], SenderHears(p))], events + [SenderHears(p)];
  }

  // ---- a stale DATA packet ---------------------------------------------------------------------------------------

  /** Slot k has been taken by window w although w is committed already. */
  predicate Stale(rx: Rx.Rx, k: nat, w: nat) {
    && |rx.slots| == 2 && k < 2 && w % 2 == k && rx.state == Rx.Transfer
    && rx.slots[k].state != Rx.Free && rx.slots[k].win == w && w < rx.committed
  }

  /** A DATA packet of a committed window that arrives once more takes its slot if, and only if, it is free. */
  lemma StaleDataTakesIff(s: Net, p: Request)
    requires Inv(s) && Shapes(s) && p in s.requests && p.Data? && s.rx.state == Rx.Transfer && p.win < s.rx.committed
    ensures var t := Next(s, ReceiverHears(p));
            && t.rx.committed == s.rx.committed && |s.rx.slots| == 2
            && (Stale(t.rx, p.win % 2, p.win) <==>
                  s.rx.slots[p.win % 2].state == Rx.Free || s.rx.slots[p.win % 2].win == p.win)
  {
    hide Crc32.Of, WindowCount, ChunkCount, WindowBytes, TxGood, Filled, PrefixStaged, ReplyGood;
    SlotsAgree(s.rx, s.mem, s.tx.image, p.win % 2) by { RequestHonest(s, p); }
    RequestHonest(s, p);
  }

  lemma RequestHonest(s: Net, p: Request)
    requires Inv(s) && p in s.requests
    ensures Honest(s.tx.image, s.tx.imageCrc, p) && s.tx.imageCrc == Crc32.Of(s.tx.image) && Rx.WellFormed(p)
    ensures Addressable(s.tx.image) && RxGood(s.rx, s.mem, s.tx.image) && !p.Abort?
  {
    hide Crc32.Of, WindowCount, ChunkCount, WindowBytes, RxGood;
  }

  /** What a stale slot keeps, whatever happens short of a new START: it is never flashed and never
      freed, and so the next window of its parity, v, is never committed. */
  lemma StaleNext(s: Net, e: Event, k: nat, w: nat, v: nat)
    requires Inv(s) && Shapes(s) && Enabled(s, e) && !(e.ReceiverHears? && e.request.Start?)
    requires Stale(s.rx, k, w) && v % 2 == k && s.rx.committed <= v < WindowCount(|s.tx.image|)
    ensures Stale(Next(s, e).rx, k, w) && Next(s, e).rx.committed <= v
  {
    hide Crc32.Of, WindowCount, ChunkCount, WindowBytes, TxGood, RxGood, ReplyGood, Honest, Tx.Step, Tx.Handle,
         Rx.OnData, Rx.OnQuery, Rx.FlashSlot, Rx.SlotShape;
    match e {
      case ReceiverHears(p) =>
        RequestHonest(s, p);
        TotalOf(s);
        match p {
          case Data(_, _, _) => Credit.DataKeepsHold(s.rx, s.mem, s.tx.image, p);
          case Query(_, _, _) => Credit.AnswerFromSlot(s.rx, s.mem, s.tx.image, p);
          case _ =>
        }
        assert Credit.Holds(s.rx, w);
      case FlashSteps(plan) =>
        TotalOf(s);
        forall i | 0 <= i < 2 && Rx.Flashable(s.rx, i)
          ensures Stale(Rx.FlashSlot(s.rx, i, s.mem, plan).rx, k, w)
                  && Rx.FlashSlot(s.rx, i, s.mem, plan).rx.committed <= v
        {
          OtherFlashed(s, plan, i, k, w);
        }
      case _ =>
    }
  }

  lemma TotalOf(s: Net)
    requires Inv(s) && s.rx.state == Rx.Transfer
    ensures s.rx.totalWindows == WindowCount(|s.tx.image|)
  {
    hide Crc32.Of, WindowCount, SlotGood, PrefixStaged, TxGood;
    SenderAddresses(s.tx);
  }

  lemma SenderAddresses(tx: Tx.Tx)
    requires TxGood(tx)
    ensures Addressable(tx.image)
  {
    hide Crc32.Of, WindowCount, ChunkCount, WindowBytes;
  }

  /** A flash attempt concerns its own slot only. */
  lemma FlashFrame(rx: Rx.Rx, i: nat, mem: seq<byte>, plan: Rx.Plan)
    requires Rx.Shape(rx) && i < 2
    ensures var o := Rx.FlashSlot(rx, i, mem, plan);
            && |o.rx.slots| == 2 && o.rx.slots[1 - i] == rx.slots[1 - i]
            && (o.rx.state == rx.state || o.rx.state == Rx.AbortedState)
            && (o.rx.committed == rx.committed || o.rx.committed == (rx.committed + 1) % 0x1_0000)
  {
    hide Rx.FlashSlot, Rx.SlotShape;
    Rx.FlashSlotCases(rx, i, mem, plan);
  }

  lemma OtherFlashed(s: Net, plan: Rx.Plan, i: nat, k: nat, w: nat)
    requires Inv(s) && Shapes(s) && s.rx.state == Rx.Transfer && i < 2 && Rx.Flashable(s.rx, i) && Stale(s.rx, k, w)
    ensures var o := Rx.FlashSlot(s.rx, i, s.mem, plan);
            && i == 1 - k && Stale(o.rx, k, w)
            && (o.rx.committed == s.rx.committed || (o.rx.committed == s.rx.committed + 1 && s.rx.committed % 2 == i))
  {
    hide Crc32.Of, WindowCount, ChunkCount, WindowBytes, TxGood, RxGood, Rx.FlashSlot, ReplyGood, Honest, Rx.SlotShape;
    SenderAddresses(s.tx);
    ReadyWindow(s, i);
    FlashFrame(s.rx, i, s.mem, plan);
    FlashSlotGood(s.rx, i, s.mem, s.tx.image, plan);
    NeverAborted(Rx.FlashSlot(s.rx, i, s.mem, plan).rx, Rx.FlashSlot(s.rx, i, s.mem, plan).mem, s.tx.image);
  }

  lemma ReadyWindow(s: Net, i: nat)
    requires Inv(s) && s.rx.state == Rx.Transfer && i < 2 && |s.rx.slots| == 2 && Rx.Flashable(s.rx, i)
    ensures s.rx.committed % 2 == i && s.rx.committed < MAX_WINDOWS
  {
    hide Crc32.Of, WindowCount, ChunkCount, WindowBytes, TxGood, Filled, PrefixStaged, ReplyGood, Honest;
    SenderAddresses(s.tx);
    SlotsAgree(s.rx, s.mem, s.tx.image, i);
    WindowCountFacts(|s.tx.image|);
  }

  lemma NeverAborted(rx: Rx.Rx, mem: seq<byte>, image: seq<byte>)
    requires Addressable(image) && RxGood(rx, mem, image)
    ensures rx.state != Rx.AbortedState
  {
    hide Crc32.Of, WindowCount, SlotGood, PrefixStaged;
  }

  predicate NoStart(events: seq<Event>, i: nat, j: nat)
    requires i <= j <= |events|
  {
    forall n :: i <= n < j ==> !(events[n].ReceiverHears? && events[n].request.Start?)
  }

  /** Once a slot is stale it stays so until a START arrives: whatever else is delivered, resent or retried,
      the next window of its parity is never committed and the transfer never completes. */
  lemma {:induction false} StaleBlocks(states: seq<Net>, events: seq<Event>, image: seq<byte>, i: nat, j: nat, k: nat,
    w: nat, v: nat)
    requires Run(states, events, image) && i <= j < |states| && NoStart(events, i, j)
    requires Stale(states[i].rx, k, w) && v % 2 == k && states[i].rx.committed <= v < WindowCount(|image|)
    ensures Stale(states[j].rx, k, w) && states[j].rx.committed <= v && states[j].rx.state != Rx.Complete
    decreases j - i
  {
    hide Inv, Enabled, Next, Shapes, WindowCount;
    if i < j {
      StaleBlocks(states, events, image, i, j - 1, k, w, v);
      RunInv(states, events, image, j - 1);
      assert Moves(states[j - 1], events[j - 1], states[j]);
      StaleNext(states[j - 1], events[j - 1], k, w, v);
    }
  }

  // ---- stale slots are reachable -----------------------------------------------------------------------------------

  /** A slot in use was opened by a DATA packet, which the network may deliver again. */
  ghost predicate Fed(s: Net, k: nat)
    requires k < 2
  {
    |s.rx.slots| == 2 && (s.rx.slots[k].state != Rx.Free ==> DataSent(s, s.rx.slots[k].win))
  }

  ghost predicate DataSent(s: Net, w: nat) { exists p :: p in s.requests && p.Data? && p.win == w }

  lemma FedProcess(rx: Rx.Rx, p: Request, readback: bv32, k: nat)
    requires Rx.Shape(rx) && Rx.WellFormed(p) && k < 2
    ensures var t := Rx.Process(rx, p, readback).rx;
            |t.slots| == 2 && (t.slots[k].state != Rx.Free ==>
                                 (rx.slots[k].state != Rx.Free && t.slots[k].win == rx.slots[k].win)
                                 || (p.Data? && t.slots[k].win == p.win))
  {
    hide Crc32.Of, ChunkCount, WindowBytes, Rx.StoreChunk, Rx.OpenSlot, Rx.QuerySlot;
    match p {
      case Data(w, c, data) =>
        OpenedFor(rx.slots[w % 2], w, rx.totalSize);
        Rx.OpenSlotShape(rx.slots[w % 2], w, rx.totalSize);
        StoredSlot(rx.slots[w % 2], w, c, data, rx.totalSize);
      case Query(w, crc, bytes) => QueriedSlot(rx.slots[w % 2], crc, bytes);
      case _ =>
    }
  }

  lemma StoredSlot(s: Rx.Slot, w: nat, c: nat, data: seq<byte>, size: nat)
    requires Rx.SlotShape(s)
    ensures forall t: Rx.Slot | (t == s || t == Rx.OpenSlot(s, w, size)) && Rx.SlotShape(t) && c < t.total ::
              Rx.StoreChunk(t, c, data).win == t.win && Rx.StoreChunk(t, c, data).state == t.state
  {
    hide Rx.OpenSlot, Rx.SlotShape, ChunkCount;
  }

  lemma QueriedSlot(s: Rx.Slot, crc: bv32, bytes: nat)
    requires Rx.SlotShape(s) && bytes <= WINDOW
    ensures var t := Rx.QuerySlot(s, crc, bytes).0;
            t.win == s.win && (t.state == Rx.Free ==> s.state == Rx.Free)
  {
    hide Crc32.Of, ChunkCount;
  }

  lemma FedFlash(rx: Rx.Rx, mem: seq<byte>, plan: Rx.Plan, k: nat)
    requires Rx.Shape(rx) && k < 2
    ensures var t := Rx.StepFlash(rx, mem, plan).rx;
            |t.slots| == 2 && (t.slots[k].state != Rx.Free ==>
                                 rx.slots[k].state != Rx.Free && t.slots[k].win == rx.slots[k].win)
  {
    hide Rx.FlashSlot, Rx.SlotShape;
    forall i: nat | i < 2 && Rx.Flashable(rx, i)
      ensures var t := Rx.FlashSlot(rx, i, mem, plan).rx;
              |t.slots| == 2 && (t.slots[k].state != Rx.Free ==>
                                   rx.slots[k].state != Rx.Free && t.slots[k].win == rx.slots[k].win)
    {
      Rx.FlashSlotCases(rx, i, mem, plan);
    }
  }

  lemma FedNext(s: Net, e: Event, k: nat)
    requires Shapes(s) && Enabled(s, e) && k < 2 && Fed(s, k)
    ensures Fed(Next(s, e), k)
  {
    hide Tx.Step, Tx.Handle, Rx.Process, Rx.StepFlash, Rx.SlotShape, Tx.Shape;
    match e {
      case ReceiverHears(p) => FedProcess(s.rx, p, FlashCrc(s.mem, s.rx.config.stagingOffset, s.rx.totalSize), k);
      case FlashSteps(plan) => FedFlash(s.rx, s.mem, plan, k);
      case _ => assert s.requests <= Next(s, e).requests;
    }
  }

  lemma {:induction false} RunFed(states: seq<Net>, events: seq<Event>, image: seq<byte>, i: nat, k: nat)
    requires Run(states, events, image) && i < |states| && k < 2
    ensures Fed(states[i], k)
  {
    hide Enabled, Next, Shapes, Fed;
    if i == 0 {
      StartFed(states[0], image, k);
    } else {
      RunFed(states, events, image, i - 1, k);
      assert Moves(states[i - 1], events[i - 1], states[i]);
      FedNext(states[i - 1], events[i - 1], k);
    }
  }

  lemma StartFed(s: Net, image: seq<byte>, k: nat)
    requires Init(s, image) && k < 2
    ensures Fed(s, k)
  {
    hide Crc32.Of, WindowCount, Rx.SlotShape;
    assert k == 0 || k == 1;
  }

  /** The first commit frees slot 0 for a stale packet. */
  lemma FirstCommit(s: Net, e: Event)
    requires Inv(s) && Shapes(s) && Enabled(s, e) && s.rx.committed == 0 && Next(s, e).rx.committed > 0
    requires Fed(s, 0)
    ensures var t := Next(s, e).rx;
            |t.slots| == 2 && t.slots[0].state == Rx.Free && t.committed == 1 && t.state == Rx.Transfer
            && DataSent(Next(s, e), 0)
  {
    hide Crc32.Of, WindowCount, ChunkCount, WindowBytes, TxGood, RxGood, ReplyGood, Honest, Tx.Step, Tx.Handle,
         Rx.Process, Rx.FlashSlot, Rx.SlotShape;
    match e {
      case ReceiverHears(p) =>
        ProcessNotMore(s.rx, p, FlashCrc(s.mem, s.rx.config.stagingOffset, s.rx.totalSize));
      case FlashSteps(plan) =>
        var i := if Rx.Flashable(s.rx, 0) then 0 else 1;
        ReadyWindow(s, i);
        CommitFrees(s.rx, i, s.mem, plan);
      case _ =>
    }
  }

  lemma ProcessNotMore(rx: Rx.Rx, p: Request, readback: bv32)
    requires Rx.Shape(rx) && Rx.WellFormed(p)
    ensures Rx.Process(rx, p, readback).rx.committed <= rx.committed
  {
    hide Crc32.Of, ChunkCount, Rx.SlotShape, Rx.QuerySlot, Rx.StoreChunk, Rx.OpenSlot;
  }

  lemma CommitFrees(rx: Rx.Rx, i: nat, mem: seq<byte>, plan: Rx.Plan)
    requires Rx.Shape(rx) && i < 2 && Rx.FlashSlot(rx, i, mem, plan).rx.committed != rx.committed
    ensures var t := Rx.FlashSlot(rx, i, mem, plan).rx;
            |t.slots| == 2 && t.slots[i].state == Rx.Free && t.state == rx.state
              && t.committed == (rx.committed + 1) % 0x1_0000
  {
    hide Rx.FlashSlot, Rx.SlotShape;
    Rx.FlashSlotCases(rx, i, mem, plan);
  }

  /** A run that commits anything passes a state from which slot 0 can go stale. */
  lemma {:induction false} PassesFirstCommit(states: seq<Net>, events: seq<Event>, image: seq<byte>, i: nat)
    returns (j: nat)
    requires Run(states, events, image) && i < |states| && states[i].rx.committed > 0
    ensures j <= i && |states[j].rx.slots| == 2 && states[j].rx.slots[0].state == Rx.Free
    ensures states[j].rx.committed == 1 && states[j].rx.state == Rx.Transfer && DataSent(states[j], 0)
  {
    hide Enabled, Next, Shapes, Fed, Inv, DataSent;
    if i == 0 {
      assert false;
    } else {
      assert Moves(states[i - 1], events[i - 1], states[i]);
      if states[i - 1].rx.committed > 0 {
        j := PassesFirstCommit(states, events, image, i - 1);
      } else {
        RunInv(states, events, image, i - 1);
        RunFed(states, events, image, i - 1, 0);
        FirstCommit(states[i - 1], events[i - 1]);
        j := i;
      }
    }
  }

  lemma Prefix(states: seq<Net>, events: seq<Event>, image: seq<byte>, n: nat)
    requires Run(states, events, image) && n <= |events|
    ensures Run(states[..n + 1], events[..n], image)
  {
    hide Enabled, Next, Shapes, Init;
    forall i | 0 <= i < n ensures Moves(states[..n + 1][i], events[..n][i], states[..n + 1][i + 1]) {
      assert Moves(states[i], events[i], states[i + 1]);
    }
  }

  /** For every image of at least three windows that can be transferred there is a run that ends with slot 0
      taken by window 0 again, so that window 2 is never committed (StaleBlocks). */
  lemma StaleRun(l: Link.Link, image: seq<byte>) returns (states: seq<Net>, events: seq<Event>)
    requires Link.Init(l, image) && Link.Paced(l.rx.config, |image|) && WindowCount(|image|) >= 3
    ensures Run(states, events, image) && Stale(states[|events|].rx, 0, 0) && states[|events|].rx.committed == 1
  {
    hide Link.Init, Link.Paced, Init, Moves, Next, Shapes, Inv, WindowCount, Enabled;
    states, events := CompleteRun(l, image);
    var n := |events|;
    RunInv(states, events, image, n);
    AllCommitted(states[n]);
    var j := PassesFirstCommit(states, events, image, n);
    Prefix(states, events, image, j);
    states, events := states[..j + 1], events[..j];
    var s := states[j];
    RunInv(states, events, image, j);
    ReachableShapes(states, events, image, j);
    var p :| p in s.requests && p.Data? && p.win == 0;
    HearsSent(s, p);
    StaleDataTakesIff(s, p);
    Extend(states, events, image, ReceiverHears(p));
    states, events := states + [Next(s, ReceiverHears(p))], events + [ReceiverHears(p)];
  }

  lemma HearsSent(s: Net, p: Request)
    requires p in s.requests
    ensures Enabled(s, ReceiverHears(p))
  {
  }

  lemma AllCommitted(s: Net)
    requires Inv(s) && s.rx.state == Rx.Complete
    ensures s.rx.committed == WindowCount(|s.tx.image|)
  {
    hide Crc32.Of, WindowCount, SlotGood, PrefixStaged, TxGood;
    SenderAddresses(s.tx);
  }

  // ---- late queries ----------------------------------------------------------------------------------------------

  /** A query is answered "all missing" whenever its window is not, or no longer, in its slot. */
  lemma ElsewhereAllMissing(s: Net, p: Request)
    requires Inv(s) && Shapes(s) && p in s.requests && p.Query? && s.rx.state == Rx.Transfer
    requires s.rx.slots[p.win % 2].state == Rx.Free || s.rx.slots[p.win % 2].win != p.win
    ensures var o := Rx.OnQuery(s.rx, p);
            && o.rx == s.rx && |o.replies| == 1 && o.replies[0].QueryResp? && o.replies[0].win == p.win
            && o.replies[0].missing == ChunkCount(WindowBytes(|s.tx.image|, p.win)) > 0
  {
    hide Crc32.Of, WindowCount, ChunkCount, WindowBytes, Rx.SlotShape;
    RequestHonest(s, p);
    WindowFacts(|s.tx.image|, p.win);
  }

  /** A query for the window of a slot that has given up makes it ready again, its retries spent. */
  lemma QueryRevivesError(s: Net, p: Request)
    requires Inv(s) && Shapes(s) && p in s.requests && p.Query? && s.rx.state == Rx.Transfer
    requires s.rx.slots[p.win % 2].state == Rx.Error && s.rx.slots[p.win % 2].win == p.win
    ensures var t, t' := s.rx.slots[p.win % 2], Next(s, ReceiverHears(p)).rx.slots[p.win % 2];
            t'.state == Rx.ReadyToFlash && t'.win == p.win && t'.retries == t.retries
  {
    hide Crc32.Of, WindowCount, ChunkCount, WindowBytes, Filled, PrefixStaged, TxGood, ReplyGood, Rx.QuerySlot;
    RequestHonest(s, p);
    SlotsAgree(s.rx, s.mem, s.tx.image, p.win % 2);
    QuerySlotGood(s.rx.slots[p.win % 2], p.win % 2, s.tx.image);
  }
}
