/** What each machine may and must do with one packet, one timeout or one flash attempt, whatever state it is
    in: the refusals, the error answers and the branches an honest transfer never takes. */
module OtaRules {
  import opened Bytes
  import opened OtaProtocol
  import opened FlashMemory
  import Crc32
  import Rx = OtaReceiver
  import Tx = OtaSender

  // ---- the receiver and START ------------------------------------------------------------------------------

  /** What START must say to be accepted. */
  predicate Startable(config: Rx.Config, p: Request)
    requires p.Start?
  {
    p.magic == 0x4F54 && 0 < p.totalSize && (config.stagingMax == 0 || p.totalSize <= config.stagingMax)
  }

  predicate Untouched(s: Rx.Slot) {
    s.state == Rx.Free && s.received == 0 && s.retries == 0 && s.bitmap == Rep(false, 536)
  }

  /** START is always answered once; only an acceptable one is answered with OK and credit, and begins a
      transfer with nothing received and nothing committed. A refused one changes nothing. */
  lemma StartAnswered(rx: Rx.Rx, p: Request, readback: bv32)
    requires p.Start? && Rx.Shape(rx)
    ensures var o := Rx.Process(rx, p, readback);
            && o.result && |o.replies| == 1 && o.replies[0].StartAck?
            && (o.replies[0].status == Ok <==> Startable(rx.config, p))
            && (!Startable(rx.config, p) ==>
                  && o.rx == rx && o.replies[0].credit == 0
                  && o.replies[0].status == (if p.magic != 0x4F54 then ErrMagic else ErrSize))
            && (Startable(rx.config, p) ==>
                  && o.replies[0].credit == (if rx.config.initialCredits == 0 then 1 else rx.config.initialCredits)
                  && o.rx.state == Rx.Transfer && o.rx.committed == 0 && o.rx.config == rx.config
                  && o.rx.totalSize == p.totalSize && o.rx.imageCrc == p.imageCrc && o.rx.totalWindows == p.totalWindows
                  && |o.rx.slots| == 2 && Untouched(o.rx.slots[0]) && Untouched(o.rx.slots[1])
                  && o.rx.slots[0].buffer == rx.slots[0].buffer && o.rx.slots[1].buffer == rx.slots[1].buffer)
  {
    hide ChunkCount;
  }

  /** Outside a transfer a receiver hears nothing but START and ABORT. */
  lemma DeafOutsideTransfer(rx: Rx.Rx, p: Request, readback: bv32, mem: seq<byte>, plan: Rx.Plan)
    requires rx.state != Rx.Transfer && Rx.Shape(rx) && Rx.WellFormed(p)
    ensures !p.Start? && !p.Abort? ==> Rx.Process(rx, p, readback) == Rx.Outcome(rx, [], false)
    ensures Rx.StepFlash(rx, mem, plan) == Rx.FlashOutcome(rx, mem, [], false)
  {
    hide ChunkCount, Rx.SlotShape, Rx.FlashSlot, Rx.QuerySlot, Rx.StoreChunk, Rx.OpenSlot;
  }

  lemma AbortStops(rx: Rx.Rx, readback: bv32)
    requires Rx.Shape(rx)
    ensures Rx.Process(rx, Abort, readback) == Rx.Outcome(rx.(state := Rx.AbortedState), [], true)
  {
  }

  // ---- DATA ------------------------------------------------------------------------------------------------

  /** The slot is free for a window, or finished with an older one. */
  predicate Vacant(s: Rx.Slot, w: nat) { s.state == Rx.Free || (s.state == Rx.Committed && s.win != w) }

  /** The chunks a window has. */
  function Chunks(size: nat, w: nat): nat { ChunkCount(WindowBytes(size, w)) }

  /** A DATA packet is taken if and only if its slot is vacant and the chunk is one of the window, or the slot
      is filling or full with this very window and the chunk is one of its chunks. It is never answered. */
  lemma DataTakenIff(rx: Rx.Rx, p: Request, readback: bv32)
    requires p.Data? && Rx.Shape(rx) && rx.state == Rx.Transfer
    ensures var o, s := Rx.Process(rx, p, readback), rx.slots[p.win % 2];
            && o.replies == []
            && (o.result <==>
                  if Vacant(s, p.win) then p.chunk < Chunks(rx.totalSize, p.win)
                  else s.win == p.win && (s.state == Rx.Receiving || s.state == Rx.ReadyToFlash) && p.chunk < s.total)
            && (!o.result && !Vacant(s, p.win) ==> o.rx == rx)
  {
    hide ChunkCount, WindowBytes, Rx.StoreChunk, Rx.SlotShape;
  }

  /** What a DATA packet that is taken does: a chunk already there changes nothing, a new one is marked,
      counted and copied, cut at the end of the window, and the other slot is left alone. */
  lemma DataStored(rx: Rx.Rx, p: Request, readback: bv32)
    requires p.Data? && Rx.Shape(rx) && rx.state == Rx.Transfer && Rx.Process(rx, p, readback).result
    requires !Vacant(rx.slots[p.win % 2], p.win)
    ensures var o, s := Rx.Process(rx, p, readback), rx.slots[p.win % 2];
            var t := o.rx.slots[p.win % 2];
            && p.chunk < |s.bitmap|
            && (s.bitmap[p.chunk] ==> o.rx == rx)
            && (!s.bitmap[p.chunk] ==>
                  && o.rx == rx.(slots := rx.slots[p.win % 2 := t])
                  && t == s.(bitmap := s.bitmap[p.chunk := true], received := s.received + 1, buffer := t.buffer)
                  && |t.buffer| == |s.buffer|
                  && forall k :: 0 <= k < |s.buffer| ==>
                       t.buffer[k] == if 124 * p.chunk <= k < s.winBytes && k < 124 * p.chunk + |p.data|
                                      then p.data[k - 124 * p.chunk] else s.buffer[k])
  {
    hide ChunkCount, WindowBytes;
    var s := rx.slots[p.win % 2];
    ChunkFacts(s.winBytes, p.chunk);
  }

  /** A vacant slot is opened for the window, empty, before its first chunk goes in. */
  lemma VacantOpened(rx: Rx.Rx, p: Request, readback: bv32)
    requires p.Data? && Rx.Shape(rx) && rx.state == Rx.Transfer && Vacant(rx.slots[p.win % 2], p.win)
    ensures var t := Rx.Process(rx, p, readback).rx.slots[p.win % 2];
            && t.state == Rx.Receiving && t.win == p.win && t.winBytes == WindowBytes(rx.totalSize, p.win)
            && t.total == Chunks(rx.totalSize, p.win) && t.retries == 0 && |t.bitmap| == 536
            && t.received == (if p.chunk < t.total then 1 else 0)
            && forall b :: 0 <= b < 536 ==> t.bitmap[b] == (b == p.chunk && p.chunk < t.total)
  {
    hide ChunkCount, WindowBytes;
    var bytes := WindowBytes(rx.totalSize, p.win);
    WindowAtMost(rx.totalSize, p.win);
    if p.chunk < ChunkCount(bytes) { ChunkFacts(bytes, p.chunk); }
  }

  lemma WindowAtMost(size: nat, w: nat)
    ensures WindowBytes(size, w) <= WINDOW
  {
  }

  // ---- QUERY -------------------------------------------------------------------------------------------------

  /** The verdict of a query on the window its slot holds: nothing is reported missing if and only if every
      chunk is there and their CRC is the one asked for. Chunks that do not match it are all forgotten. */
  lemma QueryVerdict(s: Rx.Slot, crc: bv32, bytes: nat)
    requires Rx.SlotShape(s) && 0 < bytes <= WINDOW
    ensures var (t, missing) := Rx.QuerySlot(s, crc, bytes);
            var total := ChunkCount(bytes);
            && total <= 529 && 0 < total
            && missing == Missing(t.bitmap, total)
            && (missing == 0 <==> (forall b :: 0 <= b < total ==> s.bitmap[b]) && Crc32.Of(s.buffer[..bytes]) == crc)
            && t.state == (if missing == 0 then Rx.ReadyToFlash else s.state)
            && t.win == s.win && t.buffer == s.buffer && t.retries == s.retries
            && t.expectedCrc == crc && t.winBytes == bytes && t.total == total
            && (if (forall b :: 0 <= b < total ==> s.bitmap[b]) && Crc32.Of(s.buffer[..bytes]) != crc
                then t.bitmap == Rep(false, 536) && t.received == 0
                else t.bitmap == s.bitmap && t.received == s.received)
  {
    hide Crc32.Of, ChunkCount;
    BytesHaveChunks(bytes);
    var total := ChunkCount(bytes);
    MissingBound(s.bitmap, total);
    MissingBound(NoBits(), total);
  }

  lemma BytesHaveChunks(bytes: nat)
    requires 0 < bytes <= WINDOW
    ensures 0 < ChunkCount(bytes) <= 529
  {
    ChunksFit(bytes);
    assert (bytes + CHUNK - 1) / CHUNK >= 1;
  }

  /** A query during a transfer is answered once, about the window asked for, with the bitmap of the slot as the
      query leaves it, or with all chunks missing when the slot does not hold that window. */
  lemma QueryAnsweredOnce(rx: Rx.Rx, p: Request, readback: bv32)
    requires p.Query? && Rx.Shape(rx) && 0 < p.winBytes <= WINDOW && rx.state == Rx.Transfer
    ensures var o, s := Rx.Process(rx, p, readback), rx.slots[p.win % 2];
            var total := ChunkCount(p.winBytes);
            && o.result && |o.replies| == 1 && o.replies[0].QueryResp? && o.replies[0].win == p.win
            && total <= |o.replies[0].bitmap| <= 536
            && (if s.state == Rx.Free || s.win != p.win then
                  o.rx == rx && o.replies[0].missing == total
                    && o.replies[0].bitmap == Rep(false, |o.replies[0].bitmap|)
                else
                  var (t, missing) := Rx.QuerySlot(s, p.winCrc, p.winBytes);
                  && o.rx == rx.(slots := rx.slots[p.win % 2 := t])
                  && o.replies[0].missing == missing && o.replies[0].bitmap <= t.bitmap)
  {
    hide ChunkCount, Rx.QuerySlot;
    BytesHaveChunks(p.winBytes);
    QueryVerdict(rx.slots[p.win % 2], p.winCrc, p.winBytes);
    Rx.QuerySlotShape(rx.slots[p.win % 2], p.winCrc, p.winBytes);
  }

  // ---- FINALIZE ----------------------------------------------------------------------------------------------

  /** The final verdict: too early with windows missing, and no state changes; success exactly when the CRC
      read back is the image's, else the transfer is over. */
  lemma FinalVerdict(rx: Rx.Rx, p: Request, readback: bv32)
    requires p.Finalize? && Rx.Shape(rx) && rx.state == Rx.Transfer
    ensures var o := Rx.Process(rx, p, readback);
            && o.result && |o.replies| == 1 && o.replies[0].Report? && o.rx == rx.(state := o.rx.state)
            && (o.rx.state == Rx.Complete <==> rx.totalWindows <= rx.committed && readback == rx.imageCrc)
            && (o.rx.state == Rx.AbortedState <==> rx.totalWindows <= rx.committed && readback != rx.imageCrc)
            && (o.replies[0].status == Ok <==> o.rx.state == Rx.Complete)
            && (o.replies[0].status == ErrCrcMismatch <==> o.rx.state == Rx.AbortedState)
            && (o.rx.state == Rx.Transfer ==> o.replies[0] == Report(ErrSize, 0))
            && (o.rx.state != Rx.Transfer ==> o.replies[0].stagedCrc == readback)
  {
  }

  // ---- the flash step ------------------------------------------------------------------------------------------

  predicate Beyond(rx: Rx.Rx, s: Rx.Slot) {
    rx.config.stagingMax > 0 && s.win * 65536 + s.winBytes > rx.config.stagingMax
  }

  predicate EraseWorks(rx: Rx.Rx, s: Rx.Slot, memory: nat, plan: Rx.Plan) {
    !plan.eraseFails && EraseAccepted(rx.config.port, memory, rx.config.stagingOffset + s.win * 65536, 65536)
  }

  predicate ProgramWorks(rx: Rx.Rx, s: Rx.Slot, memory: nat, plan: Rx.Plan) {
    !plan.programFails && ProgramAccepted(rx.config.port, memory, rx.config.stagingOffset + s.win * 65536, s.winBytes)
  }

  /** What reading back the freshly written window reports. */
  function ReadAfter(s: Rx.Slot, plan: Rx.Plan): bv32
    requires s.winBytes <= |s.buffer|
  {
    if plan.garbled then plan.misread else Crc32.Of(s.buffer[..s.winBytes])
  }

  predicate Verifies(rx: Rx.Rx, s: Rx.Slot, memory: nat, plan: Rx.Plan)
    requires s.winBytes <= |s.buffer|
  {
    EraseWorks(rx, s, memory, plan) && ProgramWorks(rx, s, memory, plan) && ReadAfter(s, plan) == s.expectedCrc
  }

  /** Failed attempts on the slot, this one included, in 8 bits. */
  function Failures(s: Rx.Slot): nat { (s.retries + 1) % 256 }

  /** The operation that failed first. */
  function Fault(rx: Rx.Rx, s: Rx.Slot, memory: nat, plan: Rx.Plan): (status: Status)
    ensures status != Ok
  {
    if !EraseWorks(rx, s, memory, plan) then ErrErase
    else if !ProgramWorks(rx, s, memory, plan) then ErrProgram
    else ErrVerify
  }

  /** One attempt on a slot. A window that reaches beyond the staging area ends the transfer without touching
      flash. Otherwise the window is committed if and only if erase, program and read-back all succeed; the third
      failure, and no earlier one, gives the slot up and says which operation failed. Success is announced only
      for the window committed. */
  lemma AttemptVerdict(rx: Rx.Rx, i: nat, mem: seq<byte>, plan: Rx.Plan)
    requires Rx.Shape(rx) && i < 2 && rx.slots[i].win < 256 && rx.committed < 0xFFFF
    ensures var o, s := Rx.FlashSlot(rx, i, mem, plan), rx.slots[i];
            var t := if |o.rx.slots| == 2 then o.rx.slots[i] else s;
            && |s.buffer| == 65536 && s.winBytes <= 65536
            && o.rx == rx.(slots := rx.slots[i := t], state := o.rx.state, committed := o.rx.committed)
            && (if Beyond(rx, s) then
                  && t == s.(state := Rx.Error) && o.rx.state == Rx.AbortedState && o.mem == mem
                  && o.rx.committed == rx.committed && o.replies == [Ready(s.win, ErrSize, 0)]
                else if Verifies(rx, s, |mem|, plan) then
                  && t == s.(state := Rx.Free) && o.rx.state == rx.state
                  && o.rx.committed == rx.committed + 1 && o.replies == [Ready(s.win, Ok, 1)]
                else
                  && t == s.(retries := Failures(s), state := if Failures(s) < 3 then Rx.ReadyToFlash else Rx.Error)
                  && o.rx.state == rx.state && o.rx.committed == rx.committed
                  && o.replies == if Failures(s) < 3 then [] else [Ready(s.win, Fault(rx, s, |mem|, plan), 0)])
  {
    hide Crc32.Of, ChunkCount, Program, Erase, Rx.Clobber, Rx.FlashFailed, EraseAccepted, ProgramAccepted;
    var s := rx.slots[i];
    FailedAttempt(rx, i);
    if EraseWorks(rx, s, |mem|, plan) && ProgramWorks(rx, s, |mem|, plan) { WrittenReadsBack(rx, s, mem); }
  }

  lemma FailedAttempt(rx: Rx.Rx, i: nat)
    requires |rx.slots| == 2 && i < 2 && rx.slots[i].win < 256
    ensures forall mem: seq<byte>, status ::
              var o, s := Rx.FlashFailed(rx, i, mem, status), rx.slots[i];
              && o.rx == rx.(slots := rx.slots[i := s.(retries := Failures(s),
                                                      state := if Failures(s) < 3 then Rx.ReadyToFlash else Rx.Error)])
              && o.mem == mem && o.replies == if Failures(s) < 3 then [] else [Ready(s.win, status, 0)]
  {
  }

  lemma WrittenReadsBack(rx: Rx.Rx, s: Rx.Slot, mem: seq<byte>)
    requires Rx.SlotShape(s)
    requires var offset := rx.config.stagingOffset + s.win * 65536;
             EraseAccepted(rx.config.port, |mem|, offset, 65536)
               && ProgramAccepted(rx.config.port, |mem|, offset, s.winBytes)
    ensures var offset := rx.config.stagingOffset + s.win * 65536;
            && offset + 65536 <= |mem|
            && Program(Erase(mem, offset, WINDOW), offset, s.buffer[..s.winBytes])[offset..offset + s.winBytes]
               == s.buffer[..s.winBytes]
  {
    hide Program, Erase, ChunkCount;
    ProgramErased(mem, rx.config.stagingOffset + s.win * 65536, WINDOW, s.buffer[..s.winBytes]);
  }

  /** No attempt touches flash outside the 64 KB block of its window. */
  lemma AttemptStaysInBlock(rx: Rx.Rx, i: nat, mem: seq<byte>, plan: Rx.Plan)
    requires Rx.Shape(rx) && i < 2
    ensures var o, offset := Rx.FlashSlot(rx, i, mem, plan), rx.config.stagingOffset + rx.slots[i].win * 65536;
            && |o.mem| == |mem|
            && forall k :: 0 <= k < |mem| && !(offset <= k < offset + 65536) ==> o.mem[k] == mem[k]
  {
    hide Crc32.Of, ChunkCount, Rx.FlashFailed, Program, Erase, EraseAccepted, ProgramAccepted;
    Rx.FlashFailedIs(rx, i);
    var s, offset := rx.slots[i], Rx.FlashOffset(rx, rx.slots[i]);
    if EraseAccepted(rx.config.port, |mem|, offset, WINDOW)
      && ProgramAccepted(rx.config.port, |mem|, offset, s.winBytes) {
      WrittenReadsBack(rx, s, mem);
      ProgramErased(mem, offset, WINDOW, s.buffer[..s.winBytes]);
    }
  }

  // ---- what a reply may do to the sender -------------------------------------------------------------------------

  /** The replies a sender takes notice of. */
  predicate Concerns(tx: Tx.Tx, p: Reply) {
    match p
    case StartAck(_, _) => tx.state == Tx.Starting
    case QueryResp(w, _, _) => tx.state == Tx.Querying && w == tx.sendWin
    case Report(_, _) => tx.state == Tx.Finalizing
    case _ => true
  }

  /** The sender's arrays have the sizes of the C struct. */
  predicate Sized(tx: Tx.Tx) { |tx.bitmap| == 536 && tx.total <= 536 }

  predicate Carries(p: Reply) { p.QueryResp? ==> |p.bitmap| <= 536 }

  /** Any other reply, late, repeated or about another window, changes nothing and is not answered. */
  lemma OthersIgnored(tx: Tx.Tx, p: Reply)
    requires Sized(tx) && Carries(p) && !Concerns(tx, p)
    ensures Tx.Handle(tx, p) == Tx.Outcome(tx, [], false)
  {
  }

  /** What an answer to the outstanding query does: with chunks missing the same window is resent, and only
      with none missing does the sender count the window as sent, spend a credit and start the next one if there
      is one and a credit is left. */
  lemma AnswerMoves(tx: Tx.Tx, p: Reply)
    requires Sized(tx) && p.QueryResp? && |p.bitmap| <= 536
    requires tx.state == Tx.Querying && p.win == tx.sendWin < 0xFFFF && -0x8000 < tx.credits
    ensures var o := Tx.Handle(tx, p);
            && o.result && o.sent == []
            && o.tx.commitWin == tx.commitWin && o.tx.totalWindows == tx.totalWindows && o.tx.image == tx.image
            && (p.missing > 0 ==>
                  && o.tx.state == Tx.Retransmit && o.tx.sendWin == tx.sendWin && o.tx.credits == tx.credits
                  && o.tx.remaining == p.missing && o.tx.nextChunk == 0 && |o.tx.bitmap| == 536
                  && p.bitmap <= o.tx.bitmap && o.tx.bitmap[|p.bitmap|..] == tx.bitmap[|p.bitmap|..])
            && (p.missing == 0 ==>
                  && o.tx.sendWin == tx.sendWin + 1 && (tx.credits < 0x8000 ==> o.tx.credits == tx.credits - 1)
                  && o.tx.retries == 0
                  && (o.tx.state == Tx.SendWindow <==> o.tx.sendWin < o.tx.totalWindows && o.tx.credits > 0)
                  && (o.tx.state != Tx.SendWindow ==> o.tx.state == Tx.WaitReady)
                  && (o.tx.state == Tx.SendWindow ==> FreshWindow(o.tx, tx.sendWin + 1)))
  {
    hide Crc32.Of, ChunkCount, WindowBytes;
  }

  /** The window is set up from its first byte on. */
  ghost predicate FreshWindow(tx: Tx.Tx, w: nat) {
    && tx.sendWin == w && tx.chunk == 0 && tx.winBytes == WindowBytes(|tx.image|, w)
    && tx.total == ChunkCount(WindowBytes(|tx.image|, w))
    && (w * 65536 <= |tx.image| ==> tx.winCrc == Crc32.Of(tx.image[w * 65536..w * 65536 + tx.winBytes]))
  }

  /** Only an answer to the outstanding query about the window being sent moves the sender, and it passes a
      window only when nothing of it is missing. */
  lemma OnlyItsAnswerMoves(tx: Tx.Tx, p: Reply)
    requires Sized(tx) && p.QueryResp? && |p.bitmap| <= 536
    ensures Tx.Handle(tx, p).tx != tx ==> tx.state == Tx.Querying && p.win == tx.sendWin
    ensures Tx.Handle(tx, p).tx.sendWin != tx.sendWin ==> p.missing == 0
  {
    hide Crc32.Of, ChunkCount, WindowBytes;
  }

  /** START_ACK: a refusal fails the sender, an acceptance grants the credit and starts the window. */
  lemma StartAckMoves(tx: Tx.Tx, p: Reply)
    requires Sized(tx) && p.StartAck? && tx.state == Tx.Starting
    ensures var o := Tx.Handle(tx, p);
            && o.result && o.sent == [] && o.tx.totalWindows == tx.totalWindows && o.tx.image == tx.image
            && (p.status != Ok ==> o.tx == tx.(state := Tx.Failed))
            && (p.status == Ok ==>
                  && o.tx.state == Tx.SendWindow && FreshWindow(o.tx, tx.sendWin) && o.tx.retries == 0
                  && o.tx.commitWin == tx.commitWin && (p.credit < 0x8000 ==> o.tx.credits == p.credit))
  {
    hide Crc32.Of, ChunkCount, WindowBytes;
  }

  /** READY: a failure fails the sender in any state. A success gives back credit and counts the window as
      committed; after the last one the sender asks for the final verdict, and a sender that was waiting goes on. */
  lemma ReadyMoves(tx: Tx.Tx, p: Reply)
    requires Sized(tx) && p.Ready? && p.win < 256
    ensures var o := Tx.Handle(tx, p);
            && o.result && o.tx.sendWin == tx.sendWin && o.tx.totalWindows == tx.totalWindows && o.tx.image == tx.image
            && (p.status != Ok ==> o.tx == tx.(state := Tx.Failed) && o.sent == [])
            && (p.status == Ok ==>
                  && o.tx.commitWin == p.win + 1
                  && (-0x8000 <= tx.credits + p.credit < 0x8000 ==> o.tx.credits == tx.credits + p.credit)
                  && (if p.win + 1 == tx.totalWindows then
                        o.tx.state == Tx.Finalizing && o.tx.retries == 0 && o.sent == [Finalize(tx.imageCrc)]
                      else
                        && o.sent == []
                        && (if tx.state == Tx.WaitReady && tx.sendWin < tx.totalWindows
                            then o.tx.state == Tx.SendWindow && FreshWindow(o.tx, tx.sendWin)
                            else o.tx.state == tx.state && o.tx.chunk == tx.chunk && o.tx.retries == tx.retries)))
  {
    hide Crc32.Of, ChunkCount, WindowBytes;
  }

  /** STATUS and ABORT: the transfer has succeeded only if the receiver says so and reports the image's CRC. */
  lemma VerdictMoves(tx: Tx.Tx, p: Reply)
    requires Sized(tx)
    ensures p.Report? && tx.state == Tx.Finalizing ==>
              Tx.Handle(tx, p) == Tx.Outcome(
                tx.(state := if p.status == Ok && p.stagedCrc == tx.imageCrc then Tx.Complete else Tx.Failed), [], true)
    ensures p.Aborted? ==> Tx.Handle(tx, p) == Tx.Outcome(tx.(state := Tx.Failed), [], true)
  {
  }

  /** A round whose map shows no more chunks missing, whatever its counter says, ends with the query. */
  lemma RoundEnds(tx: Tx.Tx, expired: bool)
    requires Sized(tx) && tx.state == Tx.Retransmit && tx.nextChunk <= tx.total
    requires forall c :: tx.nextChunk <= c < tx.total ==> tx.bitmap[c]
    ensures Tx.Step(tx, expired)
            == Tx.Outcome(tx.(remaining := 0, state := Tx.Querying, retries := 0),
                          [Query(tx.sendWin % 256, tx.winCrc, tx.winBytes)], true)
  {
    NextMissingFirst(tx.bitmap, tx.nextChunk, tx.total);
    assert Tx.ResendChunks(tx, 32) == (tx.(remaining := 0), []);
    assert [] + [Tx.QueryPacket(tx.(remaining := 0))] == [Tx.QueryPacket(tx)];
  }

  // ---- what time does to the sender -------------------------------------------------------------------------------

  predicate Retrying(tx: Tx.Tx) { tx.state == Tx.Starting || tx.state == Tx.Querying || tx.state == Tx.Finalizing }

  /** The packet whose answer the sender waits for: the START, the query of the window being sent, or FINALIZE. */
  function Outstanding(tx: Tx.Tx): Request
    requires Retrying(tx)
  {
    match tx.state
    case Starting => Request.Start(0x4F54, |tx.image|, tx.imageCrc, tx.totalWindows)
    case Querying => Query(tx.sendWin % 256, tx.winCrc, tx.winBytes)
    case _ => Finalize(tx.imageCrc)
  }

  /** Up to ten times an expired timeout resends exactly the packet whose answer is outstanding and counts; the
      next one fails the sender and sends nothing. */
  lemma ExpiredResends(tx: Tx.Tx)
    requires Sized(tx) && Retrying(tx) && tx.retries < 255
    ensures Tx.Step(tx, true) ==
            if tx.retries < 10 then Tx.Outcome(tx.(retries := tx.retries + 1), [Outstanding(tx)], true)
            else Tx.Outcome(tx.(retries := tx.retries + 1, state := Tx.Failed), [], false)
  {
    hide Tx.SendChunks, Tx.ResendChunks;
  }

  /** A sender that waits for READY gives up at the first expiry, and no state that waits does anything before. */
  lemma WaitsQuietly(tx: Tx.Tx)
    requires Sized(tx)
    ensures Retrying(tx) || tx.state == Tx.WaitReady ==> Tx.Step(tx, false) == Tx.Outcome(tx, [], true)
    ensures tx.state == Tx.WaitReady ==> Tx.Step(tx, true) == Tx.Outcome(tx.(state := Tx.Failed), [], false)
    ensures tx.state == Tx.Idle || tx.state == Tx.Complete || tx.state == Tx.Failed ==>
              forall expired :: Tx.Step(tx, expired) == Tx.Outcome(tx, [], false)
  {
    hide Tx.SendChunks, Tx.ResendChunks;
  }

  /** Timeouts mean nothing while there is something to send, and asking a new question starts the count anew. */
  lemma BusyIgnoresTime(tx: Tx.Tx)
    requires Sized(tx) && (tx.state == Tx.SendWindow || tx.state == Tx.Retransmit)
    ensures Tx.Step(tx, true) == Tx.Step(tx, false) && Tx.Step(tx, false).result
    ensures var t := Tx.Step(tx, false).tx; t.state == tx.state || (t.state == Tx.Querying && t.retries == 0)
  {
    hide Tx.DataPacket;
    BatchState(tx, 32);
    ResendState(tx, 32);
  }

  lemma {:induction false} BatchState(tx: Tx.Tx, n: nat)
    ensures Tx.SendChunks(tx, n).0.state == tx.state
    decreases n
  {
    if n > 0 && tx.chunk < tx.total { BatchState(tx.(chunk := tx.chunk + 1), n - 1); }
  }

  lemma {:induction false} ResendState(tx: Tx.Tx, n: nat)
    requires Sized(tx)
    ensures Tx.ResendChunks(tx, n).0.state == tx.state
    decreases n
  {
    if n > 0 && tx.remaining > 0 {
      var c := NextMissing(tx.bitmap, tx.nextChunk, tx.total);
      if c < tx.total {
        ResendState(tx.(bitmap := tx.bitmap[c := true], nextChunk := c + 1, remaining := tx.remaining - 1), n - 1);
      }
    }
  }
}
