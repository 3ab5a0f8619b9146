/** The receiver state machine of ota/ota_receiver.c as functions on its state. */
module OtaReceiver {
  import opened Bytes
  import opened OtaProtocol
  import opened FlashMemory
  import Crc32

  datatype SlotState = Free | Receiving | ReadyToFlash | Flashing | Committed | Error

  datatype Slot = Slot(
    state: SlotState, win: nat, total: nat, winBytes: nat, expectedCrc: bv32,
    received: nat, retries: nat, bitmap: seq<bool>, buffer: seq<byte>)

  datatype State = Idle | Transfer | Complete | AbortedState

  datatype Config = Config(stagingOffset: nat, stagingMax: nat, initialCredits: nat, port: Port)

  datatype Rx = Rx(
    config: Config, state: State, totalSize: nat, imageCrc: bv32, totalWindows: nat,
    committed: nat, slots: seq<Slot>)

  /** The new state, the packets sent, and the function's boolean result. */
  datatype Outcome = Outcome(rx: Rx, replies: seq<Reply>, result: bool)

  /** The array sizes of the C struct, and the chunk count that always matches the byte count. */
  ghost predicate SlotShape(s: Slot) {
    && |s.bitmap| == BITMAP_BITS && |s.buffer| == WINDOW
    && s.winBytes <= WINDOW && s.total == ChunkCount(s.winBytes)
    && s.retries < 256
  }

  ghost predicate Shape(rx: Rx) {
    |rx.slots| == 2 && SlotShape(rx.slots[0]) && SlotShape(rx.slots[1])
  }

  /** Window sizes on the wire never exceed one window. */
  predicate WellFormed(p: Request) { p.Query? ==> p.winBytes <= WINDOW }

  function ResetSlot(s: Slot): Slot {
    s.(state := Free, win := 0, received := 0, retries := 0, bitmap := NoBits())
  }

  /** ota_receiver_reset. */
  function Reset(rx: Rx): Rx
    requires |rx.slots| == 2
  {
    rx.(state := Idle, totalSize := 0, imageCrc := 0, totalWindows := 0, committed := 0,
        slots := [ResetSlot(rx.slots[0]), ResetSlot(rx.slots[1])])
  }

  function Credit(config: Config): nat { if config.initialCredits > 0 then config.initialCredits else 1 }

  function OnStart(rx: Rx, p: Request): Outcome
    requires p.Start? && |rx.slots| == 2
  {
    if p.magic != MAGIC then Outcome(rx, [StartAck(ErrMagic, 0)], true)
    else if p.totalSize == 0 || (rx.config.stagingMax > 0 && p.totalSize > rx.config.stagingMax) then
      Outcome(rx, [StartAck(ErrSize, 0)], true)
    else
      Outcome(Reset(rx).(totalSize := p.totalSize, imageCrc := p.imageCrc, totalWindows := p.totalWindows,
        state := Transfer),
              [StartAck(Ok, Credit(rx.config))], true)
  }

  /** A slot being opened for window w of an image of the given size. */
  function OpenSlot(s: Slot, w: nat, size: nat): Slot {
    var bytes := WindowBytes(size, w);
    s.(win := w, winBytes := bytes, total := ChunkCount(bytes), received := 0, retries := 0,
       bitmap := NoBits(), state := Receiving)
  }

  /** A chunk stored into the slot that already belongs to its window. */
  function StoreChunk(s: Slot, c: nat, data: seq<byte>): Slot
    requires SlotShape(s) && c < s.total
  {
    ChunkFacts(s.winBytes, c);
    var offset := c * CHUNK;
    var n := if offset + |data| > s.winBytes then s.winBytes - offset else |data|;
    s.(buffer := Paste(s.buffer, offset, data[..n]), bitmap := s.bitmap[c := true], received := s.received + 1)
  }

  function OnData(rx: Rx, p: Request): Outcome
    requires p.Data? && Shape(rx)
  {
    if rx.state != Transfer then Outcome(rx, [], false)
    else
      var i := p.win % 2;
      var s0 := rx.slots[i];
      var s := if s0.state == Free || (s0.state == Committed && s0.win != p.win)
               then OpenSlot(s0, p.win, rx.totalSize) else s0;
      if s.win != p.win || (s.state != Receiving && s.state != ReadyToFlash) || p.chunk >= s.total then
        Outcome(rx.(slots := rx.slots[i := s]), [], false)
      else
        ChunkFacts(s.winBytes, p.chunk);
        if s.bitmap[p.chunk] then Outcome(rx.(slots := rx.slots[i := s]), [], true)
        else Outcome(rx.(slots := rx.slots[i := StoreChunk(s, p.chunk, p.data)]), [], true)
  }

  /** The slot after a query for its own window, and the missing count it reports. */
  function QuerySlot(s: Slot, crc: bv32, bytes: nat): (r: (Slot, nat))
    requires SlotShape(s) && bytes <= WINDOW
  {
    var total := ChunkCount(bytes);
    var s1 := s.(expectedCrc := crc, winBytes := bytes, total := total);
    var missing := Missing(s.bitmap, total);
    if missing == 0 then
      if Crc32.Of(s.buffer[..bytes]) == crc then (s1.(state := ReadyToFlash), 0)
      else (s1.(bitmap := NoBits(), received := 0), total)
    else (s1, missing)
  }

  function OnQuery(rx: Rx, p: Request): Outcome
    requires p.Query? && Shape(rx) && WellFormed(p)
  {
    if rx.state != Transfer then Outcome(rx, [], false)
    else
      ChunksFit(p.winBytes);
      var i := p.win % 2;
      var s := rx.slots[i];
      var total := ChunkCount(p.winBytes);
      if s.state == Free || s.win != p.win then
        Outcome(rx, [QueryResp(p.win, total, Rep(false, CoveringBits(total)))], true)
      else
        var (s1, missing) := QuerySlot(s, p.winCrc, p.winBytes);
        Outcome(rx.(slots := rx.slots[i := s1]), [QueryResp(s.win, missing, s1.bitmap[..CoveringBits(total)])], true)
  }

  /** readback is what the flash CRC function reports for the staged image. */
  function OnFinalize(rx: Rx, p: Request, readback: bv32): Outcome
    requires p.Finalize?
  {
    if rx.state != Transfer then Outcome(rx, [], false)
    else if rx.committed < rx.totalWindows then Outcome(rx, [Report(ErrSize, 0)], true)
    else if readback == rx.imageCrc then Outcome(rx.(state := Complete), [Report(Ok, readback)], true)
    else Outcome(rx.(state := AbortedState), [Report(ErrCrcMismatch, readback)], true)
  }

  /** ota_receiver_process_packet. */
  function Process(rx: Rx, p: Request, readback: bv32): Outcome
    requires Shape(rx) && WellFormed(p)
  {
    match p
    case Start(_, _, _, _) => OnStart(rx, p)
    case Data(_, _, _) => OnData(rx, p)
    case Query(_, _, _) => OnQuery(rx, p)
    case Finalize(_) => OnFinalize(rx, p, readback)
    case Abort => Outcome(rx.(state := AbortedState), [], true)
  }

  // ---- the flash step ------------------------------------------------------------------------

  /** What the flash hardware does during one step: an operation may fail and leave anything in
      the block, and a read-back may be garbled. */
  datatype Plan = Plan(eraseFails: bool, programFails: bool, residue: seq<byte>, garbled: bool, misread: bv32)

  datatype FlashOutcome = FlashOutcome(rx: Rx, mem: seq<byte>, replies: seq<Reply>, result: bool)

  function Clobber(mem: seq<byte>, offset: nat, residue: seq<byte>): (r: seq<byte>)
    ensures |r| == |mem|
  {
    if |residue| == BLOCK && offset + BLOCK <= |mem| then Paste(mem, offset, residue) else mem
  }

  /** The slot the next flash step works on: ready, and next in order. */
  predicate Flashable(rx: Rx, i: nat)
    requires i < |rx.slots|
  {
    rx.slots[i].state == ReadyToFlash && rx.slots[i].win == rx.committed
  }

  /** One more failed attempt on slot i. */
  function FlashFailed(rx: Rx, i: nat, mem: seq<byte>, status: Status): FlashOutcome
    requires i < |rx.slots|
  {
    var s := rx.slots[i];
    var retries := (s.retries + 1) % 256;
    if retries < MAX_FLASH_RETRIES then
      FlashOutcome(rx.(slots := rx.slots[i := s.(retries := retries, state := ReadyToFlash)]), mem, [], true)
    else
      FlashOutcome(rx.(slots := rx.slots[i := s.(retries := retries, state := Error)]), mem,
                   [Ready(s.win % 256, status, 0)], true)
  }

  function FlashOffset(rx: Rx, s: Slot): nat { rx.config.stagingOffset + s.win * WINDOW }

  function FlashSlot(rx: Rx, i: nat, mem: seq<byte>, plan: Plan): FlashOutcome
    requires Shape(rx) && i < 2
  {
    var s := rx.slots[i];
    var offset := FlashOffset(rx, s);
    var port := rx.config.port;
    if rx.config.stagingMax > 0 && offset + s.winBytes > rx.config.stagingOffset + rx.config.stagingMax then
      FlashOutcome(rx.(slots := rx.slots[i := s.(state := Error)], state := AbortedState), mem,
                   [Ready(s.win % 256, ErrSize, 0)], true)
    else if plan.eraseFails || !EraseAccepted(port, |mem|, offset, WINDOW) then
      FlashFailed(rx, i, Clobber(mem, offset, plan.residue), ErrErase)
    else if plan.programFails || !ProgramAccepted(port, |mem|, offset, s.winBytes) then
      FlashFailed(rx, i, Clobber(mem, offset, plan.residue), ErrProgram)
    else
      var mem' := Program(Erase(mem, offset, WINDOW), offset, s.buffer[..s.winBytes]);
      var readback := if plan.garbled then plan.misread else Crc32.Of(mem'[offset..offset + s.winBytes]);
      if readback == s.expectedCrc then
        FlashOutcome(rx.(slots := rx.slots[i := s.(state := Free)], committed := (rx.committed + 1) % 0x1_0000), mem',
                     [Ready(s.win % 256, Ok, 1)], true)
      else FlashFailed(rx, i, mem', ErrVerify)
  }

  /** ota_receiver_step_flash. */
  function StepFlash(rx: Rx, mem: seq<byte>, plan: Plan): FlashOutcome
    requires Shape(rx)
  {
    if rx.state != Transfer then FlashOutcome(rx, mem, [], false)
    else if Flashable(rx, 0) then FlashSlot(rx, 0, mem, plan)
    else if Flashable(rx, 1) then FlashSlot(rx, 1, mem, plan)
    else FlashOutcome(rx, mem, [], false)
  }

  // ---- shape is kept -------------------------------------------------------------------------

  lemma OpenSlotShape(s: Slot, w: nat, size: nat)
    requires SlotShape(s)
    ensures SlotShape(OpenSlot(s, w, size))
  {
    hide ChunkCount;
  }

  lemma StoreChunkShape(s: Slot, c: nat, data: seq<byte>)
    requires SlotShape(s) && c < s.total && c < BITMAP_BITS
    ensures SlotShape(StoreChunk(s, c, data))
  {
    hide ChunkCount;
  }

  lemma QuerySlotShape(s: Slot, crc: bv32, bytes: nat)
    requires SlotShape(s) && bytes <= WINDOW
    ensures SlotShape(QuerySlot(s, crc, bytes).0)
  {
    hide ChunkCount, Crc32.Of;
  }

  lemma ProcessKeepsShape(rx: Rx, p: Request, readback: bv32)
    requires Shape(rx) && WellFormed(p)
    ensures Shape(Process(rx, p, readback).rx)
  {
    hide OpenSlot, StoreChunk, QuerySlot, ChunkCount, WindowBytes;
    match p {
      case Data(w, c, data) =>
        var i := w % 2;
        OpenSlotShape(rx.slots[i], w, rx.totalSize);
        var s := if rx.slots[i].state == Free || (rx.slots[i].state == Committed && rx.slots[i].win != w)
                 then OpenSlot(rx.slots[i], w, rx.totalSize) else rx.slots[i];
        if c < s.total {
          ChunkFacts(s.winBytes, c);
          StoreChunkShape(s, c, data);
        }
      case Query(w, crc, bytes) =>
        QuerySlotShape(rx.slots[w % 2], crc, bytes);
      case _ =>
    }
  }

  /** The slot after one more failed attempt. */
  function FailedSlot(s: Slot): Slot {
    var retries := (s.retries + 1) % 256;
    s.(retries := retries, state := if retries < MAX_FLASH_RETRIES then ReadyToFlash else Error)
  }

  lemma FlashFailedIs(rx: Rx, i: nat)
    requires i < |rx.slots|
    ensures forall mem: seq<byte>, status ::
              var o := FlashFailed(rx, i, mem, status);
              o.rx == rx.(slots := rx.slots[i := FailedSlot(rx.slots[i])]) && o.mem == mem
  {
  }

  /** A flash attempt changes its own slot only: out of the staging area, failed once more, or committed. */
  lemma FlashSlotCases(rx: Rx, i: nat, mem: seq<byte>, plan: Plan)
    requires Shape(rx) && i < 2
    ensures var o, s := FlashSlot(rx, i, mem, plan), rx.slots[i];
            && |o.mem| == |mem|
            && (|| o.rx == rx.(slots := rx.slots[i := s.(state := Error)], state := AbortedState)
                || o.rx == rx.(slots := rx.slots[i := FailedSlot(s)])
                || o.rx == rx.(slots := rx.slots[i := s.(state := Free)], committed := (rx.committed + 1) % 0x1_0000))
  {
    hide ChunkCount, Crc32.Of, Program, Erase, Clobber, FlashFailed, FailedSlot, EraseAccepted, ProgramAccepted,
         SlotShape;
    FlashFailedIs(rx, i);
  }

  lemma FlashSlotShape(rx: Rx, i: nat, mem: seq<byte>, plan: Plan)
    requires Shape(rx) && i < 2
    ensures Shape(FlashSlot(rx, i, mem, plan).rx) && |FlashSlot(rx, i, mem, plan).mem| == |mem|
  {
    hide ChunkCount, FlashSlot;
    FlashSlotCases(rx, i, mem, plan);
  }

  lemma StepFlashKeepsShape(rx: Rx, mem: seq<byte>, plan: Plan)
    requires Shape(rx)
    ensures Shape(StepFlash(rx, mem, plan).rx) && |StepFlash(rx, mem, plan).mem| == |mem|
  {
    hide FlashSlot;
    FlashSlotShape(rx, 0, mem, plan);
    FlashSlotShape(rx, 1, mem, plan);
  }
}
