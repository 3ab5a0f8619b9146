/** Which images a transfer can deliver at all: the one-byte window index and the guarded flash
    functions of the device each put an exact bound on the image. */
module OtaLimits {
  import opened Bytes
  import opened OtaProtocol
  import opened FlashMemory
  import Crc32
  import Rx = OtaReceiver
  import Tx = OtaSender
  import Safety = OtaSafety
  import Link = OtaLink

  // ---- the window index --------------------------------------------------------------------------

  datatype SenderEvent = Steps(expired: bool) | Hears(reply: Reply)

  /** The sender's arrays have the sizes of the C struct. */
  predicate Sized(tx: Tx.Tx) { |tx.bitmap| == BITMAP_BITS && tx.total <= MAX_CHUNKS }

  /** What any peer can put on the wire: window indices are one byte. */
  predicate OnWire(p: Reply) {
    (p.QueryResp? ==> p.win < 256 && |p.bitmap| <= BITMAP_BITS) && (p.Ready? ==> p.win < 256)
  }

  ghost predicate SenderMoves(tx: Tx.Tx, e: SenderEvent, tx': Tx.Tx) {
    && Sized(tx)
    && match e
       case Steps(expired) => tx' == Tx.Step(tx, expired).tx
       case Hears(p) => OnWire(p) && tx' == Tx.Handle(tx, p).tx
  }

  /** Any run of a sender, whatever its peer answers. */
  ghost predicate SenderRun(states: seq<Tx.Tx>, events: seq<SenderEvent>) {
    && |states| == |events| + 1
    && Sized(states[0]) && states[0].state == Tx.Starting
    && forall i :: 0 <= i < |events| ==> SenderMoves(states[i], events[i], states[i + 1])
  }

  predicate NotFinishing(tx: Tx.Tx) { tx.state != Tx.Finalizing && tx.state != Tx.Complete }

  lemma SetupSized(tx: Tx.Tx, w: nat)
    requires Sized(tx)
    ensures var t := Tx.SetupWindow(tx, w);
            Sized(t) && t.state == tx.state && t.totalWindows == tx.totalWindows
  {
    hide Crc32.Of;
  }

  lemma StepNotFinishing(tx: Tx.Tx, expired: bool)
    requires Sized(tx) && NotFinishing(tx)
    ensures var t := Tx.Step(tx, expired).tx;
            Sized(t) && NotFinishing(t) && t.totalWindows == tx.totalWindows
  {
    hide Tx.SendChunks, Tx.ResendChunks, Crc32.Of;
    BatchFrame(tx, Tx.BATCH);
    ResendFrame(tx, Tx.BATCH);
  }

  lemma {:induction false} BatchFrame(tx: Tx.Tx, n: nat)
    ensures var t := Tx.SendChunks(tx, n).0;
            t.bitmap == tx.bitmap && t.total == tx.total && t.state == tx.state && t.totalWindows == tx.totalWindows
    decreases n
  {
    if n > 0 && tx.chunk < tx.total { BatchFrame(tx.(chunk := tx.chunk + 1), n - 1); }
  }

  lemma {:induction false} ResendFrame(tx: Tx.Tx, n: nat)
    requires Sized(tx)
    ensures var t := Tx.ResendChunks(tx, n).0;
            Sized(t) && t.state == tx.state && t.totalWindows == tx.totalWindows
    decreases n
  {
    if n > 0 && tx.remaining > 0 {
      var c := NextMissing(tx.bitmap, tx.nextChunk, tx.total);
      if c < tx.total {
        ResendFrame(tx.(bitmap := tx.bitmap[c := true], nextChunk := c + 1, remaining := tx.remaining - 1), n - 1);
      }
    }
  }

  /** A window count that one more than a one-byte window index never equals. */
  predicate Unreachable(windows: nat) { windows == 0 || windows > MAX_WINDOWS }

  lemma HandleNotFinishing(tx: Tx.Tx, p: Reply)
    requires Sized(tx) && NotFinishing(tx) && OnWire(p) && Unreachable(tx.totalWindows)
    ensures var t := Tx.Handle(tx, p).tx;
            Sized(t) && NotFinishing(t) && t.totalWindows == tx.totalWindows
  {
    hide Tx.SetupWindow, Crc32.Of, Tx.Int16;
    forall t: Tx.Tx, w | Sized(t)
      ensures Sized(Tx.SetupWindow(t, w)) && Tx.SetupWindow(t, w).totalWindows == t.totalWindows
    {
      SetupSized(t, w);
    }
  }

  /** A sender whose window count is out of reach of the index never finishes, whatever it is answered. */
  lemma {:induction false} UnreachableNeverFinishes(states: seq<Tx.Tx>, events: seq<SenderEvent>, i: nat)
    requires SenderRun(states, events) && Unreachable(states[0].totalWindows) && i < |states|
    ensures NotFinishing(states[i]) && Sized(states[i]) && states[i].totalWindows == states[0].totalWindows
  {
    hide Tx.Step, Tx.Handle, Unreachable, NotFinishing;
    if i == 0 {
      StartingNotFinishing(states[0]);
    } else {
      UnreachableNeverFinishes(states, events, i - 1);
      assert SenderMoves(states[i - 1], events[i - 1], states[i]);
      match events[i - 1] {
        case Steps(expired) => StepNotFinishing(states[i - 1], expired);
        case Hears(p) => HandleNotFinishing(states[i - 1], p);
      }
    }
  }

  lemma StartingNotFinishing(tx: Tx.Tx)
    requires tx.state == Tx.Starting
    ensures NotFinishing(tx)
  {
  }

  /** The window count of a 32-bit size is out of reach exactly above 256 windows: the largest sizes wrap to 0. */
  lemma UnreachableIff(size: nat)
    requires 0 < size < 0x1_0000_0000
    ensures Unreachable(WindowCount(size)) <==> size > MAX_WINDOWS * WINDOW
    ensures size > 0xFFFF_0000 ==> WindowCount(size) == 0
  {
    if size <= 0xFFFF_0000 { assert (size + WINDOW - 1) % 0x1_0000_0000 == size + WINDOW - 1; }
  }

  /** An image of more than 256 windows is never finished: from the call that starts it on, the sender
      reaches neither FINALIZE nor COMPLETE, whatever the receiver answers. */
  lemma TooManyWindowsNeverFinish(tx: Tx.Tx, states: seq<Tx.Tx>, events: seq<SenderEvent>, i: nat)
    requires MAX_WINDOWS * WINDOW < |tx.image| < 0x1_0000_0000
    requires |states| == |events| + 1 && Sized(states[0]) && states[0] == Tx.Begin(tx).tx
    requires forall n :: 0 <= n < |events| ==> SenderMoves(states[n], events[n], states[n + 1])
    requires i < |states|
    ensures states[i].state != Tx.Complete && states[i].state != Tx.Finalizing
  {
    hide SenderMoves, WindowCount, Unreachable;
    UnreachableIff(|tx.image|);
    UnreachableNeverFinishes(states, events, i);
  }

  // ---- the device's flash functions --------------------------------------------------------------

  function RoundUp(n: nat, unit: nat): nat
    requires unit > 0
  {
    (n + unit - 1) / unit * unit
  }

  predicate OnDevice(config: Rx.Config) {
    config.port == Device && config.stagingOffset == STAGING_OFFSET && config.stagingMax == STAGING_BYTES
  }

  /** The device can flash every window exactly of the images made of whole pages whose whole
      blocks fit the staging area. */
  lemma DeviceAcceptsIff(config: Rx.Config, size: nat)
    requires OnDevice(config) && 0 < size <= MAX_WINDOWS * WINDOW
    ensures Link.PortAccepts(config, FLASH_BYTES, size) <==> size % PAGE == 0 && RoundUp(size, BLOCK) <= STAGING_BYTES
  {
    hide WindowCount, WindowBytes;
    WindowCountFacts(size);
    var n := WindowCount(size);
    assert RoundUp(size, BLOCK) == n * WINDOW;
    WindowFacts(size, n - 1);
    LastWindowIff(config, size);
    if size % PAGE == 0 && n * WINDOW <= STAGING_BYTES {
      forall w | 0 <= w < n ensures Link.WindowAccepted(config, FLASH_BYTES, size, w) {
        WindowFacts(size, w);
        InsideAccepted(config, size, w);
      }
    } else {
      assert !Link.WindowAccepted(config, FLASH_BYTES, size, n - 1);
    }
  }

  lemma InsideAccepted(config: Rx.Config, size: nat, w: nat)
    requires OnDevice(config) && (w + 1) * WINDOW <= STAGING_BYTES
    requires 0 < WindowBytes(size, w) <= WINDOW && WindowBytes(size, w) % PAGE == 0
    ensures Link.WindowAccepted(config, FLASH_BYTES, size, w)
  {
    hide WindowBytes;
  }

  lemma LastWindowIff(config: Rx.Config, size: nat)
    requires OnDevice(config) && 0 < size <= MAX_WINDOWS * WINDOW
    ensures var w := WindowCount(size) - 1;
            w >= 0 && (Link.WindowAccepted(config, FLASH_BYTES, size, w)
                       <==> size % PAGE == 0 && WindowCount(size) * WINDOW <= STAGING_BYTES)
  {
    hide WindowCount, WindowBytes;
    WindowCountFacts(size);
    var w := WindowCount(size) - 1;
    WindowFacts(size, w);
    assert WindowBytes(size, w) == size - w * WINDOW;
  }

  /** A window the flash functions refuse is never counted as committed. */
  lemma RefusedNotCommitted(rx: Rx.Rx, i: nat, mem: seq<byte>, plan: Rx.Plan)
    requires Rx.Shape(rx) && i < 2
    requires var s := rx.slots[i];
             !(EraseAccepted(rx.config.port, |mem|, Rx.FlashOffset(rx, s), WINDOW)
               && ProgramAccepted(rx.config.port, |mem|, Rx.FlashOffset(rx, s), s.winBytes))
    ensures Rx.FlashSlot(rx, i, mem, plan).rx.committed == rx.committed
  {
    hide Crc32.Of, ChunkCount, Program, Erase, Rx.Clobber, EraseAccepted, ProgramAccepted;
  }

  /** Over the adversarial network a refused window stops the count for good. */
  lemma {:induction false} RefusedWindowStops(states: seq<Safety.Net>, events: seq<Safety.Event>, image: seq<byte>,
    w: nat, i: nat)
    requires Safety.Run(states, events, image) && i < |states| && w < WindowCount(|image|)
    requires !Link.WindowAccepted(states[0].rx.config, |states[0].mem|, |image|, w)
    ensures states[i].rx.committed <= w && |states[i].mem| == |states[0].mem|
  {
    hide Safety.Inv, Safety.Next, Safety.Shapes, Safety.Enabled, WindowCount, Link.WindowAccepted;
    if i > 0 {
      RefusedWindowStops(states, events, image, w, i - 1);
      Safety.RunInv(states, events, image, i - 1);
      var s, e := states[i - 1], events[i - 1];
      assert Safety.Moves(s, e, states[i]);
      RefusedStep(s, e, w);
    }
  }

  lemma RefusedStep(s: Safety.Net, e: Safety.Event, w: nat)
    requires Safety.Inv(s) && Safety.Shapes(s) && Safety.Enabled(s, e)
    requires s.rx.committed <= w < WindowCount(|s.tx.image|)
    requires !Link.WindowAccepted(s.rx.config, |s.mem|, |s.tx.image|, w)
    ensures Safety.Next(s, e).rx.committed <= w && |Safety.Next(s, e).mem| == |s.mem|
  {
    hide Safety.TxGood, Safety.ReplyGood, Safety.RxGood, Honest, Tx.Step, Tx.Handle, Rx.Process, Rx.FlashSlot,
         Crc32.Of, Rx.SlotShape, WindowCount, Link.WindowAccepted;
    match e {
      case ReceiverHears(p) =>
        ProcessCommits(s.rx, p, FlashCrc(s.mem, s.rx.config.stagingOffset, s.rx.totalSize));
      case FlashSteps(plan) =>
        Rx.StepFlashKeepsShape(s.rx, s.mem, plan);
        forall i: nat | i < 2 && s.rx.state == Rx.Transfer && Rx.Flashable(s.rx, i)
          ensures Rx.FlashSlot(s.rx, i, s.mem, plan).rx.committed <= w
        {
          FlashCommitsAtMostOne(s.rx, i, s.mem, plan);
          if s.rx.committed == w {
            Safety.ReadySlot(s.rx, i, s.mem, s.tx.image);
            RefusedHere(s, i, w);
            RefusedNotCommitted(s.rx, i, s.mem, plan);
          }
        }
      case _ =>
    }
  }

  lemma RefusedHere(s: Safety.Net, i: nat, w: nat)
    requires |s.rx.slots| == 2 && i < 2 && s.rx.slots[i].win == w
             && s.rx.slots[i].winBytes == WindowBytes(|s.tx.image|, w)
    requires !Link.WindowAccepted(s.rx.config, |s.mem|, |s.tx.image|, w)
    ensures var t := s.rx.slots[i];
            !(EraseAccepted(s.rx.config.port, |s.mem|, Rx.FlashOffset(s.rx, t), WINDOW)
              && ProgramAccepted(s.rx.config.port, |s.mem|, Rx.FlashOffset(s.rx, t), t.winBytes))
  {
    hide EraseAccepted, ProgramAccepted, WindowBytes;
  }

  lemma ProcessCommits(rx: Rx.Rx, p: Request, readback: bv32)
    requires Rx.Shape(rx) && Rx.WellFormed(p)
    ensures Rx.Process(rx, p, readback).rx.committed <= rx.committed
  {
    hide Crc32.Of, ChunkCount, Rx.SlotShape, Rx.QuerySlot, Rx.StoreChunk, Rx.OpenSlot;
  }

  lemma FlashCommitsAtMostOne(rx: Rx.Rx, i: nat, mem: seq<byte>, plan: Rx.Plan)
    requires Rx.Shape(rx) && i < 2
    ensures Rx.FlashSlot(rx, i, mem, plan).rx.committed <= rx.committed + 1
  {
    hide Crc32.Of, ChunkCount, Program, Erase, Rx.Clobber, EraseAccepted, ProgramAccepted;
  }

  /** On the device an image that is not whole pages, or whose blocks do not fit the staging area,
      never completes, even though START accepts every size up to the staging size. */
  lemma UnfitImageNeverCompletes(states: seq<Safety.Net>, events: seq<Safety.Event>, image: seq<byte>, i: nat)
    requires Safety.Run(states, events, image) && i < |states|
    requires OnDevice(states[0].rx.config) && |states[0].mem| == FLASH_BYTES
    requires !(|image| % PAGE == 0 && RoundUp(|image|, BLOCK) <= STAGING_BYTES)
    ensures states[i].rx.state != Rx.Complete
  {
    hide WindowCount, WindowBytes, Link.WindowAccepted, Safety.Next, Safety.Enabled, Crc32.Of, Safety.SlotGood,
         Rx.SlotShape, Safety.TxGood, Safety.PrefixStaged;
    Safety.RunInv(states, events, image, i);
    WindowCountFacts(|image|);
    LastWindowIff(states[0].rx.config, |image|);
    assert RoundUp(|image|, BLOCK) == WindowCount(|image|) * WINDOW;
    RefusedWindowStops(states, events, image, WindowCount(|image|) - 1, i);
  }

  /** START does not tell: sizes past the last whole block of the staging area are accepted by it
      and refused by the flash functions. */
  lemma StartAcceptsUnfit(rx: Rx.Rx, p: Request)
    requires OnDevice(rx.config) && |rx.slots| == 2 && p.Start? && p.magic == MAGIC
    requires STAGING_BYTES / BLOCK * BLOCK < p.totalSize <= STAGING_BYTES
    ensures Rx.OnStart(rx, p).rx.state == Rx.Transfer
    ensures !Link.PortAccepts(rx.config, FLASH_BYTES, p.totalSize)
  {
    DeviceAcceptsIff(rx.config, p.totalSize);
  }
}
