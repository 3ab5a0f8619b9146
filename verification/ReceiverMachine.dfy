/** ota/ota_receiver.c as objects updated in place: each method does to the fields what the
    specification in OtaReceiver does to the abstract state. */
module ReceiverMachine {
  import opened Bytes
  import opened OtaProtocol
  import opened OtaBitmap
  import opened FlashMemory
  import Crc32
  import Rx = OtaReceiver
  import opened FlashDevice

  class Slot {
    var state: Rx.SlotState
    var win: nat
    var total: nat
    var winBytes: nat
    var expectedCrc: bv32
    var received: nat
    var retries: nat
    const bitmap: array<byte>
    const buffer: array<byte>

    ghost predicate Valid()
      reads this, bitmap, buffer
    {
      bitmap.Length == BITMAP_BYTES && buffer.Length == WINDOW && bitmap != buffer && Rx.SlotShape(Abs())
    }

    ghost function Abs(): Rx.Slot
      reads this, bitmap, buffer
    {
      Rx.Slot(state, win, total, winBytes, expectedCrc, received, retries, Unpacked(bitmap[..]), buffer[..])
    }

    constructor ()
      ensures Valid() && fresh(bitmap) && fresh(buffer)
      ensures state == Rx.Free && win == total == winBytes == received == retries == 0 && expectedCrc == 0
    {
      state, win, total, winBytes, expectedCrc, received, retries := Rx.Free, 0, 0, 0, 0, 0, 0;
      bitmap := new byte[BITMAP_BYTES](i => 0);
      buffer := new byte[WINDOW](i => 0);
      new;
      assert ChunkCount(0) == 0;
    }

    /** The part of ota_receiver_reset that concerns one slot. */
    method Reset()
      requires Valid()
      modifies this, bitmap
      ensures Valid() && Abs() == Rx.ResetSlot(old(Abs()))
    {
      hide LowBit, ChunkCount;
      state, win, received, retries := Rx.Free, 0, 0, 0;
      Wipe(bitmap);
    }

    /** The slot starts on window w. */
    method Open(w: nat, size: nat)
      requires Valid()
      modifies this, bitmap
      ensures Valid() && Abs() == Rx.OpenSlot(old(Abs()), w, size)
    {
      hide LowBit, ChunkCount;
      win := w;
      var offset := w * WINDOW;
      var remaining := if size > offset then size - offset else 0;
      winBytes := if remaining > WINDOW then WINDOW else remaining;
      total := ChunkCount(winBytes);
      received, retries := 0, 0;
      Wipe(bitmap);
      state := Rx.Receiving;
    }

    /** memcpy into the window buffer, clipped to the window, and the bitmap bit. */
    method Store(c: nat, data: seq<byte>)
      requires Valid() && c < total
      modifies this, bitmap, buffer
      ensures Valid() && Abs() == Rx.StoreChunk(old(Abs()), c, data)
    {
      hide LowBit, ChunkCount;
      ChunkFacts(winBytes, c);
      Rx.StoreChunkShape(Abs(), c, data);
      var offset := c * CHUNK;
      var n := |data|;
      if offset + n > winBytes { n := winBytes - offset; }
      CopyIn(offset, data[..n]);
      OtaBitmap.Set(bitmap, c);
      received := received + 1;
    }

    method CopyIn(offset: nat, data: seq<byte>)
      requires bitmap != buffer && offset + |data| <= buffer.Length
      modifies buffer
      ensures buffer[..] == Paste(old(buffer[..]), offset, data)
    {
      for i := 0 to |data|
        invariant forall k :: 0 <= k < buffer.Length ==>
                    buffer[k] == if offset <= k < offset + i then data[k - offset] else old(buffer[k])
      {
        buffer[offset + i] := data[i];
      }
    }

    /** The DATA branch for the slot of its window. */
    method Accept(w: nat, c: nat, data: seq<byte>, size: nat) returns (result: bool)
      requires Valid()
      modifies this, bitmap, buffer
      ensures Valid() && (Abs(), result) == AfterData(old(Abs()), w, c, data, size)
    {
      hide Rx.SlotShape, Rx.OpenSlot, Rx.StoreChunk, Unpacked, ChunkCount;
      if state == Rx.Free || (state == Rx.Committed && win != w) {
        Open(w, size);
      }
      if win != w { return false; }
      if state != Rx.Receiving && state != Rx.ReadyToFlash { return false; }
      if c >= total { return false; }
      ChunkFits(Abs(), c);
      var have := OtaBitmap.Get(bitmap, c);
      if have { return true; }
      Store(c, data);
      return true;
    }

    method Flashing()
      requires Valid()
      modifies `state
      ensures Valid() && Abs() == old(Abs()).(state := Rx.Flashing)
    {
      hide Unpacked, ChunkCount;
      state := Rx.Flashing;
    }

    method Spoil()
      requires Valid()
      modifies `state
      ensures Valid() && Abs() == old(Abs()).(state := Rx.Error)
    {
      hide Unpacked, ChunkCount;
      state := Rx.Error;
    }

    method Release()
      requires Valid()
      modifies `state
      ensures Valid() && Abs() == old(Abs()).(state := Rx.Free)
    {
      hide Unpacked, ChunkCount;
      state := Rx.Free;
    }

    /** One more failed flash attempt; the third one gives up. */
    method FailOnce() returns (gaveUp: bool)
      requires Valid()
      modifies `state, `retries
      ensures gaveUp == !((old(retries) + 1) % 256 < MAX_FLASH_RETRIES)
      ensures Valid()
      ensures Abs() == old(Abs()).(retries := (old(retries) + 1) % 256,
              state := if gaveUp then Rx.Error else Rx.ReadyToFlash)
    {
      hide Unpacked, ChunkCount;
      retries := (retries + 1) % 256;
      gaveUp := !(retries < MAX_FLASH_RETRIES);
      state := if gaveUp then Rx.Error else Rx.ReadyToFlash;
    }

    /** The query branch for the slot's own window. */
    method Query(crc: bv32, bytes: nat) returns (missing: nat)
      requires Valid() && bytes <= WINDOW
      modifies this, bitmap
      ensures Valid() && (Abs(), missing) == Rx.QuerySlot(old(Abs()), crc, bytes)
    {
      hide LowBit, ChunkCount, Crc32.Of, Missing;
      assert ChunkCount(bytes) <= BITMAP_BITS by { ChunksFit(bytes); }
      expectedCrc, winBytes, total := crc, bytes, ChunkCount(bytes);
      missing := CountMissing(bitmap, total);
      if missing == 0 {
        var sramCrc := Crc32.OneShot(buffer[..winBytes]);
        if sramCrc == expectedCrc {
          state := Rx.ReadyToFlash;
        } else {
          Wipe(bitmap);
          received, missing := 0, total;
        }
      }
    }
  }

  class Receiver {
    const config: Rx.Config
    var state: Rx.State
    var totalSize: nat
    var imageCrc: bv32
    var totalWindows: nat
    var committed: nat
    const slot0: Slot
    const slot1: Slot
    const flash: Flash

    ghost predicate Valid()
      reads this, slot0, slot0.bitmap, slot0.buffer, slot1, slot1.bitmap, slot1.buffer
    {
      && slot0.Valid() && slot1.Valid() && slot0 != slot1
      && slot0.bitmap != slot1.bitmap && slot0.bitmap != slot1.buffer
      && slot0.buffer != slot1.bitmap && slot0.buffer != slot1.buffer
      && flash.mem !in {slot0.bitmap, slot0.buffer, slot1.bitmap, slot1.buffer}
      && flash.port == config.port
    }

    ghost function Abs(): Rx.Rx
      reads this, slot0, slot0.bitmap, slot0.buffer, slot1, slot1.bitmap, slot1.buffer
    {
      Rx.Rx(config, state, totalSize, imageCrc, totalWindows, committed, [slot0.Abs(), slot1.Abs()])
    }

    /** ota_receiver_init. */
    constructor (config: Rx.Config, flash: Flash)
      requires flash.port == config.port
      ensures Valid() && this.config == config && this.flash == flash
      ensures state == Rx.Idle && committed == 0 && slot0.state == slot1.state == Rx.Free
      ensures fresh(slot0) && fresh(slot0.bitmap) && fresh(slot0.buffer)
      ensures fresh(slot1) && fresh(slot1.bitmap) && fresh(slot1.buffer)
    {
      this.config, this.flash := config, flash;
      state, totalSize, imageCrc, totalWindows, committed := Rx.Idle, 0, 0, 0, 0;
      slot0 := new Slot();
      slot1 := new Slot();
    }

    /** ota_receiver_reset. */
    method Reset()
      requires Valid()
      modifies this, slot0, slot0.bitmap, slot1, slot1.bitmap
      ensures Valid() && Abs() == Rx.Reset(old(Abs()))
    {
      hide Slot.Abs, Rx.SlotShape, Rx.ResetSlot;
      state, totalSize, imageCrc, totalWindows, committed := Rx.Idle, 0, 0, 0, 0;
      slot0.Reset();
      slot1.Reset();
    }

    method OnStart(p: Request) returns (replies: seq<Reply>, result: bool)
      requires Valid() && p.Start?
      modifies this, slot0, slot0.bitmap, slot1, slot1.bitmap
      ensures Valid() && Rx.Outcome(Abs(), replies, result) == Rx.OnStart(old(Abs()), p)
    {
      hide Slot.Abs, Rx.SlotShape, Rx.ResetSlot, Slot.Valid;
      if p.magic != MAGIC { return [StartAck(ErrMagic, 0)], true; }
      if p.totalSize == 0 || (config.stagingMax > 0 && p.totalSize > config.stagingMax) {
        return [StartAck(ErrSize, 0)], true;
      }
      Reset();
      totalSize, imageCrc, totalWindows, state := p.totalSize, p.imageCrc, p.totalWindows, Rx.Transfer;
      var credit := if config.initialCredits > 0 then config.initialCredits else 1;
      return [StartAck(Ok, credit)], true;
    }

    method SlotFor(w: nat) returns (slot: Slot)
      ensures slot == if w % 2 == 0 then slot0 else slot1
    {
      slot := if w % 2 == 0 then slot0 else slot1;
    }

    method OnData(p: Request) returns (replies: seq<Reply>, result: bool)
      requires Valid() && p.Data?
      modifies slot0, slot0.bitmap, slot0.buffer, slot1, slot1.bitmap, slot1.buffer
      ensures Valid() && Rx.Outcome(Abs(), replies, result) == Rx.OnData(old(Abs()), p)
    {
      hide Rx.SlotShape, Slot.Abs, AfterData, Rx.OnData;
      replies := [];
      if state != Rx.Transfer {
        RefusedData(Abs(), p);
        return [], false;
      }
      OnDataSlot(Abs(), p);
      var slot := SlotFor(p.win);
      result := slot.Accept(p.win, p.chunk, p.data, totalSize);
    }

    method OnQuery(p: Request) returns (replies: seq<Reply>, result: bool)
      requires Valid() && p.Query? && Rx.WellFormed(p)
      modifies slot0, slot0.bitmap, slot1, slot1.bitmap
      ensures Valid() && Rx.Outcome(Abs(), replies, result) == Rx.OnQuery(old(Abs()), p)
    {
      hide Rx.SlotShape, Rx.QuerySlot, ChunkCount, LowBit;
      if state != Rx.Transfer { return [], false; }
      var slot := SlotFor(p.win);
      var total := ChunkCount(p.winBytes);
      ChunksFit(p.winBytes);
      if slot.state == Rx.Free || slot.win != p.win {
        return [QueryResp(p.win, total, Rep(false, CoveringBits(total)))], true;
      }
      var missing := slot.Query(p.winCrc, p.winBytes);
      QueriedTotal(old(slot.Abs()), p.winCrc, p.winBytes);
      var bitmapBytes := (slot.total + 7) / 8;
      UnpackedPrefix(slot.bitmap[..], bitmapBytes);
      assert slot.bitmap[..][..bitmapBytes] == slot.bitmap[..bitmapBytes];
      return [QueryResp(slot.win, missing, Unpacked(slot.bitmap[..bitmapBytes]))], true;
    }

    method OnFinalize(p: Request) returns (replies: seq<Reply>, result: bool)
      requires Valid() && p.Finalize?
      modifies this
      ensures Valid()
      ensures Rx.Outcome(Abs(), replies, result)
              == Rx.OnFinalize(old(Abs()), p, FlashCrc(old(flash.mem[..]), config.stagingOffset, old(totalSize)))
    {
      hide Slot.Abs, Crc32.Of, Slot.Valid;
      if state != Rx.Transfer { return [], false; }
      if committed < totalWindows { return [Report(ErrSize, 0)], true; }
      var stagedCrc := flash.Crc(config.stagingOffset, totalSize);
      assert config.stagingOffset + totalSize <= flash.mem.Length ==>
          flash.mem[..][config.stagingOffset..config.stagingOffset + totalSize]
          == flash.mem[config.stagingOffset..config.stagingOffset + totalSize];
      if stagedCrc == imageCrc {
        state := Rx.Complete;
        return [Report(Ok, stagedCrc)], true;
      }
      state := Rx.AbortedState;
      return [Report(ErrCrcMismatch, stagedCrc)], true;
    }

    /** ota_receiver_process_packet. */
    method ProcessPacket(p: Request) returns (replies: seq<Reply>, result: bool)
      requires Valid() && Rx.WellFormed(p)
      modifies this, slot0, slot0.bitmap, slot0.buffer, slot1, slot1.bitmap, slot1.buffer
      ensures Valid()
      ensures Rx.Outcome(Abs(), replies, result)
              == Rx.Process(old(Abs()), p, FlashCrc(old(flash.mem[..]), config.stagingOffset, old(totalSize)))
    {
      hide Slot.Abs, Rx.SlotShape, Crc32.Of, Rx.OnStart, Rx.OnData, Rx.OnQuery, Rx.OnFinalize, Slot.Valid;
      match p {
        case Start(_, _, _, _) => replies, result := OnStart(p);
        case Data(_, _, _) => replies, result := OnData(p);
        case Query(_, _, _) => replies, result := OnQuery(p);
        case Finalize(_) => replies, result := OnFinalize(p);
        case Abort =>
          state := Rx.AbortedState;
          return [], true;
      }
    }

    /** The state while slot i is being flashed, seen from the state before. */
    ghost predicate During(rx: Rx.Rx, i: nat)
      requires i < 2
      reads this, slot0, slot0.bitmap, slot0.buffer, slot1, slot1.bitmap, slot1.buffer
    {
      && Rx.Shape(rx)
      && Abs() == rx.(slots := rx.slots[i := rx.slots[i].(state := Rx.Flashing)])
      && (if i == 0 then slot1 else slot0).Abs() == rx.slots[1 - i]
    }

    /** The slot a flash step works on has failed once more. */
    method Failed(slot: Slot, ghost i: nat, status: Status, ghost rx: Rx.Rx) returns (replies: seq<Reply>)
      requires Valid() && i < 2 && slot == (if i == 0 then slot0 else slot1) && During(rx, i)
      modifies slot
      ensures Valid()
      ensures Rx.FlashOutcome(Abs(), flash.mem[..], replies, true) == Rx.FlashFailed(rx, i, flash.mem[..], status)
    {
      hide Slot.Abs, Rx.SlotShape;
      SlotFields(slot);
      assert slot.Abs() == Abs().slots[i] == rx.slots[i].(state := Rx.Flashing);
      var gaveUp := slot.FailOnce();
      replies := if gaveUp then [Ready(slot.win % 256, status, 0)] else [];
      SlotFields(slot);
      TwoSlots(slot0.Abs(), slot1.Abs(), rx.slots, i, slot.Abs());
    }

    /** Read a programmed window back and commit it, or count a failure. */
    method VerifyWindow(slot: Slot, ghost i: nat, plan: Rx.Plan, ghost rx: Rx.Rx, ghost was: seq<byte>)
      returns (replies: seq<Reply>)
      requires Valid() && i < 2 && slot == (if i == 0 then slot0 else slot1)
      requires During(rx, i) && InStaging(rx, i) && rx.slots[i].winBytes <= WINDOW == |rx.slots[i].buffer|
      requires Rx.FlashOffset(rx, rx.slots[i]) + BLOCK <= |was| == flash.mem.Length
      requires !plan.eraseFails && EraseAccepted(config.port, |was|, Rx.FlashOffset(rx, rx.slots[i]), WINDOW)
      requires !plan.programFails
               && ProgramAccepted(config.port, |was|, Rx.FlashOffset(rx, rx.slots[i]), rx.slots[i].winBytes)
      requires flash.mem[..] == FlashMemory.Program(FlashMemory.Erase(was, Rx.FlashOffset(rx, rx.slots[i]), WINDOW),
                                                    Rx.FlashOffset(rx, rx.slots[i]),
                                                      rx.slots[i].buffer[..rx.slots[i].winBytes])
      modifies this, slot
      ensures Valid()
      ensures Rx.FlashOutcome(Abs(), flash.mem[..], replies, true) == Rx.FlashSlot(rx, i, was, plan)
    {
      hide Slot.Abs, Rx.SlotShape, Rx.FlashFailed, Rx.FlashSlot, FlashMemory.Erase, FlashMemory.Program, Crc32.Of,
           EraseAccepted, ProgramAccepted, Rx.Clobber, Slot.Valid;
      SlotFields(slot);
      assert slot.Abs() == Abs().slots[i] == rx.slots[i].(state := Rx.Flashing) && Abs().config == rx.config;
      var offset := config.stagingOffset + slot.win * WINDOW;
      var readback := flash.Crc(offset, slot.winBytes);
      if plan.garbled { readback := plan.misread; }
      assert flash.mem[..][offset..offset + slot.winBytes] == flash.mem[offset..offset + slot.winBytes];
      ReadBack(rx, i, was, plan);
      if readback == slot.expectedCrc {
        slot.Release();
        committed := (committed + 1) % 0x1_0000;
        TwoSlots(slot0.Abs(), slot1.Abs(), rx.slots, i, rx.slots[i].(state := Rx.Free));
        return [Ready(slot.win % 256, Ok, 1)];
      }
      replies := Failed(slot, i, ErrVerify, rx);
    }

    /** Program an erased window and read it back; residue is what a failed operation left in the block. */
    method ProgramWindow(slot: Slot, ghost i: nat, plan: Rx.Plan, ghost rx: Rx.Rx, ghost was: seq<byte>)
      returns (replies: seq<Reply>, ghost residue: seq<byte>)
      requires Valid() && i < 2 && slot == (if i == 0 then slot0 else slot1)
      requires During(rx, i) && InStaging(rx, i)
      requires !plan.eraseFails && EraseAccepted(config.port, |was|, Rx.FlashOffset(rx, rx.slots[i]), WINDOW)
      requires flash.mem[..] == FlashMemory.Erase(was, Rx.FlashOffset(rx, rx.slots[i]), WINDOW)
      modifies this, slot, flash.mem
      ensures Valid()
      ensures Rx.FlashOutcome(Abs(), flash.mem[..], replies, true)
              == Rx.FlashSlot(rx, i, was, plan.(residue := residue))
    {
      hide Slot.Abs, Rx.SlotShape, Rx.FlashFailed, Rx.FlashSlot, FlashMemory.Erase, FlashMemory.Program, Crc32.Of,
           EraseAccepted, ProgramAccepted, Rx.Clobber, Slot.Valid;
      SlotFields(slot);
      assert slot.Abs() == Abs().slots[i] == rx.slots[i].(state := Rx.Flashing) && Abs().config == rx.config;
      residue := plan.residue;
      var offset := config.stagingOffset + slot.win * WINDOW;
      EraseFits(config.port, |was|, offset);
      EraseInside(was, offset);
      var ok := flash.TryProgram(offset, slot.buffer, slot.winBytes, plan.programFails, plan.residue);
      if !ok {
        residue := flash.mem[offset..offset + BLOCK];
        OnlyBlockChanged(was, flash.mem[..], offset);
        ProgramFailed(rx, i, was, plan.(residue := residue));
        replies := Failed(slot, i, ErrProgram, rx);
        return replies, residue;
      }
      assert slot.buffer[..][..slot.winBytes] == slot.buffer[..slot.winBytes];
      replies := VerifyWindow(slot, i, plan, rx, was);
      assert plan.(residue := residue) == plan;
    }

    /** Erase the block of a window and go on, or count a failure. */
    method EraseWindow(slot: Slot, ghost i: nat, plan: Rx.Plan, ghost rx: Rx.Rx)
      returns (replies: seq<Reply>, ghost residue: seq<byte>)
      requires Valid() && i < 2 && slot == (if i == 0 then slot0 else slot1)
      requires During(rx, i) && InStaging(rx, i)
      modifies this, slot, flash.mem
      ensures Valid()
      ensures Rx.FlashOutcome(Abs(), flash.mem[..], replies, true)
              == Rx.FlashSlot(rx, i, old(flash.mem[..]), plan.(residue := residue))
    {
      hide Slot.Abs, Rx.SlotShape, Rx.FlashFailed, Rx.FlashSlot, FlashMemory.Erase, FlashMemory.Program, Crc32.Of,
           EraseAccepted, ProgramAccepted, Rx.Clobber, Slot.Valid;
      ghost var was := flash.mem[..];
      SlotFields(slot);
      assert slot.Abs() == Abs().slots[i] == rx.slots[i].(state := Rx.Flashing);
      residue := plan.residue;
      var offset := config.stagingOffset + slot.win * WINDOW;
      var ok := flash.TryErase(offset, WINDOW, plan.eraseFails, plan.residue);
      if ok {
        replies, residue := ProgramWindow(slot, i, plan, rx, was);
      } else {
        residue := if plan.eraseFails then plan.residue else [];
        EraseFailed(rx, i, was, plan.(residue := residue));
        assert flash.mem[..] == Rx.Clobber(was, Rx.FlashOffset(rx, rx.slots[i]), residue);
        replies := Failed(slot, i, ErrErase, rx);
      }
    }

    /** Check the staging bound, erase, program and read back one window. */
    method FlashSlot(slot: Slot, ghost i: nat, plan: Rx.Plan) returns (replies: seq<Reply>, ghost residue: seq<byte>)
      requires Valid() && i < 2 && slot == (if i == 0 then slot0 else slot1)
      modifies this, slot, flash.mem
      ensures Valid()
      ensures Rx.FlashOutcome(Abs(), flash.mem[..], replies, true)
              == Rx.FlashSlot(old(Abs()), i, old(flash.mem[..]), plan.(residue := residue))
    {
      hide Slot.Abs, Rx.SlotShape, Rx.FlashSlot, Slot.Valid;
      ghost var rx, was := Abs(), flash.mem[..];
      SlotFields(slot0);
      SlotFields(slot1);
      slot.Flashing();
      SlotFields(slot);
      TwoSlots(slot0.Abs(), slot1.Abs(), rx.slots, i, rx.slots[i].(state := Rx.Flashing));
      assert During(rx, i);
      var offset := config.stagingOffset + slot.win * WINDOW;
      if config.stagingMax > 0 && offset + slot.winBytes > config.stagingOffset + config.stagingMax {
        residue := plan.residue;
        slot.Spoil();
        state := Rx.AbortedState;
        StagingExceeded(rx, i, was, plan);
        TwoSlots(slot0.Abs(), slot1.Abs(), rx.slots, i, rx.slots[i].(state := Rx.Error));
        assert plan.(residue := residue) == plan;
        return [Ready(slot.win % 256, ErrSize, 0)], residue;
      }
      replies, residue := EraseWindow(slot, i, plan, rx);
    }

    /** ota_receiver_step_flash. */
    method StepFlash(plan: Rx.Plan) returns (replies: seq<Reply>, result: bool)
      requires Valid()
      modifies this, slot0, slot1, flash.mem
      ensures Valid()
      ensures exists residue ::
                Rx.FlashOutcome(Abs(), flash.mem[..], replies, result)
                == Rx.StepFlash(old(Abs()), old(flash.mem[..]), plan.(residue := residue))
    {
      hide Slot.Abs, Rx.SlotShape, Rx.FlashSlot;
      ghost var residue := plan.residue;
      if state != Rx.Transfer {
        replies, result := [], false;
      } else if slot0.state == Rx.ReadyToFlash && slot0.win == committed {
        assert Rx.Flashable(Abs(), 0) by { SlotFields(slot0); }
        replies, residue := FlashSlot(slot0, 0, plan);
        result := true;
      } else if slot1.state == Rx.ReadyToFlash && slot1.win == committed {
        SlotFields(slot0);
        SlotFields(slot1);
        replies, residue := FlashSlot(slot1, 1, plan);
        result := true;
      } else {
        SlotFields(slot0);
        SlotFields(slot1);
        replies, result := [], false;
      }
      assert Rx.FlashOutcome(Abs(), flash.mem[..], replies, result)
          == Rx.StepFlash(old(Abs()), old(flash.mem[..]), plan.(residue := residue));
    }
  }

  lemma SlotFields(s: Slot)
    ensures s.Abs() == Rx.Slot(s.state, s.win, s.total, s.winBytes, s.expectedCrc, s.received, s.retries,
                               Unpacked(s.bitmap[..]), s.buffer[..])
    ensures s.Valid() ==> s.winBytes <= WINDOW == s.buffer.Length && Rx.SlotShape(s.Abs())
  {
  }

  // ---- the cases of the specification's flash step -----------------------------------------------

  lemma StagingExceeded(rx: Rx.Rx, i: nat, mem: seq<byte>, plan: Rx.Plan)
    requires Rx.Shape(rx) && i < 2 && rx.config.stagingMax > 0
    requires Rx.FlashOffset(rx, rx.slots[i]) + rx.slots[i].winBytes > rx.config.stagingOffset + rx.config.stagingMax
    ensures Rx.FlashSlot(rx, i, mem, plan)
            == Rx.FlashOutcome(rx.(slots := rx.slots[i := rx.slots[i].(state := Rx.Error)], state := Rx.AbortedState),
              mem,
                               [Ready(rx.slots[i].win % 256, ErrSize, 0)], true)
  {
    hide Rx.FlashFailed, EraseAccepted, ProgramAccepted, Program, Erase, Crc32.Of, ChunkCount;
  }

  ghost predicate InStaging(rx: Rx.Rx, i: nat)
    requires |rx.slots| == 2 && i < 2
  {
    rx.config.stagingMax > 0 ==>
      Rx.FlashOffset(rx, rx.slots[i]) + rx.slots[i].winBytes <= rx.config.stagingOffset + rx.config.stagingMax
  }

  lemma EraseFailed(rx: Rx.Rx, i: nat, mem: seq<byte>, plan: Rx.Plan)
    requires Rx.Shape(rx) && i < 2 && InStaging(rx, i)
    requires plan.eraseFails || !EraseAccepted(rx.config.port, |mem|, Rx.FlashOffset(rx, rx.slots[i]), WINDOW)
    ensures Rx.FlashSlot(rx, i, mem, plan)
            == Rx.FlashFailed(rx, i, Rx.Clobber(mem, Rx.FlashOffset(rx, rx.slots[i]), plan.residue), ErrErase)
    ensures Rx.Clobber(mem, Rx.FlashOffset(rx, rx.slots[i]), []) == mem
    ensures forall offset: nat, r: seq<byte> ::
              Rx.Clobber(mem, offset, r)
              == if |r| == BLOCK && offset + BLOCK <= |mem| then Paste(mem, offset, r) else mem
  {
    hide Rx.FlashFailed, EraseAccepted, ProgramAccepted, Program, Erase, Crc32.Of, ChunkCount, Paste;
  }

  lemma ProgramFailed(rx: Rx.Rx, i: nat, mem: seq<byte>, plan: Rx.Plan)
    requires Rx.Shape(rx) && i < 2 && InStaging(rx, i)
    requires !plan.eraseFails && EraseAccepted(rx.config.port, |mem|, Rx.FlashOffset(rx, rx.slots[i]), WINDOW)
    requires plan.programFails
             || !ProgramAccepted(rx.config.port, |mem|, Rx.FlashOffset(rx, rx.slots[i]), rx.slots[i].winBytes)
    ensures Rx.FlashSlot(rx, i, mem, plan)
            == Rx.FlashFailed(rx, i, Rx.Clobber(mem, Rx.FlashOffset(rx, rx.slots[i]), plan.residue), ErrProgram)
  {
    hide Rx.FlashFailed, EraseAccepted, ProgramAccepted, Program, Erase, Crc32.Of, ChunkCount, Rx.Clobber;
  }

  lemma ReadBack(rx: Rx.Rx, i: nat, mem: seq<byte>, plan: Rx.Plan)
    requires Rx.Shape(rx) && i < 2 && InStaging(rx, i)
    requires !plan.eraseFails && EraseAccepted(rx.config.port, |mem|, Rx.FlashOffset(rx, rx.slots[i]), WINDOW)
    requires !plan.programFails
             && ProgramAccepted(rx.config.port, |mem|, Rx.FlashOffset(rx, rx.slots[i]), rx.slots[i].winBytes)
    requires Rx.FlashOffset(rx, rx.slots[i]) + BLOCK <= |mem| && rx.slots[i].winBytes <= WINDOW == |rx.slots[i].buffer|
    ensures var s, offset := rx.slots[i], Rx.FlashOffset(rx, rx.slots[i]);
            var mem' := Program(Erase(mem, offset, WINDOW), offset, s.buffer[..s.winBytes]);
            var readback := if plan.garbled then plan.misread else Crc32.Of(mem'[offset..offset + s.winBytes]);
            Rx.FlashSlot(rx, i, mem, plan)
            == if readback == s.expectedCrc then
                 Rx.FlashOutcome(rx.(slots := rx.slots[i := s.(state := Rx.Free)],
                   committed := (rx.committed + 1) % 0x1_0000), mem',
                                 [Ready(s.win % 256, Ok, 1)], true)
               else Rx.FlashFailed(rx, i, mem', ErrVerify)
  {
    hide Rx.FlashFailed, EraseAccepted, ProgramAccepted, Program, Erase, Crc32.Of, ChunkCount, Rx.Clobber;
  }

  lemma TwoSlots(a: Rx.Slot, b: Rx.Slot, slots: seq<Rx.Slot>, i: nat, t: Rx.Slot)
    requires |slots| == 2 && i < 2
    requires if i == 0 then a == t && b == slots[1] else a == slots[0] && b == t
    ensures [a, b] == slots[i := t]
  {
  }

  lemma EraseFits(port: Port, size: nat, offset: nat)
    ensures EraseAccepted(port, size, offset, WINDOW) ==> offset + BLOCK <= size
  {
  }

  lemma EraseInside(was: seq<byte>, offset: nat)
    requires offset + BLOCK <= |was|
    ensures |Erase(was, offset, WINDOW)| == |was|
    ensures forall k :: 0 <= k < |was| && !(offset <= k < offset + BLOCK) ==> Erase(was, offset, WINDOW)[k] == was[k]
  {
  }

  lemma OnlyBlockChanged(was: seq<byte>, now: seq<byte>, offset: nat)
    requires |now| == |was| && offset + BLOCK <= |was|
    requires forall k :: 0 <= k < |was| && !(offset <= k < offset + BLOCK) ==> now[k] == was[k]
    ensures Rx.Clobber(was, offset, now[offset..offset + BLOCK]) == now
  {
  }

  /** What a DATA packet makes of the slot of its window. */
  ghost function AfterData(s0: Rx.Slot, w: nat, c: nat, data: seq<byte>, size: nat): (Rx.Slot, bool)
    requires Rx.SlotShape(s0)
  {
    Rx.OpenSlotShape(s0, w, size);
    var s := if s0.state == Rx.Free || (s0.state == Rx.Committed && s0.win != w) then Rx.OpenSlot(s0, w, size) else s0;
    if s.win != w || (s.state != Rx.Receiving && s.state != Rx.ReadyToFlash) || c >= s.total then (s, false)
    else
      ChunkFits(s, c);
      (if s.bitmap[c] then s else Rx.StoreChunk(s, c, data), true)
  }

  lemma OnDataSlot(rx: Rx.Rx, p: Request)
    requires Rx.Shape(rx) && p.Data? && rx.state == Rx.Transfer
    ensures var (s, result) := AfterData(rx.slots[p.win % 2], p.win, p.chunk, p.data, rx.totalSize);
            Rx.OnData(rx, p) == Rx.Outcome(rx.(slots := rx.slots[p.win % 2 := s]), [], result)
  {
    hide Rx.OpenSlot, Rx.StoreChunk, ChunkCount, Rx.SlotShape;
  }

  lemma RefusedData(rx: Rx.Rx, p: Request)
    requires Rx.Shape(rx) && p.Data? && rx.state != Rx.Transfer
    ensures Rx.OnData(rx, p) == Rx.Outcome(rx, [], false)
  {
  }

  lemma ChunkFits(s: Rx.Slot, c: nat)
    requires Rx.SlotShape(s) && c < s.total
    ensures c < MAX_CHUNKS && |s.bitmap| == BITMAP_BITS
  {
    hide ChunkCount;
    ChunkFacts(s.winBytes, c);
  }

  lemma QueriedTotal(s: Rx.Slot, crc: bv32, bytes: nat)
    requires Rx.SlotShape(s) && bytes <= WINDOW
    ensures var t := Rx.QuerySlot(s, crc, bytes).0;
            t.total == ChunkCount(bytes) && t.win == s.win
  {
    hide ChunkCount, Crc32.Of;
  }
}
