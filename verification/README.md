# Verified model of the single-wire link, its OTA transfer and its drivers

This project models the point-to-point link firmware in Dafny and proves what its parts promise, alone
and together:

- **OTA transfer**: a sender and a receiver that move a firmware image in 64 KB windows of 124-byte
  chunks, with two receive slots, chunk bitmaps, window credits, flash retries and CRC checks at three
  levels. `OtaReceiver` and `OtaSender` specify the two state machines; `ReceiverMachine`,
  `SenderMachine`, `OtaBitmap` and `FlashDevice` are the same machines as objects whose methods update
  fields, arrays and flash in place, each proved to do what the specification does. `OtaSafety` runs the
  machines over an adversarial network, `OtaLink` over FIFO links, `OtaCredit` and `OtaLimits` show which
  credit grants and which images can be delivered at all, `OtaHazards` what timeouts and duplicates can do,
  `OtaRules` what one packet, timeout or flash attempt may do in any state, `OtaAnswers` what a packet
  proves about the other machine, `OtaWire` how packets are laid out and cross the link.
- **Bit-level receiver**: `Framing` (encode and decode), `BitSearch` (masked sync search, shifted
  extraction), `FrameReceiver` (extraction against a reference parser of the whole bit stream),
  `FrameStream` (encoded frames as the receiver meets them), `DmaCounter` and `RxPort` (ring, polling,
  overrun recovery, skip cache).
- **Line code**: `Pio` is a cycle-level interpreter with the eight program listings as two, parameterised
  by the delays of the four rates; `PioLink` runs the transmitter against the receiver; `EndToEnd` chains
  encoder, line, ring and polls from messages to messages.
- **Supporting parts**: `ResponseQueue` (two-core queue), `RingCursor` and `UartReceiver`, `Crc16` and
  `Crc32` with `PolyDivision` against polynomial division, `FlashMemory` and `FlashBench` (NOR flash, three write
  strategies), `Bytes` and `Modular` (bits of bytes, remainders).

Clocks, the hardware and the other side of an interface enter as parameters: whether a timeout has
expired, what a failing flash operation leaves behind, what the DMA counter shows, how long the FIFO
makes the transmitter wait. Reads of the ring by `&` with a mask are written as remainders; they agree
for the power-of-two sizes the firmware uses.

## What the proofs found

Where code and comments disagree the model follows the code.

- The skip cache of the receive port can leave a complete frame unread until another DMA word arrives.
  An extraction looks at no more than 3072 bits, yet finding nothing there marks everything as seen. It
  is harmless for all contents exactly when the bits from the byte of the tail on are at most 3072
  (`FrameReceiver.SkipTransparentIff`).
- The entry guard of extraction asks for 80 bits from the tail, while the search starts at the byte that
  holds the tail. A frame whose sync word begins in the bits before an unaligned tail can therefore wait
  with 73 to 79 bits unread, even in a stream polled from its start (`FrameReceiver.GuardHidesFrame`,
  `RxPort.GuardNeverDelivers`). Finding nothing means that there is no frame, for all contents, exactly
  under the condition of `FrameReceiver.QuietIff`. Packets of this encoder never put a sync word there, so
  what is sent is delivered without that condition (`RxPort.AlwaysInStep`, `RxPort.SentIsPolled`).
- An image of more than 256 windows can never be completed, because the window index on the wire is one
  byte, or because the window count wraps to 0 (`OtaLimits.TooManyWindowsNeverFinish`); up to 256 windows
  it can (`OtaLink.EveryScheduleCompletes`).
- The receiver takes any 16-bit credit grant. The transfer completes on every schedule, and no DATA packet
  is ever refused, exactly for grants of at most 2, grants above 0x8000 and images of at most two windows
  (`OtaCredit.CompletesIff`, `OtaCredit.AllTakenIff`). For every other grant there is a schedule on which
  window 2 is refused and asked about for ever while the flash step is not run (`OtaCredit.StarvesForever`).
- On the device an image completes only if its size is a multiple of 256 and fits the staging area when
  rounded up to 64 KB. START accepts larger sizes, all of which then fail
  (`OtaLimits.DeviceAcceptsIff`, `OtaLimits.UnfitImageNeverCompletes`, `OtaLimits.StartAcceptsUnfit`).
- `uart/uart_driver.c:160` calls the shortest frame 8 bytes; the code waits for 7, which is harmless
  because a complete frame has at least 8 (`UartReceiver.NothingLeft`).
- Timeouts and duplicates can stop a transfer, though never corrupt it. Eleven expired timeouts fail a
  sender (`OtaHazards.TimeoutsAloneFail`). A duplicate READY of the last window takes a sender out of
  COMPLETE (`OtaHazards.CompleteLeftIff`, `OtaHazards.DuplicateReadyRun`). A stale DATA packet of a
  committed window takes a free slot for good (`OtaHazards.StaleDataTakesIff`): until a new START the next
  window of that parity is never committed (`OtaHazards.StaleBlocks`), and such runs exist for every image
  of three windows or more (`OtaHazards.StaleRun`).

## Model

| member | source | states |
|---|---|---|
| `OtaSafety.TransferIsSafe` | ota/ota_receiver.c:94-392 | Over a network that loses, duplicates, delays and reorders packets both ways, with failing flash and spurious timeouts: in every reachable state the committed windows are in flash byte for byte, a COMPLETE receiver has the whole image in flash, the receiver never aborts, and no CRC mismatch is ever reported |
| `OtaSafety.InvNext` | ota/ota_sender.c:92-407 | Every event of the adversarial network keeps the inductive invariant: slots filled from the image wherever their bit is set, ready slots complete, committed prefix staged, packets honest |
| `OtaSafety.RunInv` | ota/ota_receiver.c:51-393 | The invariant holds in every state of every run from a fresh receiver and a sender that has just started |
| `OtaSafety.ReachableShapes` | ota/ota_receiver.c:51-251 | No reachable state offers a packet or a slot of a shape the state machines cannot handle: windows of at most 64 KB, bitmaps of at most 67 bytes, arrays of their declared sizes |
| `OtaSafety.ReportedMissingExact` | ota/ota_receiver.c:159-201 | Every missing count ever reported is the number of clear bits of the bitmap sent along |
| `OtaSafety.ReceivedExact` | ota/ota_receiver.c:126-146 | In every reachable state received_chunks of a slot in use is its chunk count less the clear bits of its bitmap |
| `OtaSafety.SenderCompleteLater` | ota/ota_sender.c:187-203 | A sender in COMPLETE, or a success report on the wire, implies that the receiver was in COMPLETE at that moment or before |
| `OtaAnswers.NewRepliesTruthful` | ota/ota_receiver.c:51-393 | Whatever the receiver sends is true at that moment: nothing missing means the window is held byte for byte, READY with OK that it is committed, START_ACK with OK that the transfer is open, a successful STATUS that the receiver is in COMPLETE with the CRC of the image |
| `OtaAnswers.PassedWindowsHeld` | ota/ota_sender.c:114-146 | Over every adversarial run: each window below the one being sent was held completely by the receiver at that moment or before |
| `OtaAnswers.ReadyMeansCommitted` | ota/ota_receiver.c:359-376 | Over every adversarial run: a READY with OK for a window on the wire implies that the receiver has committed more windows than its index, at that moment or before |
| `OtaAnswers.CountsAreTrue` | ota/ota_sender.c:148-185 | Over every adversarial run: what the sender counts as committed was committed, and a sender in FINALIZE or COMPLETE has had every window committed |
| `OtaAnswers.StartAckMeansOpen` | ota/ota_receiver.c:80-91 | Over every adversarial run: an accepting START_ACK on the wire implies that the receiver was in TRANSFER, at that moment or before |
| `OtaAnswers.OversizeNeverStarts` | ota/ota_receiver.c:73-78 | An image larger than the staging area is refused in every run: the only replies are START_ACK with the size error and no credit, the receiver stays idle, the sender gets no further than START, or fails |
| `OtaAnswers.RetriesCounted` | ota/ota_sender.c:328-398 | Over every adversarial run: the retry counter of a waiting sender is the number of timeouts expired since it began to wait or was last answered, and never exceeds ten |
| `OtaAnswers.GivesUpAfterEleven` | ota/ota_sender.c:328-398 | Over every adversarial run: a sender waiting for an answer fails on a timeout only after eleven have expired while it waited |
| `OtaAnswers.BeginStarts` | ota/ota_sender.c:67-90 | ota_sender_start on a fresh sender leads to the start state of the runs, with the START packet on its way; an empty image is refused |
| `OtaRules.StartAnswered` | ota/ota_receiver.c:57-92 | START is answered exactly once, with OK and credit if and only if magic and size are acceptable; then nothing is received, committed or marked; a refusal names its reason, grants nothing and changes nothing |
| `OtaRules.DeafOutsideTransfer` | ota/ota_receiver.c:94-96 | Outside a transfer a receiver ignores all but START and ABORT, and its flash step does nothing |
| `OtaRules.DataTakenIff` | ota/ota_receiver.c:94-128 | Exactly which DATA packets are taken, in any state; a refused one changes nothing, and none is answered |
| `OtaRules.DataStored` | ota/ota_receiver.c:126-147 | A chunk already there changes nothing; a new one sets its bit, is counted, and is copied byte for byte, cut at the end of the window |
| `OtaRules.VacantOpened` | ota/ota_receiver.c:103-124 | A vacant slot is opened empty for the window before its first chunk goes in |
| `OtaRules.QueryVerdict` | ota/ota_receiver.c:172-188 | Nothing is reported missing if and only if every chunk is there and their CRC is the one asked for; chunks that do not match it are all forgotten |
| `OtaRules.QueryAnsweredOnce` | ota/ota_receiver.c:150-202 | A query is answered once, about its window, with the bitmap as the query leaves it, or all missing when the slot does not hold it |
| `OtaRules.FinalVerdict` | ota/ota_receiver.c:204-241 | COMPLETE if and only if all windows are committed and the CRC read back is the one announced; otherwise too early, or aborted, and said so |
| `OtaRules.AttemptVerdict` | ota/ota_receiver.c:273-392 | One flash attempt in any state: beyond the staging area the transfer ends without touching flash; otherwise the window is committed if and only if erase, program and read-back succeed; the failure that exhausts the attempts is answered once with the operation that failed |
| `OtaRules.AttemptStaysInBlock` | ota/ota_receiver.c:295-330 | No flash attempt touches flash outside the 64 KB block of its window |
| `OtaRules.OthersIgnored` | ota/ota_sender.c:92-125 | A reply that is late, repeated or about another window changes nothing and is not answered |
| `OtaRules.OnlyItsAnswerMoves` | ota/ota_sender.c:114-118 | Only an answer about the window being sent, while its query is outstanding, moves the sender, and it passes a window only when nothing is missing |
| `OtaRules.AnswerMoves` | ota/ota_sender.c:120-146 | What that answer does to bitmap, counters, credits, window and state |
| `OtaRules.StartAckMoves` | ota/ota_sender.c:97-112 | A refusal fails the sender, an acceptance grants the credit and starts the window |
| `OtaRules.ReadyMoves` | ota/ota_sender.c:148-185 | A failure fails the sender in any state; a success counts the window as committed and returns its credit, and the last one leads to FINALIZE |
| `OtaRules.VerdictMoves` | ota/ota_sender.c:187-207 | The sender completes if and only if success is reported together with the CRC of its image; else it has failed |
| `OtaRules.ExpiredResends` | ota/ota_sender.c:328-398 | Up to ten times an expired timeout resends exactly the outstanding packet, field by field, and changes only the counter; the next fails the sender and sends nothing |
| `OtaRules.WaitsQuietly` | ota/ota_sender.c:328-407 | Nothing is sent or changed before a timeout expires; waiting for READY ends at the first |
| `OtaRules.BusyIgnoresTime` | ota/ota_sender.c:228-326 | While there is something to send timeouts mean nothing, and a new question starts the count anew |
| `OtaRules.RoundEnds` | ota/ota_sender.c:278-326 | A round whose bitmap shows nothing missing ends with the query, whatever its counter says |
| `OtaSafety.StepGood` | ota/ota_sender.c:215-407 | Whatever the sender sends in a step is honest about its image: magic, sizes, window CRC, chunk data |
| `OtaSafety.HandleGood` | ota/ota_sender.c:92-213 | Handling any reply keeps the sender consistent with its image and sends only honest packets |
| `OtaSafety.StoreChunkGood` | ota/ota_receiver.c:130-146 | Storing an honest chunk whose bit is clear keeps every set bit backed by image bytes and the received count exact |
| `OtaSafety.QuerySlotGood` | ota/ota_receiver.c:172-198 | A query for the slot's own window reports total less received, and turns the slot ready exactly when nothing is missing |
| `OtaSafety.FullSlot` | ota/ota_receiver.c:178-188 | A slot with no clear bit holds exactly the bytes of its image window, the partial last window included |
| `OtaSafety.FlashSlotGood` | ota/ota_receiver.c:253-392 | A flash attempt, however it fails, keeps the staged prefix intact; a commit extends it by exactly one window |
| `OtaSafety.OnFinalizeGood` | ota/ota_receiver.c:204-241 | FINALIZE after the last commit finds the image's own CRC, so it cannot end in ABORTED |
| `OtaSender.SendChunksExact` | ota/ota_sender.c:236-254 | A batch of a fresh window is the next chunks in order, at most 32 |
| `OtaSender.ResendChunksExact` | ota/ota_sender.c:278-308 | A retransmission batch is the next chunks still marked missing, ascending, and leaves exactly the rest of the round |
| `OtaSender.RoundExact` | ota/ota_sender.c:273-326 | A whole retransmission round, over any number of batches, sends exactly the chunks marked missing, each once, ascending, and then the query |
| `OtaSender.RetransmitsWhatWasMissing` | ota/ota_sender.c:120-126 | From a reply with missing chunks to the next query: the packets sent are exactly the DATA packets of the clear bits of the reply, then the query |
| `OtaLink.InvNext` | ota/ota_receiver.c:51-393 | With FIFO links and any credit grant, every enabled event that does not start a window whose slot is still taken keeps the joint invariant of both machines and both queues and lowers a lexicographic measure |
| `OtaLink.PacedNext` | ota/ota_sender.c:127-182 | With a paced grant no event ever starts a window whose slot is still taken |
| `OtaLink.EveryScheduleCompletes` | ota/ota_sender.c:92-326 | Termination: with control packets delivered in order, no timeout, each round delivering at least one missing chunk, at most two flash failures a window and a paced grant, every infinite schedule, however unfair, reaches a state where both machines are in COMPLETE and the flash holds the image |
| `OtaCredit.CompletesIff` | ota/ota_receiver.c:87-89 | From any start state every schedule completes if and only if the grant is paced: at most 2, or above 0x8000 (negative in the 16-bit credit counter), or the image has at most two windows |
| `OtaCredit.StarvesForever` | ota/ota_sender.c:127-146 | For every other grant and image a schedule, no packet lost, on which the sender asks about window 2 for ever while nothing is flashed |
| `OtaCredit.AllTakenIff` | ota/ota_receiver.c:100-124 | From any start state every DATA packet of every run is taken by the receiver if and only if the grant is paced |
| `OtaCredit.DropsData` | ota/ota_receiver.c:100-118 | For every other grant and image a run in which a DATA packet of window 2 finds its slot still holding window 0 and is refused |
| `OtaLink.NotStuck` | ota/ota_sender.c:215-407 | No deadlock: as long as the transfer is not complete some event is enabled |
| `OtaLink.RunContinues` | ota/ota_sender.c:215-407 | Every finite run that is not complete can be continued |
| `OtaLink.RunFinishes` | ota/ota_sender.c:215-407 | Every finite run is the beginning of one that completes |
| `OtaLink.CreditsConserved` | ota/ota_sender.c:127-182 | With a paced grant, credits equal the grant less the windows sent and not known committed, in 16 bits, and at most two windows are outstanding; below 0x8000 credits never go negative, from there on they start negative |
| `OtaLink.NoDataDropped` | ota/ota_receiver.c:100-124 | With a paced grant no DATA packet ever finds its slot holding another window: the receiver takes every one |
| `OtaLink.RepliesFew` | ota/main_ota_bench.c:62-82 | With a paced grant never more than three replies are under way, so the queue between the cores is never full |
| `OtaLink.DataTaken` | ota/ota_receiver.c:94-146 | A DATA packet at the head of the queue is for a chunk the receiver lacks; it is stored and its bit is set |
| `OtaLink.NextSlotFree` | ota/ota_receiver.c:100-113 | When the sender may start a window, the slot that window maps to is free: the window two before it has been committed |
| `OtaLink.QueryStep` | ota/ota_receiver.c:150-202 | The receiver answers the query of the current window with either all in or exactly its missing bits, and no other answer is owed |
| `OtaLink.FlashStep` | ota/ota_receiver.c:253-392 | A flash step either costs one of the remaining attempts or commits the next window and owes exactly its READY |
| `OtaLink.GoodFlashCommits` | ota/ota_receiver.c:290-376 | On hardware that does not fail, a ready window is committed at the first attempt |
| `OtaLimits.TooManyWindowsNeverFinish` | ota/ota_sender.c:67-90 | From ota_sender_start on, a sender of an image above 256 windows and below 2^32 bytes reaches neither FINALIZE nor COMPLETE, whatever it is answered |
| `OtaLimits.UnreachableNeverFinishes` | ota/ota_sender.c:147-172 | A window count of 0 or above 256 is never equal to one more than the one-byte index of a READY |
| `OtaLimits.UnreachableIff` | ota/ota_sender.c:70 | The 32-bit rounding gives such a count exactly for sizes above 256 windows; the largest sizes wrap to 0 |
| `OtaHazards.LinkRunIsNetRun` | ota/ota_sender.c:215-227 | Every run over the FIFO links is a run of the adversarial network, so that all of its safety theorems hold there |
| `OtaHazards.TimeoutsAloneFail` | ota/ota_sender.c:328-407 | From any start state, expired timeouts alone lead to FAILED at the eleventh, and not before |
| `OtaHazards.CompleteLeftIff` | ota/ota_sender.c:147-207 | A sender leaves COMPLETE exactly on an abort, a failure report, or the READY of the last window, which takes it to FINALIZE |
| `OtaHazards.DuplicateReadyReopens` | ota/ota_sender.c:147-175 | Every run in which the sender has completed can go on, by one READY delivered twice, with the sender in FINALIZE |
| `OtaHazards.DuplicateReadyRun` | ota/ota_sender.c:147-175 | Such a run exists for every image that can be transferred |
| `OtaHazards.StaleDataTakesIff` | ota/ota_receiver.c:100-113 | A DATA packet of a committed window that arrives once more takes its slot if and only if the slot is free (or already taken by that window) |
| `OtaHazards.StaleBlocks` | ota/ota_receiver.c:253-272 | Once a slot is taken by a committed window it stays so until a START arrives: whatever else is delivered, resent or retried, the next window of its parity is never committed and the transfer never completes |
| `OtaHazards.StaleRun` | ota/ota_receiver.c:100-113 | Such a run exists for every image of at least three windows that can be transferred |
| `OtaHazards.ElsewhereAllMissing` | ota/ota_receiver.c:159-170 | A query is answered all missing whenever its window is not, or no longer, in its slot, and changes nothing |
| `OtaHazards.QueryRevivesError` | ota/ota_receiver.c:172-184 | A query for the window of a slot in ERROR makes it ready again with its retries spent |
| `OtaLimits.DeviceAcceptsIff` | flash/flash_bench.c:40-66 | The device flash functions accept every window of an image if and only if its size is a multiple of 256 and, rounded up to 64 KB, fits the staging area |
| `OtaLimits.RefusedWindowStops` | ota/ota_receiver.c:297-347 | Over the adversarial network the committed count never passes a window the flash functions refuse |
| `OtaLimits.UnfitImageNeverCompletes` | ota/ota_receiver.c:204-241 | On the device an image that fails that condition never completes, in any run |
| `OtaLimits.StartAcceptsUnfit` | ota/ota_receiver.c:71-91 | START still accepts every size between the last whole block and the staging size, all of which fail |
| `OtaProtocol.NextMissingFirst` | ota/ota_protocol.c:42-50 | The next missing chunk is the first clear bit from the start index on, or the total |
| `OtaProtocol.MissingBound` | ota/ota_protocol.c:31-40 | The missing count is zero exactly when all bits are set and the total exactly when none is |
| `OtaProtocol.MissingSet` | ota/ota_protocol.h:151-153 | Setting a clear bit lowers the missing count by exactly one |
| `OtaProtocol.WindowFacts` | ota/ota_sender.c:42-47 | The windows cover the image without gap or overlap; only the last one may be partial |
| `OtaBitmap.OneBitOfMap` | ota/ota_protocol.h:151-157 | Set and clear on the packed bytes change one bit of the map and no other |
| `OtaBitmap.Get` | ota/ota_protocol.h:147-149 | Reads the bit of the map |
| `OtaBitmap.Set` | ota/ota_protocol.h:151-153 | In place, the new map is the old one with the bit set |
| `OtaBitmap.Clear` | ota/ota_protocol.h:155-157 | In place, the new map is the old one with the bit cleared |
| `OtaBitmap.CountMissing` | ota/ota_protocol.c:31-40 | The loop returns the number of clear bits below the total |
| `OtaBitmap.FindNextMissing` | ota/ota_protocol.c:42-50 | The loop returns the first clear bit from the start index on |
| `ReceiverMachine.Slot.Open` | ota/ota_receiver.c:103-113 | The slot fields and bitmap as the specification opens them for a window |
| `ReceiverMachine.Slot.Store` | ota/ota_receiver.c:130-146 | The clipped copy into the 64 KB buffer, the bit and the count, everything else unchanged |
| `ReceiverMachine.Slot.Query` | ota/ota_receiver.c:172-188 | Count, SRAM CRC and the invalidated bitmap as the specification of a query says |
| `ReceiverMachine.Receiver.constructor` | ota/ota_receiver.c:16-26 | A fresh receiver is idle with both slots free |
| `ReceiverMachine.Receiver.Reset` | ota/ota_receiver.c:28-42 | The abstract state after reset, buffers kept |
| `ReceiverMachine.Receiver.OnData` | ota/ota_receiver.c:94-148 | The object's new state, reply and result are those of the specification |
| `ReceiverMachine.Receiver.OnQuery` | ota/ota_receiver.c:150-202 | The object's new state and its reply, bitmap bytes included, are those of the specification |
| `ReceiverMachine.Receiver.OnFinalize` | ota/ota_receiver.c:204-241 | The verdict follows the CRC read back from the flash object |
| `ReceiverMachine.Receiver.ProcessPacket` | ota/ota_receiver.c:51-251 | The whole packet handler refines the specification that the run theorems are about |
| `ReceiverMachine.Receiver.StepFlash` | ota/ota_receiver.c:253-393 | The whole flash step, with its retries and partial writes, is a step of the specification for some content left in the failed block |
| `FlashDevice.Flash.ProgramPieces` | ota/main_ota_bench.c:187-201 | Guarded 4 KB pieces accept exactly what one guard over the whole range would and write the same bytes |
| `FlashDevice.Flash.Erase` | flash/flash_bench.c:40-57 | The erase is carried out exactly when the guard accepts it, else the memory is untouched |
| `FlashDevice.Flash.Program` | ota/main_ota_bench.c:187-201 | Programming succeeds exactly when the guard accepts the range, and never touches anything outside it |
| `FlashMemory.ProgramErased` | flash/flash_bench.c:28-36 | Programming erased NOR flash reads back as written and leaves the rest alone |
| `FlashMemory.StagingRangeMeans` | flash/flash_map.h:131-157 | A range passes the guard if and only if it is not empty and every byte of it lies in the staging area |
| `SenderMachine.Sender.WindowCrc` | ota/ota_sender.c:49-63 | The CRC accumulated over 124-byte reads equals the CRC of the whole window, the partial last one included |
| `SenderMachine.Sender.SetupWindow` | ota/ota_sender.c:42-65 | Bytes, chunk count, CRC and chunk index of a window as the specification sets them |
| `SenderMachine.Sender.Start` | ota/ota_sender.c:67-90 | The START packet and counters of the specification; refused for an empty image |
| `SenderMachine.Sender.HandleResponse` | ota/ota_sender.c:92-213 | The response handler refines the specification |
| `SenderMachine.Sender.SendBatch` | ota/ota_sender.c:236-254 | The batch loop sends what the specification's recursion sends |
| `SenderMachine.Sender.ResendBatch` | ota/ota_sender.c:278-308 | The retransmission loop over the packed bitmap sends what the specification's recursion sends |
| `SenderMachine.Sender.Step` | ota/ota_sender.c:228-407 | The step refines the specification in every state, timeouts included |
| `Crc32.EntryDivides` | ota/ota_protocol.c:8-13 | Each of the sixteen table entries is four steps of reflected division of its index by the IEEE 802.3 generator |
| `Crc32.NibbleStep` | ota/ota_protocol.c:15-23 | One table lookup is four division steps of the whole register |
| `Crc32.TableUpdate` | ota/ota_protocol.c:15-23 | The nibble-table loop computes the bitwise reflected division, section 3.2.9 of IEEE Std 802.3-2018 |
| `Crc32.OneShot` | ota/ota_protocol.c:25-29 | The one-shot CRC is the complemented register of the division |
| `Crc32.UpdateConcat` | ota/ota_protocol.c:15-23 | The register composes over concatenation |
| `PolyDivision.CrcIsRemainder` | ota/ota_protocol.c:15-29 | The CRC-32 of any bytes is the complemented remainder of the long division of their reflected bits, preset with 32 ones and augmented by 32 zeros, by the generator of section 3.2.9 of IEEE Std 802.3-2018, on polynomials as bit sequences |
| `PolyDivision.DivisionByRegister` | ota/ota_protocol.c:15-23 | Schoolbook long division leaves what the bitwise shift register holds |
| `PolyDivision.CoefficientsDetermine` | ota/ota_protocol.c:25-29 | The coefficients determine the 32-bit value |
| `Crc16.LookupCorrect` | common/crc16.c:6-39 | All 256 table entries are eight steps of division by x^16+x^12+x^5+1 |
| `Crc16.TableUpdate` | common/crc16.c:41-47 | The table loop computes the bitwise register |
| `Crc16.UpdateConcat` | common/crc16.c:41-47 | The incremental form composes over concatenation |
| `Crc16.CrcIsRemainder` | common/crc16.c:49-51 | The CRC of any bytes is the remainder of the long division of their polynomial, preset with 0xFFFF and augmented by sixteen zeros (section 2 of ITU-T V.41) |
| `Crc16.ByteStepBijective` | common/crc16.c:44-45 | One byte step is a bijection on the register: its inverse is given |
| `Crc16.AdjacentBytesDetected` | common/crc16.c:49-51 | Any change confined to two adjacent bytes changes the CRC |
| `Framing.Encode` | common/packet.c:17-123 | The DMA buffer is the count word and the packet: preamble, sync word, header, payload, CRC, padding with the parity byte, postamble; 0 words for a payload length out of range |
| `Framing.XorFoldParity` | common/packet.c:81-93 | The popcount of the XOR over all bytes has the parity of the number of zero bits |
| `Framing.EvenZeros` | common/packet.c:100-114 | Every packet, padding and postamble included, has an even number of zero bits |
| `Framing.DecodeFrame` | common/packet.c:128-162 | Decode accepts, or names the first reason not to, as specified |
| `Framing.DecodeInverts` | common/packet.c:128-162 | Decoding what encode put after the sync word gives type, seq and payload back, for every valid message |
| `Framing.DecodePrefix` | common/packet.c:128-162 | Decode depends on nothing after the CRC but the number of bytes |
| `Framing.DecodeVerdicts` | common/packet.c:128-162 | Exactly when decode gives which verdict, and at which bytes it finds type, sequence number, payload and CRC |
| `Framing.FrameLayout` | common/packet.c:17-114 | Every byte of an encoded frame at its place: preamble, sync word, length, type, sequence number, payload, CRC high byte first, padding of ones with at most the last bit cleared |
| `Framing.AdjacentChangeRejected` | common/packet.c:145-152 | A change confined to two adjacent bytes of TYPE to the end of the payload makes decode report a CRC mismatch |
| `BitSearch.WordMatch` | common/packet.c:188-226 | One masked 32-bit comparison decides whether the sync word starts at that bit phase; zero padding at the buffer end never takes part |
| `BitSearch.FindSync` | common/packet.c:167-232 | The search returns exactly what a bit-by-bit scan of the allowed range would: the earliest sync word, or not found |
| `BitSearch.ExtractBytes` | common/packet.c:237-265 | Shifted extraction reads exactly the bits of the range, or reports that the buffer is too small |
| `FrameReceiver.ExtractFinds` | common/packet.c:321-388 | A status other than incomplete or not found is exactly the next step of the reference parser over the whole stream, with the same advance |
| `FrameReceiver.ExtractSkips` | common/packet.c:321-363 | Incomplete and not found skip only bits in which the reference parser finds nothing either, however the stream goes on |
| `FrameReceiver.RefParsePrefix` | common/packet.c:270-389 | What the reference parser has found it keeps finding when more bits arrive |
| `FrameReceiver.RefStepMeans` | common/packet.c:321-388 | The reference parser in terms of the earliest sync word from the byte of the restart point: when it waits, and where it restarts after a bad length, a bad CRC and a frame |
| `FrameReceiver.FruitlessAdvance` | common/packet.c:321-363 | Where a fruitless extraction leaves the tail: fifteen bits before the end of what it saw, or at the sync word whose frame is not complete |
| `FrameReceiver.LittleIsLeft` | common/packet.c:321-363 | After a fruitless extraction that saw everything at most 1103 bits stay unread |
| `FrameReceiver.UnclampedWaits` | common/packet.c:300-335 | With at least 80 unread bits and the clamp not biting, extraction finds nothing if and only if the reference parser does |
| `FrameReceiver.SkipTransparentIff` | bmc/bmc_driver.c:362-370 | The skip cache is transparent for all ring contents if and only if bit_start plus unread bits are at most 3072 |
| `FrameReceiver.SkipHidesFrame` | bmc/bmc_driver.c:362-370 | Beyond 3072 bits, for every tail phase and length, contents for which a whole valid frame is waiting although the port claims to have seen everything |
| `RxPort.ExtractFromRing` | common/packet.c:270-389 | Ring wrap, bit shift and the 384-byte clamp together compute the extraction on the unbounded stream |
| `RxPort.FrameThroughRing` | common/packet.c:270-389 | An encoded frame at any tail phase and wrap position, with any bits around it, is returned with the same fields and advances exactly its wire bits |
| `FrameStream.RoundTrip` | common/packet.c:270-389 | The same over the stream: no false sync inside the preamble or overlapping it from up to seven arbitrary bits before |
| `FrameStream.OneBitShort` | common/packet.c:344-363 | With one or more bits of the frame missing nothing is accepted and nothing counted as an error |
| `FrameStream.SentIsReceived` | common/packet.c:94-114 | Packets sent back to back parse to exactly the messages sent: no false sync in any postamble or preamble |
| `DmaCounter.UpdateExact` | common/packet.c:419-436 | One update is exact for fewer than a lap of words, whichever of 0 and the reload value a lap boundary shows |
| `DmaCounter.SameReading` | bmc/bmc_driver.c:358-370 | The same reading twice means that no word arrived |
| `DmaCounter.TotalsExact` | common/packet.c:394-436 | Over any run of readings the computed total is the true transfer count |
| `DmaCounter.DeltaExact` | common/packet.c:404-414 | The difference of the totals of any two readings of a run is the number of words transferred between them |
| `DmaCounter.Update` | common/packet.c:419-436 | If the bookkeeping matched the transfers of the last reading and fewer than a lap followed, it matches those of this one, and the total is exactly their number |
| `RxPort.Port.Poll` | bmc/bmc_driver.c:345-453 | One poll of the driver is one extraction on the stream, or is skipped only when nothing has arrived; counters, overrun recovery and the tail, equal to the total read modulo the ring, included |
| `RxPort.Port.Recover` | bmc/bmc_driver.c:376-392 | An overrun puts the tail exactly 256 bytes behind the write position |
| `RxPort.PollMeans` | bmc/bmc_driver.c:376-452 | One poll finds at most one thing, starts at the newest 256 bytes after an overrun, and remembers that there was nothing exactly when it found nothing |
| `RxPort.ScheduleIndependent` | bmc/bmc_driver.c:397-406 | However the stream is split over polls without overrun, what they find is a prefix of one reference parse of the whole stream, and the rest is still to come |
| `FrameReceiver.QuietIff` | common/packet.c:284-335 | An extraction that finds nothing means that the reference parser finds no frame, for all contents, if and only if all bits are in the window and are either too few for a frame or enough to pass the entry guard |
| `FrameReceiver.GuardHidesFrame` | common/packet.c:284-293 | For every unaligned tail and every rest in the gap, contents in which the guard holds back a whole valid frame |
| `RxPort.GuardNeverDelivers` | bmc/bmc_driver.c:397-452 | Streams from the start of which a port runs into the guard: however often it polls, it delivers the first of two frames and never the second |
| `RxPort.AlwaysInStep` | bmc/bmc_driver.c:345-453 | At every poll of a stream of packets no sync word starts in the byte of the tail before the tail, so the entry guard never holds a sent frame back |
| `RxPort.ScheduleComplete` | bmc/bmc_driver.c:397-452 | Once a last poll with everything left in its window has found nothing, and the entry guard cannot hold a frame back, every frame of the reference parse has been delivered, in order |
| `RxPort.NextPacketFound` | bmc/bmc_driver.c:397-452 | In a stream of packets of which all bits have arrived a poll finds the next packet: neither guard nor window is in its way |
| `RxPort.SentIsPolled` | bmc/bmc_driver.c:397-452 | Packets sent, polled on any schedule without overrun: accepted messages are a prefix of those sent, no error is ever counted, and once a poll after the last bit has found nothing all have arrived |
| `RxPort.FurtherPolls` | bmc/bmc_driver.c:397-452 | Each poll after the last bit delivers one more message until all are delivered, so one poll per outstanding message suffices |
| `PioLink.AllRatesSound` | bmc/bmc_p2p_fast.pio:38-122 | The delays of all four rates meet the two timing margins: the sample falls after the mid-cell edge even in the first cell, and the receiver waits again before the next edge |
| `PioLink.NominalCells` | bmc/bmc_p2p.pio:53-82 | The cells of the four rates take 16, 12, 10 and 8 cycles and are divided in the middle |
| `PioLink.TxCell` | bmc/bmc_p2p.pio:67-79 | A bit is an edge and, for a one, another after half a cell; both arms of the loop take equally long |
| `PioLink.RxCell` | bmc/bmc_p2p.pio:91-125 | From any wait state one cell, its second half as long as it likes, shifts in exactly its bit and ends waiting for the next edge |
| `PioLink.WordSent` | bmc/bmc_p2p_mid12.pio:37-121 | All cells of a word arrive in the receiver |
| `PioLink.PacketSent` | bmc/bmc_p2p_mid10.pio:37-122 | A packet with an even number of zeros, with any stalls between its words, arrives bit by bit and leaves both programs as it found them |
| `PioLink.DecodesExactly` | bmc/bmc_p2p.pio:53-127 | At all four rates, for any packets and any pauses: from some cycle on the receiver has pushed exactly the transmitted words, and at every cycle what it has received is a prefix of them |
| `PioLink.ParityDecides` | bmc/bmc_p2p.pio:62-82 | After a last packet the receiver holds exactly its bits if and only if their zeros are even in number; otherwise exactly one false zero follows |
| `EndToEnd.RingGetsStream` | bmc/bmc_driver.c:177-194 | Encoded packets through the FIFO, line and autopush: the ring gets exactly their bits |
| `EndToEnd.MessagesArrive` | bmc/bmc_driver.c:345-453 | Messages to messages at every rate: encoded, driven with any pauses, decoded and polled at any cycles without overrun, the accepted messages are a prefix of those sent, and all of them once a poll after the last bit has found nothing or one poll per outstanding message has followed it |
| `OtaWire.RequestRoundTrip` | ota/ota_protocol.h:71-125 | Every request, laid out in the payload of one frame, is read back by the receiver as it was |
| `OtaWire.ReplyRoundTrip` | ota/ota_protocol.h:74-133 | Every reply, bitmap bytes included, is read back by the sender as it was, whatever the fields it ignores |
| `OtaWire.RequestLayout` | ota/ota_protocol.h:62-125 | Which byte of a request holds what, all numbers least significant byte first |
| `OtaWire.ReplyLayout` | ota/ota_protocol.h:72-133 | Which byte of a reply holds what, and which bit of the bitmap stands for which chunk |
| `OtaWire.RequestsRead` | ota/ota_receiver.c:51-62 | Which payloads the receiver reads as packets: a known type and at least the bytes of its fields |
| `OtaWire.HonestFits` | ota/ota_sender.c:236-270 | Whatever an honest sender sends has fields that fit their widths |
| `OtaWire.RequestsArrive` | bmc/bmc_driver.c:345-453 | From machine to machine: requests laid out, framed, driven, decoded and polled are heard in order, and in the end all of them |
| `OtaWire.RepliesArrive` | bmc/bmc_driver.c:345-453 | The same for replies |
| `ResponseQueue.InvNext` | ota/main_ota_bench.c:62-91 | Every read, write and index publication of either core keeps the queue invariant |
| `ResponseQueue.FifoInEveryInterleaving` | ota/main_ota_bench.c:62-91 | In every interleaving the popped messages are the pushed ones in order, at most 31 are queued, and every queued item is complete in its slot |
| `ResponseQueue.RefusalsExact` | ota/main_ota_bench.c:62-82 | A push gives up exactly when 31 messages are queued and a pop exactly when none is |
| `RingCursor.Cursor.UpdateHead` | common/ring_cursor.c:19-45 | Exact for fewer than capacity bytes between updates; an overrun moves the tail to exactly the newest quarter of the ring |
| `RingCursor.Cursor.Advance` | common/ring_cursor.c:54-60 | Consumes the given bytes, but no more than are unread |
| `RingCursor.Cursor.Peek` | common/ring_cursor.c:62-70 | Returns exactly the next unread bytes of the stream, across the wrap |
| `RingCursor.Cursor.Read` | common/ring_cursor.c:72-78 | Returns and consumes exactly the next unread bytes |
| `RingCursor.HeadDelta` | common/ring_cursor.c:22-27 | The head position alone determines how many bytes were written |
| `UartReceiver.Port.Poll` | uart/uart_driver.c:151-217 | One poll is one step of the byte-wise reference parser, or nothing below the entry length, after an overrun from the newest quarter |
| `UartReceiver.ScheduleIndependent` | uart/uart_driver.c:151-217 | Whatever the poll schedule, while nothing is overrun, the items found are a prefix of one reference parse |
| `UartReceiver.NothingLeft` | uart/uart_driver.c:160-179 | A poll that finds nothing in the whole stream leaves no frame behind |
| `UartReceiver.RefByteMeans` | uart/uart_driver.c:163-216 | The byte-wise parser looks at the very next byte: a bad length or a bad CRC costs one byte, a frame its length |
| `UartReceiver.Resynchronises` | uart/uart_driver.c:163-182 | Bytes that cannot be lengths are passed over one by one, and every frame after them is found |
| `UartReceiver.SentParses` | uart/uart_driver.c:107-146 | Frames sent back to back parse to exactly the messages sent |
| `FlashBench.Fill` | flash/flash_utils.c:30-61 | The buffer becomes the pattern of the seed, word by word little-endian, the tail included |
| `FlashBench.FirstWords` | flash/flash_utils.c:30-61 | The first words of two seeds byte by byte, the default seed included |
| `FlashBench.Bench.Interleaved` | flash/flash_bench.c:229-258 | Strategy (a) leaves the reference image, every page programmed once since its erase, and nothing else changed |
| `FlashBench.Bench.BlocksThenPages` | flash/flash_bench.c:263-309 | Strategy (b) leaves the same contents and page counts |
| `FlashBench.Bench.BlocksThenSectors` | flash/flash_bench.c:314-349 | Strategy (c) leaves the same contents and page counts |
| `FlashBench.Bench.ReadBack` | flash/flash_bench.c:165-212 | For any range, length and base seed the read-back reports a match exactly when the range holds the pattern, and the CRC of what it read |
| `FlashBench.SkippedWordShows` | flash/flash_utils.c:37-44 | A word left erased never matches the pattern, so a skipped program shows in the read-back |
| `FlashBench.Bench.MeasureStrategies` | flash/flash_bench.c:214-351 | Refusals as in the source; otherwise all three read-backs match and flash outside the range is untouched |
| `FlashBench.ProgramNext` | flash/flash_bench.c:28-36 | Programming the first erased bytes of the range extends the written content by exactly those bytes |

## Left out

- OtaSafety.TransferIsSafe: assumes packets built by this sender and this receiver; forged packets are not modelled.
- OtaLink.EveryScheduleCompletes: assumes FIFO links on which control packets always arrive in order and no timeout fires; `OtaHazards.TimeoutsAloneFail` and `OtaHazards.StaleRun` show runs without these assumptions that do not complete. Which grants it needs is `OtaCredit.CompletesIff`.
- OtaCredit.StarvesForever: the schedule it builds never runs the flash step; what a scheduler that is fair to the flash step does with such a grant is not stated.
- OtaWire.ReplyRoundTrip: for replies as the receiver builds them; a payload shorter than the bitmap it announces, and a status code the receiver never sends, are read as no packet.
- ReceiverMachine.Receiver.StepFlash: what a failed erase or program operation leaves in its block is any content, not the particular partial write of the hardware.
- RxPort.Port.Poll: assumes that DMA does not overwrite ring bytes while the CPU copies them; sequence-number drop statistics and byte counters are not modelled.
- RxPort.ScheduleComplete: on streams that need not come from the encoder, excludes rests of 73 to 79 unread bits behind an unaligned tail with a sync word just before it, where the entry guard may hold back a frame.
- PioLink.DecodesExactly: an ideal two-level line sampled in the cycle it is driven; no input synchroniser delay, jitter or clock mismatch.
- ResponseQueue.FifoInEveryInterleaving: memory operations are seen by the other core in the order they are issued, which is what the barriers before each index publication are for.
- UartReceiver.ScheduleIndependent: covers schedules without overrun; after an overrun a poll continues from the newest quarter of the ring.
- The machines exchange packets as records of the fields they use; their byte layout and their way over the link are separate theorems (`OtaWire`).
- Width limits that are never reached: 64-bit totals of bits, bytes and laps, and 16-bit counters below their bounds, are unbounded numbers; the casts that do matter (window index, window and chunk counts, credits, retries) are written out.
- Statistics, timing and throughput figures, printing, menus and benchmark reports.
- Pin, pad, clock, DMA channel and PIO configuration calls; the programs' instruction sequences are kept.
- The host flash mock overwrites bytes where NOR flash clears bits; both agree on erased flash, the only flash the receiver programs.
- The sender's send results: a packet handed to the link counts as sent, and losing it is left to the network.
- The transmit side of the UART and BMC drivers beyond the packet contents and FIFO order.
