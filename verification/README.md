# Verified model of the vehicle data pipeline

Dafny models of the protocols and algorithms at the core of the repository, with proofs
over all their runs and inputs. `dafny verify dfyconfig.toml` checks everything.

- **Motor telemetry through shared memory.** One producer publishes into a seqlock
  snapshot and a sixteen-slot ring of seqlocked blocks; readers poll the ring with cursors
  of their own; the recorder passes rows on through a lock-free queue. `Seqlock`,
  `MotorSnapshot`, `MotorRing` and `RowQueue` are machines whose steps are the single loads
  and stores of the code, so every interleaving is a run of the machine; their theorems
  hold at the end of every run. `MotorShm` and the class `RowQueue.Recorder` are the same
  functions as methods, proved to do exactly those steps.
- **The controller.** `CommandLink` runs the SET_CONFIG machine against a peer that keeps
  the contract of `src/giga_spi_8adc/motor_wire.h`; `FrameLedger` is the sequence
  accounting; `Crc` is the frame check, proved to be polynomial division.
- **The triple-buffer frame hand-off.** `FrameBuffer` has guest and host as machines, the
  condition under which they never touch one buffer, and the run that breaks it.
- **cJSON.** `JsonText` says what is printed and what is parsed; `JsonGrammar` writes down
  the grammar of RFC 8259 on its own and proves that the parser reads every spelling in
  it, `JsonAccepts` that it reads nothing else but what is listed there; `JsonRoundTrip`
  proves that printing gives such a spelling and that printing and parsing undo each
  other, but for numbers that overflow a double; `JsonLayout` fixes the printed layout;
  `JsonParser` and `JsonPrinter` are the buffers and loops that do the work; `JsonScans`
  says when the two scans of a string end apart; `JsonList` and `JsonDuplicate` are the
  child lists on real pointers.
- **Start-up library.** `AddressRanges` (the splitting list alone) and `AddressSpace` (the
  overlay splitter over its table), `BootArgs` (the packed argument editor), `EfiMap` (the
  in-place heap sort and the walk) and `Calendar`.

`Common` holds what several modules share.

Fields and parameters called history (sequences of what was published, accepted, shown)
exist to state properties; no step of the modelled code depends on them.  `decided` and
`latest` in `CommandLink` are not history but the peer's contract: a repeated command is
decided the way it was the first time.

Where the code and what is written about it differ, the model follows the code:

- `motor_ring_read_slot` is documented as returning false to a lapped reader; it returns
  the newest block of the slot instead, and the theorems say exactly when.
- The header of cJSON advises five bytes more than the text for a preallocated block; the
  code needs two.
- The comment on `fb_shm_header` says the guest must not pick the buffer the host is
  copying; the claim's separate load and store leave a window in which it does.
- `cJSON_AddItemToArray` does not clear `next` on a non-empty list.

## Model

| member | source | states |
|---|---|---|
| `MotorSnapshot.SnapshotReadsAreWhole` | src/giga_spi_8adc/motor_shm.h:100-136 | In every interleaving of one producer and any number of readers, a snapshot read during which fewer than 2^31 publishes began returns row, sequence number, timestamp and flags of one publish (or the initial contents), the last one complete when the successful attempt started. |
| `MotorSnapshot.SnapshotReadsNeverGoBack` | src/giga_spi_8adc/motor_shm.h:117-136 | Successive reads of one reader come from publishes that never get older. |
| `MotorSnapshot.ReadingsAreAccepted` | src/giga_spi_8adc/motor_shm.h:117-136 | Over every run a reader has returned exactly the copies its attempts accepted, in order: nothing accepted is lost and nothing else is returned. |
| `MotorSnapshot.UndisturbedReadReturns` | src/giga_spi_8adc/motor_shm.h:117-136 | A read that starts between two publishes and is not disturbed returns the last sample published, after 17 loads. |
| `MotorSnapshotWrap.TornReadAfterWrap` | src/giga_spi_8adc/motor_shm.h:106-133 | The bound is needed: a run with exactly 2^31 publishes inside one attempt makes the reader accept words that no single publish ever stored. |
| `Seqlock.WriterKeepsInv` | src/giga_spi_8adc/motor_shm.h:106-114 | Each store of a publish keeps: the lock word is odd exactly while a publish is storing, and between publishes the words are the last version. |
| `Seqlock.AcceptedIsWhole` | src/giga_spi_8adc/motor_shm.h:125-133 | A read whose two lock loads agree, with fewer than 2^31 publishes between them, copied exactly the version complete at the first load. |
| `Seqlock.RetriesExactly` | src/giga_spi_8adc/motor_shm.h:117-136 | Whatever the record does between its loads: a read fails if and only if 64 attempts were given up (odd lock word, or another one at the second load), and succeeds if and only if one attempt saw the same even lock word at both loads. |
| `Seqlock.UndisturbedRead` | src/giga_spi_8adc/motor_shm.h:117-136 | A read left alone with a record between two publishes copies exactly its content, in one load for each word and two for the lock word. |
| `MotorRing.DeliveriesAreWholeBlocks` | src/giga_spi_8adc/motor_shm.h:140-188 | In every interleaving, a block handed out for position pos (fewer than 2^31 publishes of that slot inside the attempt) is exactly the block published at some position q >= pos of the same slot, and q is pos if and only if the publish of pos + depth had not begun at the second lock load. |
| `MotorRing.StoredBlockReadsBack` | src/giga_spi_8adc/motor_shm.h:151-182 | Whatever an older, longer block left in the slot, the words a reader takes after a publish are those of the new block with its row count clamped to 200. |
| `MotorRing.EncodeBlockInjective` | src/giga_spi_8adc/motor_shm.h:46-53 | The words a reader takes determine the block: header fields, row count and every row. |
| `MotorRing.CursorLedger` | src/shm_sender/shm_reader_c.c:87-117 | Over any run of polls against an advancing producer: read_pos is start plus delivered plus dropped, positions are asked for in increasing order, and read_pos never passes the write_pos its poll loaded. |
| `MotorRing.EveryPositionIsAccounted` | src/shm_sender/shm_reader_c.c:80-118 | Over every run from any state: a cursor has delivered exactly the blocks its reads accepted, each for its position and in order, and dropped exactly the positions it skipped as lapped or gave up on. |
| `MotorRing.PollEndsAtWritePos` | src/shm_sender/shm_reader_c.c:80-118 | Whatever runs meanwhile, a poll delivers at most maxBlocks blocks, and when it is over it has reached the write_pos it loaded or delivered that many. |
| `MotorRing.UndisturbedPoll` | src/shm_sender/shm_reader_c.c:80-118 | A poll that starts between two publishes and is not disturbed delivers every block from the cursor, or from 16 before write_pos, on, each as published at its position, and drops only what is further behind. |
| `MotorRing.AttachedWhere` | src/shm_sender/shm_reader_c.c:67-70 | A reader starts at write_pos, or, with history, at most 16 blocks before it. |
| `MotorRing.WritePosCounts` | src/giga_spi_8adc/motor_shm.h:144-163 | write_pos counts committed blocks, one behind only between the slot's commit and the store of write_pos. |
| `MotorRing.PublishCompletes` | src/giga_spi_8adc/motor_shm.h:140-164 | A publish run to its end adds one block, the frame's header with its rows up to 200, and moves write_pos by one. |
| `MotorShm.LockedWords.Publish` | src/giga_spi_8adc/motor_shm.h:100-115 | The publish as a method leaves the record that the machine's steps from the first load to the last store leave: lock word up by two, all stores applied, one more version. |
| `MotorShm.LockedWords.Read` | src/giga_spi_8adc/motor_shm.h:124-135 | The 64-attempt read as a method: it succeeds exactly when the lock word is even, copies exactly the record's content, and its loads are the machine's reader steps. |
| `MotorShm.Snapshot.Publish` | src/giga_spi_8adc/motor_shm.h:100-115 | After the call the shared words are exactly row, sequence number, timestamp and flags. |
| `MotorShm.Snapshot.Read` | src/giga_spi_8adc/motor_shm.h:118-136 | With no publish in progress the read succeeds and returns the row, sequence number, timestamp and flags last stored. |
| `MotorShm.Ring.constructor` | src/giga_spi_8adc/motor_shm.h:77-89 | A region initialised: depth 16, write_pos 0, every slot's lock word even. |
| `MotorShm.Ring.Publish` | src/giga_spi_8adc/motor_shm.h:140-164 | The sequence of published blocks grows by the frame with its rows cut at 200, the last sixteen of them are each in their slot, and write_pos is their number modulo 2^64. |
| `MotorShm.Ring.ReadSlot` | src/giga_spi_8adc/motor_shm.h:168-188 | Succeeds exactly when the slot's lock word is even; on a ring in order it returns the newest block of the position's slot. |
| `MotorShm.NewestIsIt` | src/giga_spi_8adc/motor_shm.h:172-185 | That newest block is the position's own exactly when no more than depth blocks have been published from it on: a lapped reader is given the block of pos + k * depth. |
| `MotorShm.ShmReader.PollBlocks` | src/shm_sender/shm_reader_c.c:80-118 | With 64-bit wrap-around: exactly the readable positions between the first wanted and the new read_pos are delivered, in order and out of their slots; dropped is the lapped count plus the number of the others; the poll ends at write_pos or with maxBlocks blocks, and at or below write_pos exactly when it started there or write_pos is at least 16 (after a producer restart it can stay above). |
| `MotorShm.DeliveredBlocks` | src/motor_recorder/recorder.c:321-343 | On a ring in order, polled without being lapped, every position is delivered, with exactly the block published at it. |
| `MotorShm.PollWhole` | src/shm_sender/shm_reader_c.c:80-118 | A whole poll of a ring in order, lapped or not: dropped is what lies more than 16 back, and the blocks from there on are delivered one after the other, as many as were asked for. |
| `MotorShm.ShmReader.constructor` | src/shm_sender/shm_reader_c.c:67-70 | A reader opens at write_pos. |
| `RowQueue.QueueLinearizes` | src/motor_recorder/recorder.c:153-172 | Every interleaving of the pushing and the popping thread is a legal history of a FIFO of capacity 2^k - 1: a push is refused only when it is full, a pop finds the queue empty only when it is. |
| `RowQueue.EmptyPopsAreReported` | src/motor_recorder/recorder.c:164-172 | Whatever the pushing thread does between a pop's two loads, the pop returns nothing if and only if the history has it find the queue empty at the first. |
| `RowQueue.ResultsAreEffects` | src/motor_recorder/recorder.c:153-172 | Every other result is given at the very step of its effect: true exactly when a row is enqueued, false exactly when one is rejected, a row exactly when that row is dequeued. |
| `RowQueue.TakenIsPrefixOfAccepted` | src/motor_recorder/recorder.c:153-172 | Rows come out in the order accepted, none lost, none invented, none repeated. |
| `RowQueue.NoSlotIsSharedWhileWritten` | src/motor_recorder/recorder.c:155-169 | The slot about to be stored into is never the slot the popping thread is about to read. |
| `RowQueue.RecorderLedger` | src/motor_recorder/recorder.c:226-262 | Rows seen are rows written plus rows dropped on a full queue plus rows queued plus rows of the current block still to push. |
| `RowQueue.EveryRowIsOffered` | src/motor_recorder/recorder.c:226-262 | In every run each row of every block is offered to the queue once and in order, dropped counts the pushes that found it full, and rec_rows the rows taken out. |
| `RowQueue.PushesFill` | src/motor_recorder/recorder.c:226-239 | Pushes that nothing interrupts queue the first rows, as many as fit, and drop the others. |
| `RowQueue.FullExactly` | src/motor_recorder/recorder.c:157-158 | head + 1 meets tail exactly when 2^k - 1 rows are queued. |
| `RowQueue.EmptyExactly` | src/motor_recorder/recorder.c:166-168 | head meets tail exactly when nothing is queued. |
| `RowQueue.RunPushInv` | src/motor_recorder/recorder.c:153-162 | A whole push appends the row or, exactly when 2^k - 1 rows are queued, refuses it and counts it as dropped. |
| `RowQueue.RunPopInv` | src/motor_recorder/recorder.c:164-172 | A whole pop takes the oldest row, or nothing from an empty queue. |
| `RowQueue.Recorder.constructor` | src/motor_recorder/recorder.c:135-144 | queue_alloc: an empty queue of 2^k slots. |
| `RowQueue.Recorder.QueuePush` | src/motor_recorder/recorder.c:153-162 | Refused exactly when head + 1 meets tail; otherwise the row is at the old head and head moved on. |
| `RowQueue.Recorder.QueuePop` | src/motor_recorder/recorder.c:164-172 | Nothing exactly when head meets tail; otherwise the row at the old tail, and tail moved on. |
| `RowQueue.Recorder.PushBlock` | src/motor_recorder/recorder.c:226-239 | The reader thread's loop over a block is the machine's pushes one after the other: the first rows that fit 2^k - 1 are queued in order, the others counted in dropped, all of them in total_rows. |
| `RowQueue.Recorder.TakeRow` | src/motor_recorder/recorder.c:252-262 | The writer thread's turn takes the oldest queued row if there is one and counts it in rec_rows, and nothing else. |
| `FrameBuffer.HandOffIsSafe` | src/frame_router/fb_guest.c:316-350 | As long as the guest never steals (chooses a buffer while the host holds the index of that same buffer, loaded but not yet stored as claimed), in every interleaving the guest never writes the buffer being copied, every displayed frame is one whole publish, publish numbers never go down, and each is at most one behind the frame_seq loaded. |
| `FrameBuffer.HandOffExcludesExactly` | src/frame_router/fb_host.c:186-194 | Over every run, guest and host are kept out of one buffer, now and after the host's next step, if and only if the guest never steals. |
| `FrameBuffer.StealCollides` | src/frame_router/fb_guest.c:320-335 | In every reachable state, the guest's choice followed by the host's store of its claim puts both in one buffer if and only if the choice is a theft: the index the host holds is 1 when front is 0, and 0 otherwise. |
| `FrameBuffer.QuickClaimsNeverSteal` | src/frame_router/fb_host.c:186-189 | A claim that no front_index store followed by a host_reading_index load overtakes is never stolen. |
| `FrameBuffer.OvertakenClaimCollides` | src/frame_router/fb_host.c:186-189 | A run from the start in which the guest steals (load and store of the claim are separate) ends with the guest drawing into the buffer the host is copying. |
| `FrameBuffer.GuestAlwaysFindsABuffer` | src/frame_router/fb_guest.c:320-330 | The search always yields a buffer that is neither front nor claimed: the no-buffer branch is unreachable. |
| `FrameBuffer.FreeSlotExists` | src/frame_router/fb_guest.c:320-326 | For any front and reading index, valid or not, one of the three buffers is free. |
| `FrameBuffer.FailedCaptureIsDropped` | src/frame_router/fb_guest.c:332-350 | A capture that fails publishes nothing, whatever rows it has drawn; the next turn draws and publishes its own image in full. |
| `FrameBuffer.FrameRegion.constructor` | src/frame_router/fb_guest.c:299-302 | The header the guest initialises and the host's first last_seq. |
| `FrameBuffer.FrameRegion.GuestTurn` | src/frame_router/fb_guest.c:316-350 | One producer turn, run alone, is the machine's steps: the image ends up whole in a buffer that was not the front, which becomes the front. |
| `FrameBuffer.FrameRegion.HostTurn` | src/frame_router/fb_host.c:186-194 | One consumer turn, run alone, is the machine's steps: it shows a frame exactly when frame_seq moved, and that frame is the last image published. |
| `FrameBuffer.FrameRegion.PublishedIsShown` | src/frame_router/fb_host.c:186-194 | A host that has shown what there was shows the next image published, once. |
| `CommandLink.ActivationsAreAccepted` | src/giga_spi_8adc/motor_controller.c:383-421 | Over all runs with lost transfers, superseding reloads and bus reinits, active_stm is only set to the payload of the command in flight, and the STM had accepted that very command unless 65536 or more commands were queued since the one echoed. |
| `CommandLink.AliasedAck` | src/giga_spi_8adc/motor_controller.c:327-327 | The 16-bit bound is needed: after 65536 superseding reloads an old ACK activates a configuration the STM was never sent. |
| `CommandLink.AckMakesConfigActive` | src/giga_spi_8adc/motor_controller.c:633-635 | At the loop head the payload in flight is cfg.stm, so the exchange that takes an ACK_OK leaves active_stm equal to cfg.stm and the machine idle. |
| `CommandLink.CommandLedger` | src/giga_spi_8adc/motor_controller.c:339-421 | Commands queued are acks plus nacks plus superseded plus one if pending, in every reachable state. |
| `CommandLink.RetryBudget` | src/giga_spi_8adc/motor_controller.c:361-397 | The budget of a pending command is 32 less the exchanges completed since it was queued or the bus reopened, not below 0; once spent, the next validated frame with another echo gives up and leaves active_stm alone. |
| `CommandLink.ExchangeOutcome` | src/giga_spi_8adc/motor_controller.c:383-421 | In every reachable state, for every exchange: of the pending command, echoed by an intact frame with fitting rows, ACK_OK makes the payload active and counts an ack, NACK alone counts a nack and leaves active_stm, neither leaves it pending; with another echo it is given up once 32 exchanges are spent; any other exchange only costs an attempt. |
| `CommandLink.VerdictSettles` | src/giga_spi_8adc/motor_controller.c:383-421 | A command that the peer decided and reports is not pending afterwards, and was settled the way the peer decided it. |
| `CommandLink.ReloadOutcome` | src/giga_spi_8adc/motor_controller.c:551-642 | In every reachable state a reload with another configuration queues it as the next command with 32 retries, the pending one superseded; with the same configuration a reopened bus gives the pending command 32 retries again; nothing else changes. |
| `CommandLink.FirstCommand` | src/giga_spi_8adc/motor_controller.c:746-748 | Start-up leaves the loaded configuration pending as command 1, padding zeroed, with 32 retries. |
| `CommandLink.PendingCommandIsSent` | src/giga_spi_8adc/motor_controller.c:349-358 | The pending command, with its 16-bit number and its payload, and nothing else, rides every transfer that gets through. |
| `CommandLink.MotorController.constructor` | src/giga_spi_8adc/motor_controller.c:746-748 | Start-up queues the loaded configuration as the first command. |
| `CommandLink.MotorController.SetConfig` | src/giga_spi_8adc/motor_controller.c:320-347 | The whole new command state: next 16-bit number, frame with padding zeroed, full budget, pending. |
| `CommandLink.MotorController.ObserveHeader` | src/giga_spi_8adc/motor_controller.c:383-421 | The whole effect of cmd_observe, whose outcomes ExchangeOutcome states; it reports success exactly when it counted an ACK_OK. |
| `CommandLink.MotorController.Reload` | src/giga_spi_8adc/motor_controller.c:551-642 | The parts of handle_reload that touch the command: a fresh budget after a bus reopen, a new command only for a changed configuration. |
| `CommandLink.MotorController.CompleteExchange` | src/giga_spi_8adc/motor_controller.c:831-859 | From a completed exchange to cmd_observe, with the row-count checks before it, the code takes the machine's exchange step. |
| `Crc.FrameCrcCompute` | src/giga_spi_8adc/motor_controller.c:99-108 | The nested loops compute the fold over the bytes of the register update, from all ones: the value that CrcIsRemainder and CrcOfOneByte state. |
| `Crc.CrcIsRemainder` | src/giga_spi_8adc/motor_controller.c:99-108 | The result is the remainder of polynomial long division over GF(2), by x^32 plus the polynomial whose bits spell 0x04C11DB7, of the message followed by 32 zeros with its first 32 bits inverted. |
| `Crc.PolyNumber` | src/giga_spi_8adc/motor_controller.c:105-105 | The generator's bits, read as a number by Horner's rule, are 0x04C11DB7. |
| `Crc.CrcOfOneByte` | src/giga_spi_8adc/motor_controller.c:99-108 | The CRC of the single byte 0xFE is 0xFB3EE2B7. |
| `Crc.AbsorbAllInjective` | src/giga_spi_8adc/motor_controller.c:103-106 | For fixed data the register update is injective. |
| `Crc.AbsorbAllOnto` | src/giga_spi_8adc/motor_controller.c:103-106 | For fixed data every register value is reached: with injectivity, a bijection. |
| `Crc.BurstsAreDetected` | src/giga_spi_8adc/motor_controller.c:99-108 | Two bit strings that agree outside a window of at most 32 bits get the same remainder if and only if they agree inside it. |
| `Crc.FourByteBurstsAreDetected` | src/giga_spi_8adc/motor_controller.c:99-108 | Two messages of equal length that differ only inside four consecutive bytes never have the same CRC. |
| `FrameLedger.Accounts.Account` | src/giga_spi_8adc/motor_controller.c:874-909 | The accounting branch for one frame is the specification's step, which EveryFrameIsCounted ties to the counters, and it says whether the frame is published. |
| `FrameLedger.Accounts.Reopen` | src/giga_spi_8adc/motor_controller.c:604-607 | A reopened bus drops the baseline and nothing else. |
| `FrameLedger.AccountingIsExact` | src/giga_spi_8adc/motor_controller.c:876-908 | Over a whole run with the bus reopened any number of times, counters not decreasing between two reopenings and across any number of 32-bit wraps: frames_ok plus seq_drops never exceeds the sum over the segments of last - first + 1, and equals it if and only if every gap inside a segment is below 2^31; then no reset is counted and duplicates are exactly the repeats. |
| `FrameLedger.EveryFrameIsCounted` | src/giga_spi_8adc/motor_controller.c:874-909 | Over a whole run, for any counters, decreasing ones included: frames_ok is the number of frames published, seq_drops the sum of the forward gaps less one each, duplicates the number of repeats, and resets the number of neighbours whose 32-bit signed difference is negative. |
| `FrameLedger.OnlyRepeatsAreWithheld` | src/giga_spi_8adc/motor_controller.c:876-908 | Whatever the counters: a frame is withheld exactly when it is not the first since the bus was opened and its counter agrees with the one before modulo 2^32, which for neighbours less than 2^32 apart means a repeat. |
| `AddressSpace.ContainingIsFiledAsPartition` | qnx_guests/src/hardware/startup/lib/as_add_containing.c:36-140 | In particular containers laminar in table order are filed as a partition of the contained addresses. |
| `AddressSpace.ContainingIsFiledExactly` | qnx_guests/src/hardware/startup/lib/as_add_containing.c:36-140 | For every well-formed table and any containers in any order: one contiguous CONTINUED chain of live ranges is filed, and it is a partition of the contained addresses, each range the last matching container's, if and only if every piece inserted reaches no range but the one it is split into and does not run past that one to the last address. |
| `AddressSpace.FiledPartitionExactly` | qnx_guests/src/hardware/startup/lib/as_add_containing.c:50-124 | The same of the ranges emitted: a partition, and indeed without overlap, if and only if every step is such. |
| `AddressSpace.BadPieceIsFiledTwice` | qnx_guests/src/hardware/startup/lib/as_add_containing.c:62-124 | Otherwise two entries of the table the call leaves hold one address. |
| `AddressSpace.LastAddressWraps` | qnx_guests/src/hardware/startup/lib/as_add_containing.c:104-109 | A table of two containers, the second sticking out to the right as far as the last address: piece_end + 1 wraps to 0 and the addresses of the first are filed twice. |
| `AddressRanges.InsertAllExactly` | qnx_guests/src/hardware/startup/lib/as_add_containing.c:62-116 | From any partition: inserting pieces one by one keeps a partition owned by the last piece if and only if every step is ok; once two ranges share an address, every later insertion keeps that so. |
| `AddressRanges.PartitionExactly` | qnx_guests/src/hardware/startup/lib/as_add_containing.c:62-116 | From the empty list: a partition, and indeed apart, if and only if every step is ok. |
| `AddressRanges.LivePartitionExactly` | qnx_guests/src/hardware/startup/lib/as_add_containing.c:62-124 | The same after the emission guard has dropped the ranges left inside out. |
| `AddressRanges.StickingOutRightIsOk` | qnx_guests/src/hardware/startup/lib/as_add_containing.c:85-119 | A piece that sticks out to the right leaves an inside-out range behind, which the guard drops, and the rest is a partition although the pieces are not laminar. |
| `AddressRanges.NestedPieceSplits` | qnx_guests/src/hardware/startup/lib/as_add_containing.c:62-124 | A piece inside another leaves what is below it, itself, and what is above it, in this order, empty parts left out. |
| `AddressRanges.DisjointStayInOrder` | qnx_guests/src/hardware/startup/lib/as_add_containing.c:60-116 | Pieces that share nothing stay as they are, in the order found. |
| `AddressSpace.LaminarContainersArePartitioned` | qnx_guests/src/hardware/startup/lib/as_add_containing.c:50-117 | Containers laminar in table order pass every step: non-empty, disjoint ranges that cover exactly the contained addresses, each the last matching container's. |
| `AddressSpace.FiledEntries` | qnx_guests/src/hardware/startup/lib/as_add_containing.c:118-139 | For every well-formed table: exactly the ranges that hold an address are filed, one entry each, CONTINUED but the last, one overlay copy each when asked; the owners get their KIDS bits, nothing else changes, and the first offset is returned. |
| `AddressSpace.FiledFields` | qnx_guests/src/hardware/startup/lib/as_add_containing.c:118-139 | The same field by field: start, end, owner, name and each attribute bit of every container, range and overlay copy. |
| `AddressSpace.UnorderedContainersOverlap` | qnx_guests/src/hardware/startup/lib/as_add_containing.c:62-116 | A table of two containers, the second sticking out of the first to the left: both entries the call files hold the addresses in between. |
| `AddressSpace.AsTable.MatchName` | qnx_guests/src/hardware/startup/lib/as_find_containing.c:28-35 | Walking the owners finds the name exactly when the entry or one of its owners has it, and terminates. |
| `AddressSpace.HasNameExactly` | qnx_guests/src/hardware/startup/lib/as_find_containing.c:28-35 | An entry has the name if and only if some walk up its owners ends at an entry of that name. |
| `AddressSpace.AsTable.FindContaining` | qnx_guests/src/hardware/startup/lib/as_find_containing.c:37-58 | Returns the first entry behind the offset that has the name and touches the range, or none if there is none. |
| `AddressSpace.AsTable.Add` | qnx_guests/src/hardware/startup/lib/as_add64.c:26-64 | Entry by entry: the new entry is behind the others, its owner alone has its KIDS bit set, and under an overlay an io entry with the same stretch and attributes follows, owned by it. |
| `AddressSpace.AsTable.Collect` | qnx_guests/src/hardware/startup/lib/as_add_containing.c:49-117 | The first loop ends and leaves the list that inserting every hit's piece in table order leaves. |
| `AddressSpace.AsTable.Place` | qnx_guests/src/hardware/startup/lib/as_add_containing.c:63-116 | The inner loop inserts one piece: at the first range holding its start, split in up to three, or at the end. |
| `AddressSpace.AsTable.AddContaining` | qnx_guests/src/hardware/startup/lib/as_add_containing.c:36-140 | The whole call leaves the table, and returns the offset, that the specification says; both loops terminate. |
| `BootArgs.DoAdjust` | qnx_guests/src/hardware/startup/lib/bootstrap_cmdline.c:29-81 | Finds the first match in the strings its count reaches and edits the list: replaced, deleted or appended, the strings before it and the bytes behind it in place, the 16-bit size and the 8-bit count stepped; false and nothing changed when there is no match. |
| `BootArgs.EntryInBytes` | qnx_guests/src/hardware/startup/lib/public/sys/startup.h:320-330 | The bytes of an entry with two arguments and one variable: the size, low byte first, the two counts, the header address, and the strings with their NULs. |
| `BootArgs.ArgAdjust` | qnx_guests/src/hardware/startup/lib/bootstrap_cmdline.c:84-87 | The argument list is edited; the environment, the trailing bytes, the header address and everything around the entry are as before. With 128 or more arguments, whose int8_t count reads as a huge unsigned, that holds when the string is an argument; when it is a variable instead, the environment is edited and the argument count stepped. |
| `BootArgs.EnvAdjust` | qnx_guests/src/hardware/startup/lib/bootstrap_cmdline.c:90-93 | The environment is edited; the arguments, the trailing bytes, the header address and everything around the entry are as before, with 128 or more variables too when the string is one of them. |
| `BootArgs.RunOnEditsTheEnvironment` | qnx_guests/src/hardware/startup/lib/bootstrap_cmdline.c:37-61 | What an argument search that runs on into the environment does to the lists: replacing, the variable is replaced; deleting, the variable is gone and the last argument has become the first variable. |
| `BootArgs.Find` | qnx_guests/src/hardware/startup/lib/bootstrap_cmdline.c:39-55 | The search stops at the first matching string, or behind the list when none is asked for. |
| `BootArgs.Splice` | qnx_guests/src/hardware/startup/lib/bootstrap_cmdline.c:70-76 | memmove from p - diff and memcpy over its front replace the string exactly: every byte dragged in from before p is overwritten. |
| `BootArgs.AddThenDelete` | qnx_guests/src/hardware/startup/lib/bootstrap_cmdline.c:58-69 | Adding a string that was not there and deleting it again is no change. |
| `BootArgs.EditedAgainExactly` | qnx_guests/src/hardware/startup/lib/bootstrap_cmdline.c:70-79 | After an edit the size field is exact, so that the memory holds the new lists as the next edit asks, if and only if the size is still below 2^16; both counts are besides below 128 if and only if both lists are. |
| `BootArgs.AddThenDeleteArg` | qnx_guests/src/hardware/startup/lib/bootstrap_cmdline.c:58-87 | Both calls on the bytes: every byte up to the end of the entry is as it was, the grown region holds the tail of the longer entry, and everything behind is as it was. |
| `BootArgs.NullIntoNullShiftsTheLists` | qnx_guests/src/hardware/startup/lib/bootstrap_cmdline.c:50-61 | Editing null into null moves no byte but takes one off the count, so the last argument becomes the first variable. |
| `EfiMap.Heapify` | qnx_guests/src/hardware/startup/lib/efi_entry_point.c:113-133 | Makes a max-heap of the first count entries, permuting them and leaving the rest. |
| `EfiMap.SiftUp` | qnx_guests/src/hardware/startup/lib/efi_entry_point.c:117-131 | The inner loop extends a max-heap by one entry. |
| `EfiMap.SortMap` | qnx_guests/src/hardware/startup/lib/efi_entry_point.c:135-149 | For any count >= 1 the entries end up ascending by PhysicalStart, a permutation of the input. |
| `EfiMap.HeapTop` | qnx_guests/src/hardware/startup/lib/efi_entry_point.c:141-147 | The top of a max-heap is its greatest entry. |
| `EfiMap.TopSortedGrows` | qnx_guests/src/hardware/startup/lib/efi_entry_point.c:141-147 | Swapping the top to the end extends the sorted tail. |
| `EfiMap.Walker.Walk` | qnx_guests/src/hardware/startup/lib/efi_entry_point.c:151-168 | Sorts once, at the first call; then the next entry, or none behind the last. |
| `EfiMap.Walker.WalkAll` | qnx_guests/src/hardware/startup/lib/efi_entry_point.c:151-168 | A walk from the start visits every entry exactly once, ascending. |
| `Calendar.TmBuffer.Gmtime` | qnx_guests/src/hardware/startup/lib/gmtime.c:26-53 | The fields filled in are the one split of the instant under a leap day every fourth year. |
| `Calendar.SplitIsUnique` | qnx_guests/src/hardware/startup/lib/gmtime.c:32-51 | An instant has only one such split. |
| `Calendar.WeekdaysFollow` | qnx_guests/src/hardware/startup/lib/gmtime.c:26-53 | Day 0 is a Thursday, and each day is one day of the week later. |
| `Calendar.DaysOfMonths` | qnx_guests/src/hardware/startup/lib/gmtime.c:28-30 | The month table: thirty days have April, June, September and November. |
| `Calendar.CalendarRoundTrip` | qnx_guests/src/hardware/startup/lib/calc_time_t.c:33-61 | calc_time_t of _gmtime(t) is t, except on March to December dates of century years not divisible by 400, where it is t - 86400. |
| `Calendar.GmtimeIsGregorianUntil2100` | qnx_guests/src/hardware/startup/lib/gmtime.c:35-51 | _gmtime names the Gregorian date and time of the instant, a date that exists and falls on it, if and only if the instant is before 1 March 2100, 00:00. |
| `Calendar.TwentyNinthOfFebruary2100` | qnx_guests/src/hardware/startup/lib/gmtime.c:26-51 | All through 1 March 2100 it names 29 February 2100, a day the Gregorian calendar does not have. |
| `JsonRoundTrip.PrintThenParse` | src/giga_spi_8adc/cJSON.c:1367-1896 | Printing any tree of null, booleans, integers below 10^15 in size, overflowed numbers, strings, arrays and objects within the nesting limit, formatted or not, and parsing gives the same tree with every overflowed number replaced by null, so the same tree if and only if every number is finite; it stops at the end of the text, with its NUL, required or not, and on the bare bytes. |
| `JsonGrammar.SpellingReads` | src/giga_spi_8adc/cJSON.c:1368-1420 | Completeness against the grammar of RFC 8259: wherever a legal spelling of a value stands in an input (any white space, any escapes, any of the two letter cases), the parser reads what it means and stops right behind it. |
| `JsonGrammar.TextReads` | src/giga_spi_8adc/cJSON.c:1147-1192 | A byte order mark or none, white space, a legal spelling, white space and a NUL parse to what the spelling means. |
| `JsonGrammar.EscapeStandsFor` | src/giga_spi_8adc/cJSON.c:870-931 | Each of the eight two-character escapes of section 7 of RFC 8259, between any plain bytes, parses to the byte the RFC gives. |
| `JsonAccepts.TextAccepted` | src/giga_spi_8adc/cJSON.c:1147-1192 | Soundness: whatever text parses is a byte order mark or none, white space, a spelling that means the result, and white space up to the NUL if one was asked for. |
| `JsonAccepts.ValueAccepted` | src/giga_spi_8adc/cJSON.c:1368-1420 | The same of a value anywhere in an input: nothing but spellings of the grammar is parsed, save the leniencies the grammar of what is accepted lists. |
| `JsonAccepts.OtherEscapesFail` | src/giga_spi_8adc/cJSON.c:870-924 | A backslash before any byte but those eight and u fails the parse, whatever follows. |
| `JsonAccepts.FractionsAreSetApart` | src/giga_spi_8adc/cJSON.c:309-380 | An integer with a point, an e or an E behind it is the kind of number the model sets apart. |
| `JsonRoundTrip.PrintIsWritten` | src/giga_spi_8adc/cJSON.c:1423-1494 | What is printed, formatted or not, is a legal spelling of the value with overflowed numbers as null. |
| `JsonRoundTrip.NestedExactly` | src/giga_spi_8adc/cJSON.c:1502-1506 | What nests within the limit is exactly what has at most 1000 levels of arrays and objects. |
| `JsonRoundTrip.NumberLimits` | src/giga_spi_8adc/cJSON.c:309-410 | The limits of exact and of infinite integers are 10^15 and 2^1024 - 2^970. |
| `JsonLayout.FormattedIsLaidOut` | src/giga_spi_8adc/cJSON.c:1595-1896 | The formatted text is the unformatted one laid out by a rule on the text alone: a line feed behind an opening brace and behind each member, as many tabs as the depth of objects and arrays in front of each line, a tab behind a colon, a space behind a comma in an array, and nothing inside strings. |
| `JsonLayout.UnformattedHasNoBlanks` | src/giga_spi_8adc/cJSON.c:1595-1896 | Unformatted, no white space is written between tokens. |
| `JsonLayout.EscapeIsShortest` | src/giga_spi_8adc/cJSON.c:954-1073 | No way to write a byte in a string is shorter than the printed one, and its hexadecimal digits are in lower case. |
| `JsonLayout.DigitsAreShortest` | src/giga_spi_8adc/cJSON.c:594-661 | A number is printed without leading zeros, and its digits spell it. |
| `JsonRoundTrip.ParsePrinted` | src/giga_spi_8adc/cJSON.c:1368-1420 | The same wherever the printed value stands in an input, at any depth. |
| `JsonRoundTrip.ParsePrintParse` | src/giga_spi_8adc/cJSON.c:1147-1192 | Whatever text parses, printing what it parsed to succeeds and parses to that tree with overflowed numbers as null: to the same tree if and only if every number in it is finite. |
| `JsonRoundTrip.ParsedIsNested` | src/giga_spi_8adc/cJSON.c:1502-1506 | Whatever parses is within the printer's nesting limit. |
| `JsonRoundTrip.ParsePrintedString` | src/giga_spi_8adc/cJSON.c:954-1073 | An escaped string is read back, byte for byte, up to its closing quote. |
| `JsonRoundTrip.ParsePrintedNumber` | src/giga_spi_8adc/cJSON.c:309-410 | A decimal integer of any size, wherever no number character follows, is read as itself below 10^15 and as infinite from 2^1024 - 2^970 on. |
| `JsonRoundTrip.IntegerText` | src/giga_spi_8adc/cJSON.c:309-410 | The same of the integer as a whole text, with its NUL required or not. |
| `JsonRoundTrip.OverflowingIntegerBecomesNull` | src/giga_spi_8adc/cJSON.c:594-661 | The text of an integer parses to an infinite number, prints as null and parses again as null, if and only if it is at least 2^1024 - 2^970 in size; below 10^15 it comes back digit for digit. |
| `JsonRoundTrip.Utf16EscapeReads` | src/giga_spi_8adc/cJSON.c:701-821 | Every code point outside the surrogates, escaped as RFC 8259 says (one literal or a surrogate pair), is read as its UTF-8 bytes. |
| `JsonParser.OutputFits` | src/giga_spi_8adc/cJSON.c:837-863 | For every input, in step or not, the bytes parse_string produces and their NUL fit the size its first scan computes. |
| `JsonParser.PieceFits` | src/giga_spi_8adc/cJSON.c:872-925 | Wherever the second scan stands, a piece writes at most what it reads less the backslashes the first scan counted there. |
| `JsonScans.ScansDisagreeExactly` | src/giga_spi_8adc/cJSON.c:837-951 | On every string both scans accept, the second ends at the quote the first found or one past it; past it if and only if a \u literal it reads ends at an odd offset inside the backslashes right before that quote. |
| `JsonScans.HexKeepsScansTogether` | src/giga_spi_8adc/cJSON.c:686-699 | With hexadecimal digits behind every \u the second scan ends exactly at the first scan's quote. |
| `JsonParser.Utf8Exactly` | src/giga_spi_8adc/cJSON.c:766-813 | The encoding is UTF-8: a decoder that as section 3 of RFC 3629 refuses overlong forms and surrogates gives the code point for the encoding and for no other byte sequence. |
| `JsonParser.ParseHex4` | src/giga_spi_8adc/cJSON.c:666-699 | Four hexadecimal digits as a number, 0 for anything else. |
| `JsonParser.EncodeUtf8` | src/giga_spi_8adc/cJSON.c:769-815 | The bytes written from the last back are the sequence's, and nothing before them changes. |
| `JsonParser.ParseBuffer.SkipWhitespace` | src/giga_spi_8adc/cJSON.c:1090-1113 | The loop with its step back at the end of the buffer. |
| `JsonParser.ParseBuffer.ReadUtf16Literal` | src/giga_spi_8adc/cJSON.c:703-821 | One literal or surrogate pair: its length and its UTF-8 bytes in the output, or 0 on exactly the refused ones. |
| `JsonParser.ParseBuffer.FillString` | src/giga_spi_8adc/cJSON.c:870-931 | The second scan, every store inside a block of the first scan's size, leaves the unescaped string or fails, as the specification says that EscapeStandsFor and TextAccepted tie to RFC 8259. |
| `JsonParser.ParseBuffer.ParseString` | src/giga_spi_8adc/cJSON.c:824-951 | Both scans: the string and the offset behind its closing quote, or failure, for every input, as the specification says that SpellingReads and ValueAccepted tie to RFC 8259. |
| `JsonParser.ParseBuffer.ParseValue` | src/giga_spi_8adc/cJSON.c:1368-1420 | Returns what the specification says for the text at the offset, the offset behind it and the depth as it was. |
| `JsonParser.ParseBuffer.ParseArray` | src/giga_spi_8adc/cJSON.c:1497-1592 | The array loop returns what the recursive specification says and restores the depth. |
| `JsonParser.ParseBuffer.ParseObject` | src/giga_spi_8adc/cJSON.c:1662-1777 | The object loop likewise, with its check that something follows a comma. |
| `JsonParser.ParseWithLength` | src/giga_spi_8adc/cJSON.c:1147-1192 | Byte order mark, one value and the optional NUL check, as specified. |
| `JsonPrinter.PrintBuffer.Ensure` | src/giga_spi_8adc/cJSON.c:492-573 | Room is there exactly when offset + needed + 1 fits the fixed block, or INT_MAX for a growing one; the text so far is kept. |
| `JsonPrinter.PrintBuffer.UpdateOffset` | src/giga_spi_8adc/cJSON.c:576-587 | strlen from the lagging offset reaches the end of the text. |
| `JsonPrinter.PrintBuffer.PrintString` | src/giga_spi_8adc/cJSON.c:954-1073 | Writes exactly the escaped string, and succeeds exactly when it and two bytes fit. |
| `JsonPrinter.PrintBuffer.PrintArray` | src/giga_spi_8adc/cJSON.c:1595-1659 | Writes exactly the array's text; succeeds exactly when the nesting is within the limit and the text and two bytes fit. |
| `JsonPrinter.PrintBuffer.PrintObject` | src/giga_spi_8adc/cJSON.c:1780-1896 | The same for an object, indentation included. |
| `JsonPrinter.PrintBuffer.PrintValue` | src/giga_spi_8adc/cJSON.c:1423-1494 | The same for any value, whatever its kind. |
| `JsonPrinter.CountEscapes` | src/giga_spi_8adc/cJSON.c:982-1005 | The counting loop gives the exact length of the escaped string, and 0 only when escaping changes nothing. |
| `JsonPrinter.PrintNew` | src/giga_spi_8adc/cJSON.c:1239-1288 | cJSON_Print succeeds exactly for values within the nesting limit whose text and two bytes fit INT_MAX, and returns that text. |
| `JsonPrinter.PrintPreallocated` | src/giga_spi_8adc/cJSON.c:1348-1365 | Succeeds exactly when the block has two bytes more than the text (the header advises five), and leaves the text with its NUL. |
| `JsonList.ListIsUnique` | src/giga_spi_8adc/cJSON.c:1999-2058 | The pointers of a head belong to at most one child sequence. |
| `JsonList.AddItemToArray` | src/giga_spi_8adc/cJSON.c:2027-2058 | An append; on a non-empty list one is left exactly when the item was no child yet and its next was null, otherwise the head leads to no list at all. |
| `JsonList.GetArrayItem` | src/giga_spi_8adc/cJSON.c:1922-1939 | The item at the index, or null behind the end. |
| `JsonList.GetArraySize` | src/giga_spi_8adc/cJSON.c:1899-1920 | The number of children. |
| `JsonList.DetachItemViaPointer` | src/giga_spi_8adc/cJSON.c:2258-2292 | The list without the item, the invariant kept, the item pointing nowhere, every child and payload untouched. |
| `JsonList.InsertItemInArray` | src/giga_spi_8adc/cJSON.c:2334-2366 | The list with the item before the index, or at the end; refused only for a negative index, null, or the array itself at the end; inserting a child again leaves the head without any list. |
| `JsonList.ReplaceItemViaPointer` | src/giga_spi_8adc/cJSON.c:2368-2415 | The list with the replacement at the item's place, first, last, only or in between; another child as the replacement leaves no list, but for the first in place of the last of three or more, which drops everything between. |
| `JsonList.InsertThenDetach` | src/giga_spi_8adc/cJSON.c:2258-2366 | Inserting before an index and detaching again leaves every next and prev of the list and the head as they were. |
| `JsonList.DetachThenInsert` | src/giga_spi_8adc/cJSON.c:2258-2366 | So does detaching an item and inserting it back at its index, the last included. |
| `JsonDuplicate.DuplicateRec` | src/giga_spi_8adc/cJSON.c:2789-2873 | For any items in memory whose child lists end, shared or circular below: a fresh deep copy, separate from everything, its lists in order, saying the same without references; or null exactly when children are met beyond the depth limit. |
| `JsonDuplicate.Duplicate` | src/giga_spi_8adc/cJSON.c:2784-2787 | The whole item, or with no recursion the item alone. |
| `JsonDuplicate.CopiedExactly` | src/giga_spi_8adc/cJSON.c:2796-2840 | What a copy says is what the original says if and only if nothing in the original is a reference; a reference becomes an item of its own with everything else as it was. |
| `JsonDuplicate.RefusedExactly` | src/giga_spi_8adc/cJSON.c:2836-2840 | An item is refused if and only if some walk from child to child starting at it takes more than 10000 steps (10002 nodes). |
| `JsonDuplicate.CircularIsRefused` | src/giga_spi_8adc/cJSON.c:2836-2840 | In particular every item from which a walk from child to child comes back to a node it has been at. |
| `JsonDuplicate.Append` | src/giga_spi_8adc/cJSON.c:2844-2856 | Chaining one more copy keeps the copies built so far whole and separate. |

## Left out

- Weak memory: all machines are sequentially consistent, the order the fences aim for.
- The ring machine's write_pos is unbounded; the sequential `MotorShm.Ring` wraps it at 2^64.
- The region's magic, version and row size checks, and a producer that re-initialises the region under a running reader (only the poll arithmetic covers it).
- `row_ts`, which the recorder reads from a submodule header; that header is not part of this model, and the recorder's CSV text and file handling.
- The block layout of shm_sender's own headers (300 rows of 14 bytes in its comments against 200 of 24): the model uses motor_shm.h.
- Liveness of SET_CONFIG: the block_rows check can reject every frame before the ACK is looked at, so no claim is made that every command resolves.
- The SET_CONFIG frame as bytes: a damaged command is a lost one, and the STM's CRC verdict on it is not modelled.
- The pi tier of the configuration, SPI and GPIO calls, the file watcher and the log.
- Pixels below a row: the capture and display calls are sequences of row stores and loads; the buffer offsets and `fb_shm_total_size` are expressions left alone.
- JSON numbers with a fraction or an exponent (an integer with `.`, `e` or `E` behind it), and integers from 10^15 on that do not overflow a double: each kind parses to a failure of its own in the model, so the round trips are about texts and trees without them.  The locale's decimal point and raw items.
- JsonParser.ParseBuffer.ParseValue: for numbers with a fraction or an exponent, and integers whose shortest decimal form is not their digits, the rounding of `strtod` and `valuedouble` are not modelled.
- JsonPrinter.PrintBuffer.PrintValue: no numbers but integers below 10^15 in size and infinities, whose text needs no rounding, and no raw items.
- Allocation failure, allocator hooks, `cJSON_Delete`, `cJSON_Minify`, and the error position of a failed parse.
- The parser builds sequences; its linking of items is that of `JsonList` and `JsonDuplicate.Append`.
- JsonDuplicate.DuplicateRec: a circular next chain is walked without end (until memory runs out), so the child lists are taken to end.
- `cJSON_GetObjectItem` and the other look-ups by name: one linear search each over the list `GetArrayItem` walks.
- The splitting list of `as_add_containing` is a sequence, not nodes behind `list_owner`; the asinfo section is a growing sequence, so relocation under a held pointer is not covered.
- `as_add64` name strings, priorities and attribute bits other than CONTINUED and KIDS, which are carried along.
- BootArgs.DoAdjust: requires room to grow, as many readable bytes in front of the strings as the list grows by (memmove drags them in), and a search that ends inside the strings given.
- BootArgs.ArgAdjust: with 128 arguments or more, a string in neither list, or none to append behind, is searched for past the end of the entry through unrelated memory, and is not modelled.
- BootArgs.EnvAdjust: with 128 arguments or more nearly 2^32 strings are skipped, and with 128 variables or more a string that is none of them is searched for past the end of the entry; neither is modelled.
- EfiMap.SortMap: a count of 0 wraps `ndescs - 1` around and is not modelled; descriptors are their start address and an identity.
- Calendar.TmBuffer.Gmtime: the width of `int` in tm_year and of `unsigned long` are unbounded.
- HMS, OTA, SSH, MQTT, wifi, SOME/IP, RTC chips, FDT, ACPI and ELF code: processes, sockets and unseen libraries.
