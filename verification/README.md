# A Dafny model of ESWB

ESWB is a publish/subscribe bus written in C. Topics form a tree in a registry, data travels through broadcast
FIFOs and an event queue, and a bus can be replicated over a serial line that has its own framing and its own
reliable transport. This project models those five parts and proves what they promise.

## What is modelled

* **Framing and checksum** (`Crc16`, `CrcMultiples`, `Crc16Direct`, `BbeeFraming`, `BbeeRoundTrip`, `BbeeCounters`,
  `FrameDamage`, `BbeeReceiver`). The checksum register is a sequence of sixteen bits, and the C loops are proved to divide
  by x^16 + x^12 + x^5 + 1. The receiver is a state machine over bytes; the class with the real buffer and its loops is
  proved to run it. Main results: two texts that differ within sixteen bits have different checksums, a damaged frame is
  dropped exactly for certain places of the burst, composing and receiving undo each other (with the exact condition), and
  neither chunking nor noise matters.
* **Reliable channel** (`SdtlChannel`, `SdtlReader`, `SdtlSender`, `SdtlLink`, `SdtlProjection`, `SdtlExactlyOnce`,
  `SdtlLapses`, `SdtlPrefix`, `SdtlOverrun`, `SdtlCommands`, `SdtlCommandProjection`). The send and receive loops are
  proved to fold single turns, and what whole calls send, take and return is said exactly. The same turns make up two-ended
  state machines with lossy lines that keep their order, every run of which projects to runs of the loops. Main results:
  exactly-once delivery over whole runs under a timing and sequence-code discipline, with a run for each part of the
  discipline that shows it is needed; safety of one message without any discipline, exactly up to 257 packets; no call
  takes more than its buffer; commands act at most once.
* **FIFO and event queue** (`Fifo`, `EventQueue`). Both refine an unbounded log kept as a ghost field. Main results: what
  a pop returns is determined by the positions of writer and reader, also where the 16-bit lap arithmetic fails, and where it
  fails is said exactly; within its reach items come in order and once; the event queue erases exactly the events a write
  has ended inside of, and within its byte budget a reader gets precisely the events on its mask.
* **Topic registry** (`TopicTree`, `TopicGrowth`, `TopicVerdict`, `TopicSettled`, `TopicCopy`, `TopicEnumeration`,
  `ProclaimingTree`, `Registry`, `Paths`, `PathGrammar`, `TopicPaths`, `TopicLookup`, `LocalBuses`). A first-child /
  next-sibling tree in an array; -1 stands for NULL. Main results: registration succeeds exactly for the trees described,
  then copies them and otherwise only lets chains grow at their ends, enumeration by the stackless successor is complete
  and terminates, and printing and parsing of paths undo each other, whatever other buses there are.
* **Replication** (`IdMap`, `Replication`, `ReplicationStep`, `ReplicationCopy`, `ReplicationResult`, `Replicator`). The
  initial synchronisation enumerates the source and applies one proclaim event per topic. Main result: the tree is
  copied and the id map is the pairing of the two preorders; everything sent again changes nothing.

The pattern is the same throughout: functions say what one step does, classes run the loops of the C code over arrays and
fields and are proved to compute those functions, and lemmas about the functions state what the code is for.

## What turned out to have a condition

* A message is safe against early timeouts and stale acknowledgements exactly up to 257 packets
  (`SdtlOverrun.SoundExactlyUpTo257`): packets 1 and 257, counted from 0, are the first pair the 8-bit counter can confuse.
* The checksum goes on the line low byte first, so a burst across its beginning is not a burst of the polynomial. Damage
  within sixteen bits of a frame is dropped in every case exactly if the window lies on one side of that place or has 7, 9
  or 11 bits in front of it (`FrameDamage.BurstDroppedExactly`).
* A composed frame survives exactly if no begin character is pending in the receiver, or its payload starts with the
  end character (`BbeeRoundTrip.RoundTripExactly`).
* A message under the sequence code the receiver finished last is never taken unless a reader fails in between
  (`SdtlExactlyOnce.UsedCodeNeverTaken`), and its sender can be told OK all the same (`SdtlLapses.RepeatedCodeLosesMessage`).
* Two calls in a row carry different sequence codes unless the clock has moved by -1 modulo 65536, in steps of 1024
  nanoseconds, or counter and clock come to 0 in one call, in whose place 65535 is sent, and to 65535 in the other
  (`SdtlSender.NextCodeExactly`).
* A payload is erased with its record exactly if a push ends inside it (`EventQueue.Queue.ErasedExactly`). A push that
  ends behind it leaves the record alone, and so does one that ends in the part of it in front of the end of the ring.
* A reader that times out forgets the code it finished last: a message whose final acknowledgement is outstanding can then
  be taken twice, or be reported as refused (`SdtlLapses.FailingReaderTakesTwice`, `SdtlLapses.FailingReaderMisreports`).
* A pop is what it should be exactly for readers within `Fifo.InReach` (`Fifo.PopExact`): those that lag less than a lap,
  and those whose lag the 16-bit counters see well enough, among them all until the counter wraps. `Fifo.UnderrunMissed`
  says for every reader exactly what is reported. Past the wrap a reader can be given an item twice, in every ring of more
  than one slot (`Fifo.RepeatsExactly`).
* Replication works exactly from the root of the source (`ReplicationResult.BusCopied`,
  `ReplicationResult.OnlyFromTheRoot`), and a topic whose path reaches the limit is registered but never mapped
  (`ReplicationStep.ReplicateOne`, `ReplicationStep.LongPathStrands`).
* The comment in `wait_data` says that data is still good after an underrun; the code ends the call with
  an overflow error, and the model follows the code (src/lib/services/sdtl/sdtl.c:559-562).

## Checking

`dafny verify dfyconfig.toml` verifies the project.

## Model

| member | source | states |
|---|---|---|
| `Crc16.Crc16CcittUpdate` | src/lib/services/sdtl/crc16-ccitt.c:8-43 | the bit loop over one byte leaves the remainder of the polynomial division that brings down the eight bits of the byte, most significant first |
| `Crc16.Crc16CcittFinalize` | src/lib/services/sdtl/crc16-ccitt.c:45-60 | the sixteen closing shifts bring down sixteen zero bits |
| `Crc16.DivideLinear` | src/lib/services/sdtl/crc16-ccitt.c:17-42 | one register started from the exclusive or of two, fed the exclusive or of two bit streams, holds the exclusive or of the two remainders |
| `Crc16.ZerosKeepRemainder` | src/lib/services/sdtl/crc16-ccitt.c:47-58 | bringing down zero bits never turns a nonzero register into zero, nor zero into nonzero (injectivity of the shift step) |
| `Crc16.ShortDividend` | src/lib/services/sdtl/crc16-ccitt.c:17-42 | up to sixteen bits brought down into an empty register are still there unreduced |
| `Crc16.BurstDetected` | src/lib/services/sdtl/crc16-ccitt.c:4-60 | two different byte strings of the same length whose differing bits all lie in a window of sixteen have different checksums |
| `Crc16.RegisterBytesInjective` | src/lib/services/sdtl/bbee_framing.c:61-71 | the two checksum bytes put on the line determine the checksum |
| `Crc16Direct.DirectChecksum` | src/lib/services/sdtl/crc16-ccitt.c:4-60 | the checksum of every text is that of the usual form, which compares each bit with the one leaving the register and appends no zeros, started from 0x1D0F |
| `Crc16Direct.LeadingZeroByte` | src/lib/services/sdtl/crc16-ccitt.c:4-6 | a zero byte put in front of any text changes its checksum, which is what the start value is for |
| `BbeeReceiver.ComposeFrame` | src/lib/services/sdtl/bbee_framing.c:14-79 | a buffer smaller than 2n+9 is refused, then a sync character as code; otherwise the buffer starts with exactly the stuffed frame of code, payload and checksum, and its size is reported; the rest of the buffer is untouched |
| `BbeeReceiver.PutStuffed` | src/lib/services/sdtl/bbee_framing.c:50-56 | one byte, or a sync character and its escape, is stored at the write position |
| `BbeeReceiver.PutVector` | src/lib/services/sdtl/bbee_framing.c:47-59 | the stuffed bytes of all pieces are stored one behind the other while the running checksum follows |
| `BbeeReceiver.PutCrc` | src/lib/services/sdtl/bbee_framing.c:63-71 | the checksum bytes are stored stuffed |
| `BbeeReceiver.RxState.constructor` | src/lib/services/sdtl/bbee_framing.c:106-111 | a receiver on a buffer starts in the initial state |
| `BbeeReceiver.RxState.ResetState` | src/lib/services/sdtl/bbee_framing.c:92-104 | the fields named by the reset return to their initial values and the statistics stay |
| `BbeeReceiver.RxState.RxIteration` | src/lib/services/sdtl/bbee_framing.c:117-193 | the byte loop over the buffer and its pointer is the state machine run to the first reported event, with the number of bytes it took |
| `BbeeReceiver.RxState.ProcessRxBuf` | src/lib/services/sdtl/sdtl.c:248-308 | the outer loop over any non-empty read leaves exactly the state and the deliveries of processing it byte by byte |
| `BbeeReceiver.IterateIsRun` | src/lib/services/sdtl/sdtl.c:262-305 | stopping at events and resuming makes no difference to a run over the bytes |
| `BbeeFraming.StepInv` | src/lib/services/sdtl/bbee_framing.c:122-186 | every byte keeps: the running checksum is that of the code and all but the last two buffered bytes, and the buffer is within its size |
| `BbeeFraming.RunInv` | src/lib/services/sdtl/bbee_framing.c:117-193 | the same over every byte stream |
| `BbeeFraming.DeliveryChecked` | src/lib/services/sdtl/bbee_framing.c:137-148 | after any byte stream, a frame is handed over only if the bytes behind its payload are the checksum of the code and payload handed over |
| `BbeeFraming.RunConcat` | src/lib/services/sdtl/sdtl.c:248-308 | state and deliveries of a concatenated stream |
| `BbeeRoundTrip.FrameOutcome` | src/lib/services/sdtl/bbee_framing.c:117-193 | any framed body is handed over on its very last byte if and only if it ends in the right checksum, from every state without a pending begin character, and the counters say which |
| `BbeeRoundTrip.RoundTrip` | src/lib/services/sdtl/bbee_framing.c:14-193 | what the composer prints, the receiver hands over with the same code and payload, on exactly the last byte, also in the middle of a truncated frame |
| `BbeeRoundTrip.PendingDelivery` | src/lib/services/sdtl/bbee_framing.c:124-133 | with a begin character pending the same frame is misread: it gets through only if its payload starts with the end character |
| `BbeeRoundTrip.RoundTripExactly` | src/lib/services/sdtl/bbee_framing.c:14-193 | a composed frame gets through if and only if no begin character is pending or its payload starts with the end character |
| `CrcMultiples.MultipleDivides` | src/lib/services/sdtl/crc16-ccitt.c:17-42 | every exclusive or of shifted copies of the generator leaves no remainder |
| `CrcMultiples.Quotient` | src/lib/services/sdtl/crc16-ccitt.c:17-42 | and nothing else does: whatever leaves no remainder is the generator times a quotient |
| `FrameDamage.AcceptedDifference` | src/lib/services/sdtl/bbee_framing.c:61-71 | with the checksum sent low byte first, a damaged text with damaged checksum bytes is accepted if and only if the difference, its last two bytes exchanged, leaves no remainder |
| `FrameDamage.SafeLeavesRemainder` | src/lib/services/sdtl/bbee_framing.c:61-71 | a difference within sixteen bits always leaves a remainder if the window lies on one side of the checksum's beginning or has 7, 9 or 11 bits in front of it |
| `FrameDamage.DamagedFrameDropped` | src/lib/services/sdtl/bbee_framing.c:137-148 | a frame damaged within such a window, checksum bytes included, is dropped and counted as a checksum error, whatever its code and payload |
| `FrameDamage.DamagedFrameAccepted` | src/lib/services/sdtl/bbee_framing.c:137-148 | for every other window and every payload length there is a damaged frame that is handed over with a wrong payload |
| `FrameDamage.BurstDroppedExactly` | src/lib/services/sdtl/bbee_framing.c:61-71 | damage confined to a window of sixteen bits is dropped in every case if and only if the window lies on one side of the checksum's beginning or has 7, 9 or 11 bits in front of it |
| `BbeeCounters.FrameCounted` | src/lib/services/sdtl/bbee_framing.c:117-193 | a frame of at least three bytes adds one to the good or to the invalid frames, one to the restarts if it cuts off another, and nothing to any other counter |
| `BbeeCounters.EmptyFrameDropped` | src/lib/services/sdtl/bbee_framing.c:137-151 | a frame with fewer than three bytes is dropped and counted as empty |
| `BbeeCounters.OverlongFrameDropped` | src/lib/services/sdtl/bbee_framing.c:159-183 | a frame is dropped with the first byte the buffer has no room for, and counted as an overflow |
| `BbeeCounters.NoiseCounted` | src/lib/services/sdtl/bbee_framing.c:157-186 | bytes outside frames are counted, end characters excepted, and change nothing else |
| `BbeeRoundTrip.StreamDelivered` | src/lib/services/sdtl/sdtl.c:248-308 | composed frames separated by noise without begin characters are delivered exactly and in order |
| `BbeeRoundTrip.ChunkingIrrelevant` | src/lib/services/sdtl/sdtl.c:248-308 | however a stream is cut into reads, the same frames are delivered and the same state and counters result |
| `SdtlSender.SameCodeExactly` | src/lib/services/sdtl/sdtl.c:584-596 | the codes of two calls are equal if and only if counter and clock add up to the same modulo 65536, or to 0 and 65535; every sum but 0 is sent as it is |
| `SdtlSender.NextCodeExactly` | src/lib/services/sdtl/sdtl.c:584-596 | the next call repeats the code exactly in the three cases of RepeatsNext, stated on the counter and the two clock readings |
| `SdtlSender.SendTwo` | src/lib/services/sdtl/sdtl.c:601-696 | two calls in a row that both return OK carry different codes in all their packets exactly if not RepeatsNext |
| `SdtlSender.NextIsFreshExactly` | src/lib/services/sdtl/sdtl.c:584-596 | the code of the next call is fresh for the receiver exactly if not RepeatsNext |
| `SdtlSender.PacketsExactly` | src/lib/services/sdtl/sdtl.c:601-696 | in every turn the packet on the line is the one whose number is that of the acknowledgements accepted so far |
| `SdtlSender.ResultExactly` | src/lib/services/sdtl/sdtl.c:601-696 | a call returns a code if and only if a turn is reached that calls for it: a condition flag, a refusal, a failing queue, or OK with the acknowledgement that completes the message |
| `SdtlSender.CallExactly` | src/lib/services/sdtl/sdtl.c:601-696 | both for a whole call |
| `SdtlChannel.ChannelHandle.SendUntilAcked` | src/lib/services/sdtl/sdtl.c:626-680 | the inner loop sends the current packet until it is acknowledged or the call has to return, folding one turn per wait |
| `SdtlChannel.ChannelHandle.ChannelSendData` | src/lib/services/sdtl/sdtl.c:601-696 | the packets on the line and the result are those of the turn-by-turn specification under the code generated from the send counter, for any outcome of the waits; the counter moves on exactly for a call that returns OK |
| `SdtlChannel.ChannelHandle.ReceiveTurn` | src/lib/services/sdtl/sdtl.c:871-964 | one turn of the receive loop: condition flags first, then the data queue |
| `SdtlChannel.ChannelHandle.ChannelRecvData` | src/lib/services/sdtl/sdtl.c:827-982 | bytes, acknowledgements, result and channel state after the call are those of the turn-by-turn specification |
| `SdtlReader.ResultExactly` | src/lib/services/sdtl/sdtl.c:511-569 | a call returns a code if and only if a turn is reached that calls for it; the buffer is too small exactly if the packet due does not fit in what is left of it |
| `SdtlReader.DataExactly` | src/lib/services/sdtl/sdtl.c:871-961 | with a large enough buffer the reader ends with the payloads of the opening packet and of each next one by number, acknowledges those and repetitions, and returns OK exactly with the last |
| `SdtlReader.NeverMoreThanBuffer` | src/lib/services/sdtl/sdtl.c:541-543 | whatever the queue produces, if no packet is larger than the buffer, the reader never holds more than the buffer |
| `SdtlReader.CallTakesWhatFits` | src/lib/services/sdtl/sdtl.c:541-543 | in every run of the two-ended machine a call takes no message longer than its buffer |
| `SdtlReader.NothingOverruns` | src/lib/services/sdtl/sdtl.c:541-543 | the same from the initial state, where the reader never holds more than its buffer |
| `SdtlReader.AnsweredExactly` | src/lib/services/sdtl/sdtl.c:113-150 | a packet reaching the receive thread is queued, acknowledged again, refused as cancelled or refused for want of a reader, each exactly in its case |
| `SdtlLink.PlayConcat` | src/lib/services/sdtl/sdtl.c:601-982 | runs of the two-ended machine compose |
| `SdtlProjection.SenderProjection` | src/lib/services/sdtl/sdtl.c:601-696 | in every run of the two-ended machine the packets of a call, its result and the message counted as sent are those of the send loop over the turns the run gives it |
| `SdtlProjection.ReceiverProjection` | src/lib/services/sdtl/sdtl.c:827-982 | in every run of the two-ended machine what the reader holds, acknowledges, takes and records is what the receive loop does over the turns the run gives it |
| `SdtlExactlyOnce.SendGetsAckKeeps` | src/lib/services/sdtl/sdtl.c:645-663 | an acknowledgement popped by the sender keeps it, although its packet number is not looked at |
| `SdtlExactlyOnce.DataArrivesKeeps` | src/lib/services/sdtl/sdtl.c:113-150 | a packet reaching the receive thread keeps it, also the trailing packet of a finished sequence |
| `SdtlExactlyOnce.RecvPopsKeeps` | src/lib/services/sdtl/sdtl.c:879-961 | a packet taken or filtered by the receive loop keeps it |
| `SdtlExactlyOnce.EventKeeps` | src/lib/services/sdtl/sdtl.c:601-982 | every event of the protocol keeps it, including losses on both lines |
| `SdtlExactlyOnce.ExactlyOnce` | src/lib/services/sdtl/sdtl.c:601-982 | after any run the messages taken are those the sender was told OK for, in order and once each, plus at most the one whose final acknowledgement is outstanding |
| `SdtlLapses.AllowedWithoutLapse` | src/lib/services/sdtl/sdtl.c:601-982 | a step is allowed by the discipline if and only if it is allowed with each single one of the three lapses |
| `SdtlLapses.RepeatedCodeLosesMessage` | src/lib/services/sdtl/sdtl.c:118-124 | for any two messages a run, within the discipline but for a used sequence code, in which the second is acknowledged to its sender and never taken |
| `SdtlExactlyOnce.UsedCodeNeverTaken` | src/lib/services/sdtl/sdtl.c:118-124 | if the data line is clear when it is sent, a message under the code finished last is never taken in any continuation without a further message and without a failing reader, however long it is, whatever is lost and whenever timeouts fire |
| `SdtlLapses.EarlyTimeoutLosesMessage` | src/lib/services/sdtl/sdtl.c:645-650 | for any two messages under different codes a run, within the discipline but for timeouts that fire too early, in which the second is acknowledged to its sender and never taken, because the number in an acknowledgement is not checked |
| `SdtlLapses.FailingReaderTakesTwice` | src/lib/services/sdtl/sdtl.c:966-977 | for every one-packet message a run, within the discipline but for a reader that times out, in which it is taken twice, because a failing reader forgets the code it finished last |
| `SdtlLapses.FailingReaderMisreports` | src/lib/services/sdtl/sdtl.c:966-977 | for every message a run, within the discipline but for a reader that times out, in which it is taken and its sender told that it was not |
| `SdtlPrefix.ChunksJoin` | src/lib/services/sdtl/sdtl.c:621-691 | the packets of a message put together are the message |
| `SdtlPrefix.ChunksCount` | src/lib/services/sdtl/sdtl.c:621-691 | a message has at most n packets if and only if it has at most n times the payload size in bytes |
| `SdtlPrefix.AcceptedNumber` | src/lib/services/sdtl/sdtl.c:530-546 | a packet the modulo-256 filter accepts is the one expected, as long as no two candidates are 256 apart |
| `SdtlPrefix.EventKeeps` | src/lib/services/sdtl/sdtl.c:601-982 | every event keeps the order of packets on the line and in the queue and what the reader holds, without any assumption on timeouts |
| `SdtlPrefix.PrefixSafety` | src/lib/services/sdtl/sdtl.c:511-569 | for one message of at most 257 packets, whatever is lost or repeated and whatever acknowledgements earlier calls left behind, the reader holds a prefix and returns only the whole message |
| `SdtlOverrun.PartTakenForWhole` | src/lib/services/sdtl/sdtl.c:530-546 | for every message of 258 or more packets there is a run in which the reader returns OK with only a part of it |
| `SdtlOverrun.SoundExactlyUpTo257` | src/lib/services/sdtl/sdtl.c:511-569 | a message is safe in every run if and only if it has at most 257 times the payload size in bytes |
| `SdtlCommands.ChannelSendCmd` | src/lib/services/sdtl/sdtl.c:698-749 | an unreliable channel is refused; otherwise the command is sent again until a send fails or a wait ends the call, once per wait; result and command counter are those of the last turn |
| `SdtlCommands.CommandReceiver.ReceiveCmds` | src/lib/services/sdtl/sdtl.c:152-184 | the commands of one read change code, flags and wake-ups one after the other, a copy only if its code differs from the last one, and every copy is acknowledged |
| `SdtlCommandProjection.CallProjection` | src/lib/services/sdtl/sdtl.c:698-749 | in every run of the two-ended machine the copies of a call, its result and the call counted as done are those of the send loop over the turns the run gives it |
| `SdtlCommandProjection.ReceiverProjection` | src/lib/services/sdtl/sdtl.c:152-184 | in every run of the two-ended machine code, flags, acknowledgements and the number of calls that took effect are what the receiving end makes of the copies that arrive |
| `SdtlCommands.CmdResultExactly` | src/lib/services/sdtl/sdtl.c:698-749 | the call returns with the first turn that calls for it, having tried to send once for each turn up to it: a failed send, an acknowledged command, a wake-up by a reset or cancel, which counts as success, or a failing queue |
| `SdtlCommands.ProcessAllExactly` | src/lib/services/sdtl/sdtl.c:152-184 | every copy is acknowledged under the low byte of its code, the last code is remembered, and the reset or cancel flag is up exactly if it was or a first copy of a reset or cancel came |
| `SdtlCommands.FlagsExactly` | src/lib/services/sdtl/sdtl.c:161-168 | the reset flag is raised exactly by resets and the cancel flag exactly by cancels |
| `SdtlCommands.CmdEventKeeps` | src/lib/services/sdtl/sdtl.c:152-184 | every event keeps the order of copies and of calls that took effect |
| `SdtlCommands.CommandsAtMostOnce` | src/lib/services/sdtl/sdtl.c:152-184 | over any run each call takes effect at most once, in call order; the reset flag is up exactly if a reset took effect, and the cancel flag exactly if a cancel did |
| `SdtlCommands.CommandsExactlyOnce` | src/lib/services/sdtl/sdtl.c:698-749 | if timeouts fire only when nothing is under way and adjacent codes differ, the calls that took effect are those that returned, plus possibly the running one |
| `Fifo.CloseReader` | src/lib/topic_io.c:128-139 | a reader lagging less than a lap is never told of an underrun, also across the wrap of the lap counter, and meets the head only when it has read everything |
| `Fifo.UnderrunExact` | src/lib/topic_io.c:128-131 | while the lap counter has not wrapped, underrun is reported exactly for a lag of a lap or more |
| `Fifo.UnderrunMissed` | src/lib/topic_io.c:114-121 | for every reader however far behind, underrun is reported as the distance the 16-bit counters see asks for if they did not wrap in between, and one lap too late if they did: 65535 is added where 65536 would be right |
| `Fifo.WrapHidesLap` | src/lib/topic_io.c:114-121 | for every ring length a moment at which a reader that missed a whole lap is told that nothing is new |
| `Fifo.Ring.Push` | src/lib/topic_mem.c:65-79 | the log grows by the item and the ring holds its last items at their slots |
| `Fifo.Ring.InitReceiver` | src/lib/local_buses.c:449-461 | a new reader starts at the head of the log |
| `Fifo.Ring.Flush` | src/lib/topic_io.c:178-188 | the reader restarts at the head of the log |
| `Fifo.Ring.JumpToOldest` | src/lib/topic_io.c:131-137 | an overrun reader moves to the oldest item in the ring and the overwritten ones are accounted as skipped |
| `Fifo.Ring.Take` | src/lib/topic_io.c:163-169 | the item lying in the reader's slot is returned and the position moves one on, with tail and lap |
| `Fifo.Ring.Pop` | src/lib/topic_io.c:123-175 | a pop that does not sleep does what the 16-bit indices decide, for every reader, which is what it should exactly for one within reach of the lap arithmetic; popped, skipped and pending add up |
| `Fifo.PopExact` | src/lib/topic_io.c:123-175 | a pop returns item max(R, W-len) and moves one past it, underrun when W-R >= len, nothing new when W = R, if and only if the reader lags less than a lap or the distance the counters see is due for an underrun |
| `Fifo.ReachBeforeWrap` | src/lib/topic_io.c:128-139 | while the lap counter has not wrapped every reader is within that reach |
| `Fifo.NeverTwice` | src/lib/topic_io.c:123-175 | over any run all of whose pops are within that reach a reader gets items in push order and none twice |
| `Fifo.StalePop` | src/lib/topic_io.c:128-139 | past the wrap a reader left behind is handed the item one lap further on as if nothing had been lost |
| `Fifo.RepeatsPastWrap` | src/lib/topic_io.c:128-139 | for every ring of more than one slot a run in which a reader is given the same item twice |
| `Fifo.RepeatsExactly` | src/lib/topic_io.c:128-139 | without a bound on the lag a reader can be given an item twice if and only if the ring has more than one slot |
| `Fifo.NothingMissed` | src/lib/topic_io.c:123-175 | a reader that never lags a lap gets every item, in order |
| `EventQueue.CrossedExactly` | src/lib/topic_mem.c:159-171 | the overlap test holds for the record of an event exactly if the stream ends inside its payload or, for a payload around the end of the ring, inside the part behind the end |
| `EventQueue.HitInTheNextLap` | src/lib/topic_mem.c:159-171 | one lap of the byte ring later these are the stream positions start + D < t < end + D, or, for a payload around the end of the ring, those behind the turn |
| `EventQueue.IntactNotCrossed` | src/lib/topic_mem.c:159-171 | a payload that has not lost a byte is never found |
| `EventQueue.ByteRing.Write` | src/lib/topic_mem.c:127-145 | the bytes go behind the stream written so far, wrapping at the end, also from a head resting at the end |
| `EventQueue.ByteRing.Read` | src/lib/topic_mem.c:108-125 | bytes still in the ring are read back as written, also across the end |
| `EventQueue.Queue.ErasedExactly` | src/lib/topic_mem.c:210-217 | a record in the ring is about nothing and on no channel exactly if a push has ended inside its payload, and is as pushed otherwise |
| `EventQueue.Queue.EraseCrossed` | src/lib/topic_mem.c:210-217 | the scan erases exactly the records the overlap test holds for |
| `EventQueue.Queue.Push` | src/lib/topic_mem.c:173-220 | a payload larger than the byte ring is refused and changes nothing; otherwise the log of events and the stream of bytes grow by it |
| `EventQueue.Queue.Pop` | src/lib/topic_io.c:210-267 | whatever is handed over is an event still in the ring and, on a synchronised bus, on a channel of the mask, about something and not hit; for a reader within reach of the lap arithmetic it is, on a synchronised bus, the first such event pending, so that every skipped one is off the mask, about nothing or hit, and on another bus the first pending one |
| `EventQueue.Queue.PopAll` | src/lib/services/eqrb/eqrb_server.c:145-171 | within the byte budget popping until nothing is pending yields precisely the pending events on the mask, in order and as pushed |
| `EventQueue.HitLostByte` | src/lib/topic_mem.c:210-217 | an event that is hit has lost a byte of its payload |
| `EventQueue.Queue.HandOver` | src/lib/topic_mem.c:151-155 | what is handed over for an intact payload is what was pushed |
| `EventQueue.BudgetKeepsIntact` | src/lib/topic_mem.c:173-220 | if any N consecutive payloads fit the byte ring, no payload in the ring of records has lost a byte |
| `EventQueue.Queue.NothingLostWithinBudget` | src/lib/topic_mem.c:173-220 | within that budget no record is ever erased and each is handed over as pushed |
| `EventQueue.Queue.ErasedWasOverwritten` | src/lib/topic_mem.c:210-217 | a record erased by the scan has had a payload byte overwritten |
| `EventQueue.Queue.NewestKept` | src/lib/topic_mem.c:210-217 | the record just written is never erased |
| `TopicTree.NextIsFirstOfRest` | src/lib/registry.c:534-550 | the stackless successor steps through what remains of the preorder one node at a time and ends with it |
| `TopicTree.PreorderMembers` | src/lib/registry.c:534-550 | the preorder of a chain holds exactly what lies below its parent from there on |
| `TopicTree.BelowMembers` | src/lib/registry.c:567-574 | what is visited below a topic is exactly what lies below it by parent links |
| `TopicTree.RestDistinct` | src/lib/registry.c:534-550 | no topic is visited twice |
| `TopicGrowth.AttachLinks` | src/lib/registry.c:408-419 | appending a topic to the array and to its parent's chain keeps every parent before its children, ids increasing along each chain, and all old chains as beginnings of the new ones |
| `TopicGrowth.AbandonLinks` | src/lib/registry.c:321-326 | a topic allocated and then refused disturbs no link |
| `TopicGrowth.AddChildGrows` | src/lib/registry.c:304-424 | one registration step, successful or not, keeps the links and the capacity, and adds at most one topic |
| `TopicGrowth.AddChildDistinct` | src/lib/registry.c:307-311 | sibling names stay distinct |
| `TopicGrowth.AddChildProper` | src/lib/registry.c:328-352 | every linked topic has a usable name and is mapped to its parent or below a directory or queue |
| `TopicGrowth.RegisterGrows` | src/lib/registry.c:426-458 | all of this over a whole registration, also one that fails half way |
| `TopicGrowth.PathsKept` | src/lib/registry.c:139-168 | when a registry grows every path that resolved resolves to the same topic |
| `TopicGrowth.RegistrationKeepsPaths` | src/lib/registry.c:426-458 | so after any registration |
| `TopicCopy.AttachAddsLeaf` | src/lib/topic_proclaiming_tree.c:90-101 | adding a child to a pool or a registry is a leaf behind the parent's children and nothing else |
| `TopicCopy.RegisterCopies` | src/lib/registry.c:426-458 | a successful registration copies the proclaimed tree, settled as the flags say, under the mount point |
| `TopicCopy.RegistrationPreservesTree` | src/lib/registry.c:426-458 | names, types, sizes, parent links and child order are those of the proclaimed tree, the new subtree is the last child, and its ids are consecutive in preorder |
| `TopicVerdict.RegistersExactly` | src/lib/registry.c:426-458 | a registration succeeds if and only if there is room for the record and all below it, its name is new below the mount point, sibling names in the proclaimed tree differ, all names have 1 to 30 characters, what is not mapped lies below a directory or queue, and fifos have one child |
| `TopicVerdict.RefusedExactly` | src/lib/registry.c:304-458 | the code of a registration is that of the first record in preorder that is refused, for a taken name, a full registry, an empty or overlong name, a wrong parent or a fifo without exactly one child |
| `TopicSettled.RegisteredAsProclaimed` | src/lib/registry.c:286-352 | after a successful registration the new topics are the records in preorder, with their names, types, sizes and flags, the offset kept exactly for those mapped into a parent that is no queue |
| `TopicEnumeration.NextShownIsFirst` | src/lib/registry.c:552-565 | the filtered successor is the first topic of what remains that is neither an event queue nor its direct child |
| `TopicEnumeration.EnumerationComplete` | src/lib/registry.c:576-613 | asking for the next topic until there is none visits exactly the shown descendants in preorder, with their parents, and stops |
| `TopicEnumeration.EnumeratedOnce` | src/lib/registry.c:576-613 | each shown descendant exactly once and nothing else |
| `TopicEnumeration.AnswerMeans` | src/lib/registry.c:576-613 | an unused id is told apart; any extract describes a topic below the start that is no event queue and not directly in one, with its parent |
| `ProclaimingTree.TreeContext.CheckNaming` | src/lib/topic_proclaiming_tree.c:8-18 | a name is accepted if and only if it is not empty and its first thirty characters are letters, digits, dot and underscore |
| `ProclaimingTree.TreeContext.Setup` | src/lib/topic_proclaiming_tree.c:21-41 | a record is filled, with the name cut to thirty characters, sizes to sixteen bits and no links, exactly if the name is accepted |
| `ProclaimingTree.TreeContext.SetRoot` | src/lib/topic_proclaiming_tree.c:51-64 | the first record becomes a childless root and the count grows, or the name is refused and nothing changes; a fresh context then holds a tree of one topic |
| `ProclaimingTree.TreeContext.AddChild` | src/lib/topic_proclaiming_tree.c:66-104 | refused without effect when the pool is full or the name is bad, otherwise the tree behind the relative indices is the old one with the new record attached |
| `ProclaimingTree.TreeContext.Append` | src/lib/topic_proclaiming_tree.c:90-101 | patching one relative index attaches the record at the end of its parent's chain |
| `ProclaimingTree.ParentMarkerClash` | src/lib/topic_proclaiming_tree.c:101-101 | the relative parent index of a record reads as no parent exactly for a child 1024 records behind its parent |
| `Registry.TopicRegistry.FindAmongSiblings` | src/lib/registry.c:126-136 | the first sibling whose name agrees in the first thirty characters |
| `Registry.TopicRegistry.AllocTopic` | src/lib/registry.c:20-33 | the next slot, or nothing when the array is full |
| `Registry.TopicRegistry.FillIn` | src/lib/registry.c:286-301 | empty and overlong names are refused, otherwise name, type and size are set |
| `Registry.TopicRegistry.NewTopic` | src/lib/registry.c:313-326 | a full array, an empty and an overlong name are told apart; a refused topic stays behind unlinked, an accepted one has its name, type and size and no links |
| `Registry.TopicRegistry.Establish` | src/lib/registry.c:328-405 | offset and flags of a mapped topic, the directory check and the one-child check of a fifo |
| `Registry.TopicRegistry.Link` | src/lib/registry.c:408-419 | the chain walk and the link it sets make the topic the last child of its parent |
| `Registry.TopicRegistry.TopicAddChild` | src/lib/registry.c:304-424 | result code and whole new array of one registration step; the registry stays well formed |
| `Registry.TopicRegistry.TopicsTreeRegister` | src/lib/registry.c:426-458 | result code and whole new array of a recursive registration |
| `Registry.TopicRegistry.FindTopic` | src/lib/registry.c:139-168 | the tokens of the path followed from the root |
| `Registry.TopicRegistry.TopicTreeNext` | src/lib/registry.c:534-550 | the climbing loop computes the successor |
| `Registry.TopicRegistry.TopicTreeNextFiltered` | src/lib/registry.c:552-565 | its loop terminates at the next shown topic |
| `Registry.TopicRegistry.ParentHasChild` | src/lib/registry.c:567-574 | the climb decides whether a topic lies strictly below another |
| `Registry.TopicRegistry.GetNextTopicInfo` | src/lib/registry.c:576-613 | an unused id is refused, otherwise the next shown topic below the parent is described, or there is none |
| `Registry.TopicRegistry.GetMountingPoint` | src/lib/local_buses.c:362-383 | the nested loops print the whole path, cut to the size of the buffer |
| `Registry.Create` | src/lib/registry.c:480-520 | an overlong name and an empty registry are refused, otherwise there is one directory with the name |
| `Paths.NormalizePath` | src/lib/api.c:401-428 | runs of slashes collapse; the path is refused exactly if the result has a hundred characters or more |
| `Paths.CheckPath` | src/lib/api.c:430-468 | accepts exactly the paths that start properly, use the allowed characters, and have at most one colon and no slash before it |
| `Paths.ParsePath` | src/lib/api.c:470-513 | error code, bus type, bus name and local path of any text |
| `Paths.NextToken` | src/lib/registry.c:152-160 | one call of the tokenizer yields the next token of the path |
| `PathGrammar.AcceptedExactly` | src/lib/api.c:430-468 | a path is a route of letters, digits, dots, underscores and slashes, or a word, a colon and a route, beginning with a letter, a digit or a slash |
| `PathGrammar.CollapsedSingle` | src/lib/api.c:401-428 | a normalised path has no two slashes side by side |
| `PathGrammar.CollapseKeepsTokens` | src/lib/api.c:401-428 | normalising changes none of the names in a path |
| `PathGrammar.WithKind` | src/lib/api.c:470-513 | a path with nsb, itb or ipb in front of its colon and slash parses to that kind and the route behind it, any other word is refused |
| `PathGrammar.WithoutKind` | src/lib/api.c:470-513 | a route alone parses to any kind of bus |
| `PathGrammar.RefusedExactly` | src/lib/api.c:470-513 | which texts are refused with which code |
| `TopicLookup.SameNameExactly` | src/lib/registry.c:126-136 | names agree if their first thirty characters do, shorter ones only with their lengths |
| `TopicLookup.FoundExactly` | src/lib/registry.c:139-168 | a path leads to a topic if and only if its parts are, over thirty characters, the names from the root to the topic |
| `TopicPaths.NameChars` | src/lib/topic_proclaiming_tree.c:8-18 | names are made of the characters of paths without the separators |
| `TopicPaths.TokensOfJoin` | src/lib/registry.c:139-168 | splitting a joined path yields the names |
| `TopicPaths.PrintedGood` | src/lib/api.c:401-468 | a printed path of acceptable names is unchanged by normalising and passes the check |
| `TopicPaths.FindNames` | src/lib/registry.c:139-168 | following the names of a topic from the root leads to it |
| `TopicPaths.PathRoundTrip` | src/lib/local_buses.c:362-383 | the printed path of any topic parses exactly when it is shorter than the limit, then to the type and name of its bus and a local path at which the topic is found |
| `LocalBuses.BusTable.Lookup` | src/lib/local_buses.c:50-72 | the first initialised slot with the name and the kind asked for |
| `LocalBuses.BusTable.Create` | src/lib/local_buses.c:141-175 | an overlong name, an existing bus of the name and kind, a full table and an empty registry are refused in this order without effect; otherwise the first free slot holds the bus; no two buses share name and kind |
| `LocalBuses.CreatedExactly` | src/lib/local_buses.c:141-175 | how a creation ends, in terms of the name and the buses there are, and that only a first free slot changes |
| `LocalBuses.BusTable.Delete` | src/lib/local_buses.c:177-197 | the slot becomes free and the other buses stay |
| `LocalBuses.OpsUnique` | src/lib/local_buses.c:141-197 | over any sequence of creations and deletions no two buses share name and kind |
| `LocalBuses.FoundExactly` | src/lib/local_buses.c:50-72 | with its kind a bus is found exactly by its own name and kind, without a kind exactly if no earlier slot has the name |
| `LocalBuses.PrintedLeadsToOwnBus` | src/lib/local_buses.c:50-72 | after any use of the table the path printed for a topic leads back to its bus and, within it, to the topic |
| `IdMap.TopicIdMap.FindIndex` | src/lib/event_queue.c:103-129 | bisection finds a key if and only if it is in the map, at its place |
| `IdMap.TopicIdMap.AddPair` | src/lib/event_queue.c:136-146 | shifting keeps the array sorted and the finite map grows by exactly the pair |
| `IdMap.TopicIdMap.MapAddPair` | src/lib/event_queue.c:149-162 | a full map refuses everything, any other refuses exactly the keys it has, and every other pair is added |
| `IdMap.TopicIdMap.MapFind` | src/lib/event_queue.c:164-177 | a key is found if and only if it was added, with its value |
| `IdMap.InsertedMap` | src/lib/event_queue.c:136-146 | insertion at the right place extends the finite map |
| `IdMap.RunRefinesMap` | src/lib/event_queue.c:149-162 | over any sequence of additions earlier pairs are unchanged, and while there is room the map holds exactly the added keys with the value each first came with |
| `Replication.RefusedExactly` | src/lib/event_queue.c:194-223 | cut off records, a topic that has a counterpart and a parent that has none are refused, exactly these and in this order, without effect |
| `Replication.ReplayChangesNothing` | src/lib/event_queue.c:207-211 | a replicated event is refused ever after, whatever came in between |
| `Replication.MapKept` | src/lib/event_queue.c:236-239 | a counterpart never changes |
| `ReplicationStep.ConnectsToChild` | src/lib/api.c:41-66 | connecting by the printed path of the parent and the name finds the topic just registered |
| `ReplicationStep.ConnectsByPath` | src/lib/local_buses.c:89-117 | connecting by the printed path of a topic leads to it, and by that of the element of a fifo or event queue to the fifo or queue |
| `ReplicationStep.ReplicateOne` | src/lib/event_queue.c:194-242 | with room and a mapped parent, the topic is attached below the counterpart of its parent, and it gets into the map exactly when its path is short enough |
| `ReplicationStep.LongPathStrands` | src/lib/api.c:47-49 | a topic whose path is too long stays registered without a pair, and every replay of its event is refused by the registry as an existing topic |
| `ReplicationCopy.CopyTree` | src/lib/event_queue.c:194-242 | sending a topic and what is below it adds one tree below the counterpart of its parent |
| `ReplicationCopy.CopyChain` | src/lib/event_queue.c:194-242 | sending a chain of siblings adds their trees in order and pairs every topic with the next id |
| `ReplicationResult.SyncSends` | src/lib/services/eqrb/eqrb_server.c:418-464 | the events of a synchronisation are those for the shown topics below its start, in preorder |
| `ReplicationResult.BusCopied` | src/lib/services/eqrb/eqrb_server.c:418-464 | for a source of directories, plain topics, structs and event queues, with room, no clashing name and short paths: every event of a whole synchronisation succeeds, the mount point gets the source's tree without event queues, nothing else changes, and the map takes the j-th topic sent to the j-th topic of the copy and knows no other |
| `ReplicationResult.EmptyMountCopied` | src/lib/event_queue.c:194-242 | below an empty mount point the copy is the whole tree, with consecutive ids |
| `ReplicationResult.CounterpartsMatch` | src/lib/event_queue.c:194-242 | each new topic has name, type and size of its original, and its parent is the counterpart of its original's parent |
| `ReplicationResult.SecondSyncChangesNothing` | src/lib/event_queue.c:207-211 | a second synchronisation is refused event by event and changes nothing |
| `ReplicationResult.OnlyFromTheRoot` | src/lib/event_queue.c:213-223 | a synchronisation that starts below the root of the source copies nothing at all |
| `Replicator.BusReplica.Connect` | src/lib/local_buses.c:89-117 | the path is parsed, inter-process buses are refused, and the bus, the topic, and the fifo in place of its element are looked up |
| `Replicator.BusReplica.ConnectNested` | src/lib/api.c:41-66 | the length guard, then connecting by the printed path and the name |
| `Replicator.BusReplica.ProclaimTree` | src/lib/api.c:100-118 | registration, then the connection to the new root |
| `Replicator.BusReplica.Replicate` | src/lib/event_queue.c:194-242 | answer, registry and id map after one proclaim event |
| `Replicator.BusReplica.InitialSync` | src/lib/services/eqrb/eqrb_server.c:418-464 | answers, registry and id map after the loop over a whole source |

## Left out

- Blocking waits, mutexes, condition variables and clocks: the outcome of a wait is a parameter, and the FIFO and event queue are stated for pops that do not sleep.
- `Fifo.NeverTwice` covers runs all of whose pops are within the reach of the lap arithmetic (`Fifo.InReach`), which is where a pop is what it should be; a run with a pop outside it can repeat items (`Fifo.RepeatsPastWrap`) but need not.
- `FrameDamage.BurstDroppedExactly` counts bits in the frame with its escapes left out, and damage that keeps the length; on the line this is damage that neither hits nor makes a sync character.
- `SdtlExactlyOnce.ExactlyOnce` assumes that an acknowledgement timeout fires only when nothing is under way, that a new sequence code differs from the one the receiver finished last, that no reader fails, buffers of at least one whole message, and no commands; the first three are shown to be needed, each with the others kept.
- `SdtlChannel.ChannelHandle.ChannelRecvData` does not model a first packet larger than the caller's buffer, which the code copies without a check; the two-ended machine assumes a buffer of at least one packet.
- Unreliable channels, transmission errors of the media, statistics topics, channel creation and the interaction of reset or cancel with a transfer in progress.
- The receive thread reads the channel state and queues a packet in one step.
- Packet headers as bytes: packets and acknowledgements are values on the line between the two ends.
- Messages and frames without payload and reads of length zero, which the code gives other meanings.
- `ProclaimingTree.TreeContext.SetRoot` on a context in use counts one record more than there is, so the pool need not be a tree any more.
- `ProclaimingTree.TreeContext.CheckNaming` does not model what the scan of the C code overwrites behind its buffer for names with thirty acceptable characters and more, only the comparison that follows.
- `ProclaimingTree.TreeContext.constructor` limits a pool to 32768 records, the reach of the 16-bit relative indices.
- `Registry.TopicRegistry.constructor` limits a registry to 65536 topics, the reach of the 16-bit topic id in an extract.
- `Registry.TopicRegistry.Establish` answers success for an event queue or a vector without a child, where the code reads a record in front of the pool for its size (src/lib/registry.c:368-379).
- `Registry.TopicRegistry.FindTopic` is stated for paths shorter than the limit with at least one token; the C code copies longer ones without a terminator and does not check for an empty one.
- Memory for topic data, synchronisation objects and their failures, the id written back into a proclaimed record, event queue masks, and the element size of vectors.
- Wildcard walks over the tree, path composition, vectors, bridges and update counters: easy or loosely specified members.
- `Replicator.BusReplica.Connect` compares the path with its own bus only: with a kind this is what the lookup in the table of buses comes to (`LocalBuses.FoundExactly`), without one it leaves out an earlier bus of the same name and the other kind. The table of topic descriptors is not modelled, so a descriptor is the topic it refers to.
- `Replicator.BusReplica.InitialSync` applies each event at once and in order, which is what the reliable channel provides; a source with fifos outside event queues is excluded, because there the second extract overwrites the parent id of the first, and one with vectors, because a vector sent without its element is the read named for `Registry.TopicRegistry.Establish`.
- Events of other types than proclaim: they only look the topic up in the id map.
- Media drivers, the file and network back ends, the client side of the replication protocol, the sidekick thread, and the C++ and Python code.
