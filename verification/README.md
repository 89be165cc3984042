# ether2ser: verified model of the HDLC data path

This Dafny project models the data path of the Ethernet to synchronous V.24 bridge and proves what it
does: how a datagram becomes a bit-stuffed HDLC frame, how the frame leaves through the transmit queue,
how a receiver finds frames again at an unknown bit phase in a raw byte stream, and how the queues
around this path behave.  `dafny verify dfyconfig.toml` checks everything.

## How the model is built

- **Words.** A machine word is its sequence of bits, least significant first, with shifts, `or` and
  `xor` as on unsigned C integers (`Words`).  A byte string also has a line form, `Stream`, in either
  bit order.
- **Code and specification.** Code that works by changing state is a class or a loop of the same
  shape: `Encoder.BitEncoder`, `Decoder.BitDecoder`, `Crc.Crc16`, `Accumulators.Accumulator`,
  `Receiver.EventLoop`, `Ring.RingBuffer`, `Transmit.TxQueue`, `Throttle.TxLoop`, `Events.EventQueue`,
  `CliPool.CliPort`.  Each is proved to compute a function on values, and the laws are proved about
  those functions for all inputs and all runs.
- **The synchroniser.** `Sync.Poll` says in one piece what a poll answers: hunt for an opening, follow
  it to the first flag from index 2 on, give it up when it grows past 2048 bytes.  `Sync.PollWith` says
  what a poll does when the caller's frame holds anything at all; with the bytes taken over so far in
  it the two agree (`TrackSteps.PollWithHeld`).  The resumable HUNTING/SYNCING/SYNCED machine with its
  cursors is proved to compute both (`PollSteps`, `Accumulators`).
- **The line.** `Wire` lays frames and idle zeros out as bits and packs them into raw bytes; `Batches`
  and `EndToEnd` follow a receiver along that layout, batch by batch.
- **The two cores.** The log queue is a state machine whose steps are single shared-memory accesses,
  interleaved freely (`LogQueue`).

## Main results

1. *End to end* (`Batches`, `EndToEnd`, `Sightings`, `Bridge`): for every list of payloads whose
   encodings fit 2048 bytes, every number of idle zero bits, and every split of the raw bytes into
   batches that fit the accumulator and leave its hunts unmisled, the receiver hands over exactly these
   payloads, in order, and rejects nothing.  Byte by byte that holds without any condition.  In
   general the condition is exact: the reports of the run are the frames sent, each at its own place
   and none besides, if and only if no hunt is misled.  With the transmit queue in front: whatever the
   chunk sizes and FIFO refusals, the queued datagrams cross the bridge.
   After damage: what stray flags and damaged frames cost, and exactly when the frame behind them
   is recovered (`Rejections`).
2. *Synchroniser* (`SyncLaws`, `PollLaws`, `SyncRuns`, `FalseLocks`, `MsbFirst`): no frame is fabricated, for arbitrary bytes and
   arbitrary runs of feeding, polling with any frame, judging early, late or twice, and restarting;
   polling settles; once locked, the split of the bytes across polls does not matter; the exhaustive
   search returns a longest span, rebuilds frames packed most significant bit first at any bit offset,
   and false openings hide nothing behind them.
3. *Codec* (`Codec`, `Stuffing`, `Crc`): round trip, transparency, exact acceptance, canonical form,
   exact size, and what the CRC detects.
4. *Transmit side* (`Transmit`, `Throttle`): the shape of the line over every run, what every single
   call adds to it, a queue that never overflows under the throttle, and a throttle that lets go.
5. *Queues* (`LogQueue`, `Events`, `CliPool`, `Ring`): every interleaving of the two cores is safe, a
   line is dropped only when there is no room, everything published gets printed,
   the circular buffers are plain FIFOs, and a queued command line is never overwritten.

## Properties that do not hold

Frames that are polled together are not always recovered.  While the accumulator hunts with 4 to 64
bytes buffered, it takes the longest complete span in the window, at any start, bit phase and
direction, and not the first frame.

- Two frames in one such window, the second at least as long as the first: the first one's closing
  flag opens a span one byte longer than the second frame, so that the first is never reported, and
  either verdict on what is reported drops its opening flag (`Bursts.NoLongerFrameIsLost`, for all such
  pairs; `Bursts.EmptyDatagramIsLost`, for instance).
- A hunt picks the next frame exactly if the window is clear: no span is longer than the next frame's
  own, nor as long and earlier in scan order (`Batches.HuntIsRightIffClear`).  Windows of fewer than 4
  or more than 64 bytes are always clear.
- For any traffic and any batches, all frames and nothing else are reported exactly if every window
  the receiver hunts in is clear (`Sightings.ReportsAreTheFramesIffUnmisled`), and then every payload
  is handed over (`EndToEnd.BatchesArrive`).  Where those windows lie follows from the layout of the
  line and the batch sizes alone.
- For frames back to back in one batch the payloads handed over are the ones sent exactly if no frame
  is followed, within 64 bytes from its start to the end of the batch, by a longer span, and the
  buffer behind the first is not so full that it is cut (`Bursts.BurstArrivesIff`, and
  `Bursts.PairArrivesIff` for two frames).

Frames behind damaged ones are not always recovered either.  A damaged frame is rejected, and so is its
closing flag, taken for the opening of the next frame; the fourth failure in a row makes the receiver
start over with an empty buffer.  In one batch a long frame survives one damaged frame in front of it
and not two (`Rejections.FrameBehindDamaged`), and up to three stray flags and not four
(`Rejections.FrameBehindFlags`); both say so exactly, for any number of failures before.

A third one: the frame a poll reports is the aligned slice of the raw bytes only if the caller passes
the frame with the bytes taken over so far; for a poll that completes a resumed lock this is exact
(`SyncRuns.RunIsFaithful`).  The event loop always does.

## Where code and documentation differ

- The comment on `hdlc_sync_find_complete_candidate_short` asks for opening flag, two check bytes and
  closing flag, but once locked a flag at index 2 already closes a candidate, so candidates of three
  bytes are reported (`SyncLaws.ShortPollReportsBest`).
- After a report `bit_offset` no longer names the phase used: for right shifts it is rewritten to the
  equivalent left shift (`Accumulators.Accumulator.Poll` states the rewritten value).
- The decoder also accepts frames no encoder sends: the bits after the last data byte are ignored, and
  so is a missing zero after a final run of five ones (`Codec.AcceptsExactly`).

## Model

| member | source | states |
|---|---|---|
| Crc.Crc16 | src/protocol/hdlc_common.c:28-43 | the byte-wise loop computes the bit-serial register of the polynomial x^16 + x^12 + x^5 + 1, most significant bit first, from 0xFFFF |
| Crc.Constants | src/protocol/hdlc_common.c:23-26 | the initial value, the polynomial and the flag have the values 0xFFFF, 0x1021 and 0x7E |
| Crc.PassesIffZeroResidue | src/protocol/hdlc_decoder.c:215-225 | comparing the last two bytes with the CRC of the others is the same as a zero register after the whole string |
| Crc.CheckDetects | src/protocol/hdlc_decoder.c:215-225 | of two different strings of equal length at most one passes the check if their differing bits fit in 16 consecutive positions or are odd in number |
| Stuffing.DestuffStuff | src/protocol/hdlc_decoder.c:111-150 | dropping the zero after five ones undoes inserting it, and leaves the receiver's run equal to the sender's |
| Stuffing.ReceivedIffCarried | src/protocol/hdlc_decoder.c:111-150 | the data a receiver reads without error from a line are exactly those whose stuffed form the line is, up to a zero still owed at the end |
| Stuffing.StuffedSize | src/protocol/hdlc_encoder.c:137-154 | at most one bit is inserted per five data bits |
| Stuffing.StuffedIsSpaced | src/protocol/hdlc_encoder.c:137-154 | stuffed data never shows six ones in a row |
| Stuffing.BadIffSixOnes | src/protocol/hdlc_decoder.c:111-150 | the receiver rejects a line if and only if it shows six ones in a row |
| Codec.RoundTrip | src/protocol/hdlc_decoder.c:171-235 | for every payload and either bit order, decoding the encoding gives back the payload if and only if the output has room for the payload and two check bytes |
| Codec.SixOnesOnlyInFlags | src/protocol/hdlc_encoder.c:171-205 | in the whole bit string of a frame six ones in a row start at exactly two positions, inside the two flags |
| Codec.FlagsOnlyAtEnds | src/protocol/hdlc_encoder.c:171-205 | the flag pattern occurs at exactly two bit positions of a frame, its first and its last eight bits (RFC 1662 section 5.2) |
| Codec.AcceptsExactly | src/protocol/hdlc_decoder.c:171-227 | a payload is accepted from a frame if and only if the flags are there, it fits with its check bytes, and the bits between are the stuffed form of payload, check bytes and fewer than eight further bits |
| Codec.AcceptedIsEncoding | src/protocol/hdlc_decoder.c:171-227 | an accepted frame is byte for byte the encoding of its payload if and only if no stuffed zero is outstanding and the leftover bits are zero |
| Codec.ReasonsAreExact | src/protocol/hdlc_decoder.c:171-235 | every answer against the line: undelimited frames are invalid, six ones in a row an unstuffing error unless the buffer is full before, and otherwise the bytes carried are too many, too few, of non-zero residue, or payload and check bytes |
| Codec.EncodedSize | src/drivers/tx_queue.h:34-42 | an encoded frame has two bytes more than its stuffed data rounded up, and payloads of up to 1703 bytes fit 2048 bytes |
| Encoder.FrameBuffer.TryPut | src/protocol/hdlc_encoder.c:29-37 | a byte is appended exactly when the frame has room |
| Encoder.BitEncoder.ShiftIn | src/protocol/hdlc_encoder.c:114-123 | one bit is added to the line, and a byte is handed over when it is complete |
| Encoder.BitEncoder.PutBit | src/protocol/hdlc_encoder.c:137-154 | the line grows by the stuffed form of the next data bit, or the frame is too small for the whole |
| Encoder.BitEncoder.PutByte | src/protocol/hdlc_encoder.c:156-169 | the line grows by the stuffed form of eight data bits in the chosen order |
| Encoder.BitEncoder.PadAndDrain | src/protocol/hdlc_encoder.c:125-135 | a partly filled byte is completed with zeros |
| Encoder.Encode | src/protocol/hdlc_encoder.c:171-218 | encoding succeeds if and only if the frame was empty and the encoding fits, and then the frame is the encoding; otherwise the frame is left empty |
| Decoder.BitDecoder.GetBit | src/protocol/hdlc_decoder.c:111-150 | the next data bit of the destuffed line, its end, or the missing stuffed zero |
| Decoder.BitDecoder.GetByte | src/protocol/hdlc_decoder.c:152-169 | eight data bits in the chosen order, or fewer than eight were left |
| Decoder.ReadBytes | src/protocol/hdlc_decoder.c:183-207 | the complete bytes of the destuffed line up to the end, the first error or the end of the buffer |
| Decoder.Decode | src/protocol/hdlc_decoder.c:171-235 | the decoder's answer with the reason of a rejection, for every frame and capacity; an accepted payload is in the caller's buffer |
| Sync.FirstOpening | src/protocol/hdlc_sync.c:177-238 | the first raw index, and there the least phase, that shows a flag |
| Sync.BestRankIsBest | src/protocol/hdlc_sync.c:248-340 | the exhaustive search returns a longest complete span over all starts, phases and directions, the earliest in scan order among equals |
| SyncLaws.PollIsSound | src/protocol/hdlc_sync.c:549-620 | every poll keeps the buffer a suffix and the accumulator valid; a report is the aligned slice at its place, 3 to 2048 bytes, flags at both ends and none at indices 2 to length - 2; with 2048 bytes of room it never fails, and after no report a hunting accumulator holds at most one byte and a locked one at most one unread byte |
| SyncLaws.ShortPollReportsBest | src/protocol/hdlc_sync.c:343-476 | with 4 to 64 bytes buffered the same poll reports the best span, or its first three bytes if the third is a flag |
| SyncLaws.ChunkingDoesNotMatter | src/protocol/hdlc_sync.c:478-505 | once locked, however the bytes are split across polls and whatever room the frame has beyond the candidate, the report is the aligned bytes from the lock to the first flag at index 2 or later |
| TrackSteps.PollWithHeld | src/protocol/hdlc_sync.c:379-505 | passed a frame that holds the bytes taken over so far, a resumed poll does what it does in one piece, and leaves such a frame |
| PollLaws.TrackWithIsSound | src/protocol/hdlc_sync.c:379-476 | whatever the frame holds, a locked poll reports a complete flag-to-flag span, and its frame is the aligned slice if and only if it held the bytes taken over so far |
| PollLaws.OnlyLengthCounts | src/protocol/hdlc_sync.c:379-476 | of what the frame held before a poll only its length counts |
| SyncRuns.RunIsFaithful | src/protocol/hdlc_sync.c:622-663 | in every run of feeding, polling with any frame, verdicts at any time and restarts the buffer is a suffix of the bytes taken, every report is a complete flag-to-flag span of them, its frame is the aligned slice there exactly if the caller had kept its frame, and no report starts inside an accepted one or at the opening of a rejected one before it |
| SyncRuns.VerdictsInRuns | src/protocol/hdlc_sync.c:622-663 | in every run a verdict on a report, with only received bytes in between, leaves exactly the bytes behind an accepted candidate, exactly those behind the first byte of a rejected one, or 16 bytes if more than 8175 were left |
| SyncRuns.VerdictOnNothing | src/protocol/hdlc_sync.c:622-627 | a second verdict, or one on nothing, changes nothing |
| Limits.Synchroniser | src/protocol/hdlc_sync.c:27-29 | the size limits of the synchroniser have the values 4, 2048 and 64, and its buffer 8192 with a tail of 16 |
| FalseLocks.FirstTenableIsFollowed | src/protocol/hdlc_sync.c:108-128 | in a long window a poll follows the first opening, at its least right shift, that closes within 2048 bytes or still may, whatever false openings lie before it, and none if there is none |
| FalseLocks.RoomIsExact | src/protocol/hdlc_sync.c:403-442 | a locked poll fails if and only if the frame is smaller than 2048 bytes, more bytes than it takes are there, and none of those it takes closes the candidate |
| FalseLocks.LongHuntIsExact | src/protocol/hdlc_sync.c:177-238 | in a long window a hunt finds an opening if and only if a right shift shows a flag from one byte before the cursor on, and it looks nowhere before that |
| FalseLocks.CandidateStaysPending | src/protocol/hdlc_sync.c:343-376 | a reported candidate stays pending over a poll that finds no opening and is forgotten by one that takes another |
| Accumulators.Accumulator.DropPrefix | src/protocol/hdlc_sync.c:70-88 | the oldest bytes are dropped in place and the others keep their order |
| Accumulators.Accumulator.GetAligned | src/protocol/hdlc_sync.c:136-169 | one byte at a bit phase, exactly when there is such a phase and its raw bytes are there |
| Wire.AlignedIsWindow | src/protocol/hdlc_sync.c:156-161 | a right shift reads the bits of a line packed least significant bit first at that offset |
| Wire.AlignedIsMsbWindow | src/protocol/hdlc_sync.c:162-167 | a left shift reads the bits of a line packed most significant bit first at that offset |
| Accumulators.Accumulator.FindOpening | src/protocol/hdlc_sync.c:177-238 | the nested loops find the first opening |
| Accumulators.Accumulator.ProbeSpan | src/protocol/hdlc_sync.c:298-325 | length of the span that starts at a place, from its first closing flag at size 4 or more |
| Accumulators.Accumulator.SearchPlaces | src/protocol/hdlc_sync.c:275-339 | the triple loop finds the best span |
| Accumulators.Accumulator.StepHunting | src/protocol/hdlc_sync.c:343-376 | locks on the chosen opening, or the poll is over |
| Accumulators.Accumulator.StepSyncing | src/protocol/hdlc_sync.c:379-417 | takes over the first byte after the flag untested, waits for it, fails for lack of room, or gives up an oversized frame |
| Accumulators.Accumulator.StepSynced | src/protocol/hdlc_sync.c:420-476 | takes over a byte, completes the candidate, waits, fails, or gives up an oversized lock |
| Accumulators.Accumulator.RejectOversized | src/protocol/hdlc_sync.c:108-128 | hunting resumes one raw byte after the opening, with fewer bytes buffered |
| Accumulators.Accumulator.FinalizeNoFrame | src/protocol/hdlc_sync.c:483-505 | a hunting accumulator keeps one byte of overlap, a locked one its cursor |
| Accumulators.Accumulator.ProcessByte | src/protocol/hdlc_sync.c:527-541 | a byte is appended unless 8192 are buffered |
| Accumulators.Accumulator.Poll | src/protocol/hdlc_sync.c:549-620 | the resumable machine terminates and computes the outcome, its view, the frame and the reported bit offset, whatever the frame held; with a frame that holds what was taken over it computes the one-piece outcome |
| PollSteps.ReportedIsLeftShift | src/protocol/hdlc_sync.c:467-472 | the reported offset of a right shift is the left shift of the same two raw bytes in the other order |
| MsbFirst.PackedIsReportedIff | src/protocol/hdlc_sync.c:248-340 | bytes between flags, packed most significant bit first at any bit offset in a short window, are reported if and only if no span is longer, nor as long and earlier in scan order |
| MsbFirst.ShiftedIsReported | tests/test_byte_alignment.c:71-108 | every frame of 4 to 63 bytes shifted right by fewer than eight bits is reported byte for byte, with the shift as its offset |
| MsbFirst.Rebuild | tests/test_byte_alignment.c:71-140 | the accumulator itself, fed the shifted bytes and polled once with room for just the frame, rebuilds it |
| Accumulators.Accumulator.ConsumeCandidate | src/protocol/hdlc_sync.c:622-663 | an accepted candidate is dropped whole, a rejected one loses its first raw byte, and a nearly full buffer is cut to 16 bytes |
| Receiver.JudgeShrinks | src/system/event_loop.c:212-255 | every verdict on a report leaves fewer buffered bytes, so that draining ends |
| Receiver.EventLoop.DecodeToUdp | src/system/event_loop.c:212-255 | a decoded candidate is sent on and accepted, another rejected, and the fourth failure in a row restarts the accumulator |
| Receiver.EventLoop.DrainFrames | src/system/event_loop.c:257-274 | the unbounded loop terminates and hands over every complete frame |
| Receiver.EventLoop.Receive | src/system/event_loop.c:106-123 | a batch of received bytes goes into the accumulator as far as there is room, and then everything complete is handed over |
| Limits.EventLoop | src/system/event_loop.c:45-51 | the loop drains 32 bytes at a time, throttles between 48 and 12, starts over after 4 failures in a row, and has 8192 bytes for a frame and for a payload |
| Wire.NoFlagBetween | src/protocol/hdlc_encoder.c:171-211 | from inside one frame's closing flag to the next frame's opening there is no other flag at any bit offset |
| Batches.HuntIsRightIffClear | src/protocol/hdlc_sync.c:343-376 | a hunt picks the next frame, or nothing while there is none to be seen, if and only if the window holds no longer span and no equal one earlier in scan order |
| Batches.DrainHandsOver | src/system/event_loop.c:257-274 | a drain that hunts in clear windows hands over every frame that has arrived completely, rejects nothing, and stays locked on the frame under way |
| EndToEnd.BatchesArrive | src/system/event_loop.c:419-434 | for every traffic and every split of its raw bytes into batches that fit and leave the hunts unmisled, exactly the payloads are handed over, in order, and nothing is rejected |
| Sightings.ReportsAreTheFramesIffUnmisled | src/protocol/hdlc_sync.c:248-376 | with batches that fit, the reports of the whole run are the frames sent, each at its place and none besides, if and only if every window hunted in is clear |
| EndToEnd.EverythingArrives | src/system/event_loop.c:257-274 | for every list of payloads with encodings of at most 2048 bytes and every number of zero bits before, between and after the frames, draining after each byte hands over exactly that list and rejects nothing |
| EndToEnd.ReceiveTraffic | src/system/event_loop.c:257-274 | the loop itself, fed the packed bytes in batches, sends exactly these payloads on |
| Bursts.NoLongerFrameIsLost | src/protocol/hdlc_sync.c:248-340 | two complete frames in one short window, the second at least as long: the first is not reported, its opening flag is dropped by either verdict, and (unless a payload overhangs) the drain does not hand over both |
| Bursts.PairArrivesIff | src/system/event_loop.c:257-274 | two frames in one short window are both handed over if, and for payloads that do not overhang only if, no span is longer than the first frame |
| Bursts.UndisputedArrives | src/system/event_loop.c:257-274 | frames back to back in one batch, each without a longer span behind it in a short window, are all handed over and nothing is rejected |
| Bursts.BurstArrivesIff | src/system/event_loop.c:257-274 | for payloads that do not overhang that condition, with a buffer that is not cut, is exact |
| Bursts.DrainIsEconomic | src/protocol/hdlc_sync.c:622-663 | what a drain hands over has cost no more raw bytes than were buffered, whatever the bytes are |
| Bursts.DecodedIsLong | src/protocol/hdlc_decoder.c:171-227 | no frame shorter than the encoding of a payload decodes to it, but for a last inserted zero that the decoder does not miss |
| Bursts.EmptyDatagramIsLost | src/protocol/hdlc_sync.c:248-340 | an instance: an empty datagram in front of one of 4 to 40 bytes |
| Rejections.DoubledOpeningFlag | src/system/event_loop.c:237-253 | a doubled opening flag costs one failure, and the frame behind it is recovered |
| Rejections.FrameBehindFewFlags | src/system/event_loop.c:237-253 | every frame behind up to three stray flags is recovered, and something is rejected |
| Rejections.FrameBehindFlags | src/system/event_loop.c:237-253 | a long frame behind stray flags is recovered if and only if they and the failures before are at most three; otherwise the receiver starts over with an empty buffer |
| Rejections.FrameBehindDamaged | src/system/event_loop.c:237-253 | each damaged frame costs two failures, so that a long frame behind damaged ones in the same batch is recovered if and only if twice their number and the failures before are at most three |
| Rejections.WrongDataIsDamaged | src/protocol/hdlc_decoder.c:215-225 | a well-formed frame whose data do not pass the check is damaged in that sense |
| Ring.RingBuffer.PushBack | src/system/ringbuffer.c:44-58 | appends to the stored sequence, or refuses when full |
| Ring.RingBuffer.PopFront | src/system/ringbuffer.c:60-74 | removes the oldest element, or reports empty |
| Ring.RingBuffer.PushBackWrap | src/system/ringbuffer.c:76-100 | appends and drops the oldest element when full |
| Transmit.EveryRunIsShaped | src/drivers/tx_queue.c:129-199 | over every run the line shows, for each queued frame in order, non-empty proper prefixes each ended by a hard reset and then the whole frame once, up to a last frame that may be partial; the CTS baseline is valid exactly in mid-frame; the byte counter is the number of bytes on the line |
| Transmit.DrainCallIsExact | src/drivers/tx_queue.c:129-199 | in every run a drain call resets the line if and only if a frame is in mid-send and the CTS counter differs from the one read after its first bytes, puts nothing then and starts the frame over; every other call puts exactly as many bytes as wanted, taken by the FIFO and left |
| Transmit.EnqueueIsExact | src/drivers/tx_queue.c:201-227 | every payload of up to 1703 bytes is queued last while fewer than 64 frames wait, and none while 64 do |
| Limits.Queues | src/drivers/tx_queue.h:32-42 | the transmit queue has 64 slots of 2048 bytes, the event queue 16, the log 128 lines of 160 characters, the command line 128 characters |
| Transmit.TxQueue.DrainCurrent | src/drivers/tx_queue.c:75-112 | bytes are put in order until the chunk is done or the FIFO refuses |
| Transmit.TxQueue.DrainChunk | src/drivers/tx_queue.c:129-199 | one drain call: reset and resend, next frame, chunk and baseline |
| Transmit.TxQueue.EnqueueUdp | src/drivers/tx_queue.c:201-227 | the encoded datagram is queued unless the queue is full or the encoding too long |
| Transmit.TxQueue.IsEmpty | src/drivers/tx_queue.c:122-127 | nothing waits and the current frame is fully drained |
| Bridge.DatagramsCrossTheBridge | src/drivers/tx_queue.c:129-227 | after any run that ends drained and without a hard reset, the bytes on the line are the frames of the queued datagrams; with any idle time around them, at any bit phase, byte by byte or in smooth batches, a receiver hands over exactly these datagrams in order |
| Bridge.BackToBackOnLine | src/drivers/tx_queue.c:129-227 | with idle time before the first frame only, the raw bytes received are the very bytes put on the line, shifted by that time |
| Throttle.IterationIsSafe | src/system/event_loop.c:365-381 | occupancy stays at 48 or less, does not grow while throttled, and throttling ends only at 12 or fewer |
| Throttle.QueueNeverOverflows | src/system/event_loop.c:409-418 | in every run at most 48 of 64 frames wait and no datagram is dropped for a full queue |
| Throttle.FallsWhileThrottled | src/system/event_loop.c:409-418 | over a throttled stretch of a run occupancy only falls |
| Throttle.ThrottleIsExact | src/system/event_loop.c:365-381 | a throttled loop is released exactly when at most 12 frames wait after the drain, an unthrottled one throttled exactly when at least 48 do, and exactly an unthrottled one queues an encodable datagram that waits |
| Throttle.ThrottleEnds | src/system/event_loop.c:409-418 | once the FIFO takes bytes and the CTS counter stays, a throttled loop takes datagrams again after no more iterations than bytes are left to put |
| Throttle.TxLoop.UpdateThrottle | src/system/event_loop.c:365-381 | the hysteresis between 48 and 12 |
| Throttle.TxLoop.PollAndEnqueue | src/system/event_loop.c:140-164 | at most one datagram is queued, and a full queue is counted |
| Throttle.TxLoop.Iteration | src/system/event_loop.c:409-418 | drain, update the throttle, take a datagram when not throttled |
| Events.EventQueue.Push | src/system/event_queue.c:49-65 | appends while fewer than 15 events wait, with high-water mark and drop counter |
| Events.EventQueue.Pop | src/system/event_queue.c:67-76 | removes the oldest event |
| Events.CountersAreExact | src/system/event_queue.c:49-76 | in every run the high-water mark is the greatest length reached and the drop counter the number of refused pushes |
| Events.OrderIsKept | src/system/event_queue.c:49-76 | in every run what has been popped and what still waits is what has been accepted, in order |
| CliPool.LinesSurviveInThePool | src/system/cli_usb_cdc.c:54-91 | in every run of typing, other pushes and pops the dispatcher reads exactly the queued lines, in order and unaltered |
| CliPool.WriteSlotIsFree | src/system/cli_usb_cdc.c:54-91 | no queued event refers to the slot written next |
| CliPool.CliPort.OnChar | src/system/cli_usb_cdc.c:54-112 | line editing, the pool slot, and the write index that moves only on a successful push |
| CliPool.CliPort.Poll | src/system/cli_usb_cdc.c:40-114 | at most sixteen characters are taken per poll |
| CliPool.TextIsAdded | src/system/cli_usb_cdc.c:100-108 | printable text is added to the line up to 127 characters, and the rest is lost |
| CliPool.ErasingTakesAway | src/system/cli_usb_cdc.c:92-99 | every backspace or delete takes away the last character that is left |
| CliPool.OthersAreIgnored | src/system/cli_usb_cdc.c:109-112 | any other character changes nothing |
| CliPool.TypedLineIsQueued | src/system/cli_usb_cdc.c:54-91 | a typed line is queued as it was typed when it is ended, unless 15 events wait, and the next one starts empty |
| LogQueue.EveryInterleavingIsSafe | src/system/log.c:90-129 | under every interleaving the printed lines are an unaltered prefix of the published ones, no waiting slot is being written, and published, dropped and pending attempts add up |
| LogQueue.ProducerStaysOut | src/system/log.c:90-101 | the slot being written is none between tail and head |
| LogQueue.ProduceKeepsInv | src/system/log.c:90-113 | every single step of the writing core keeps the invariant |
| LogQueue.PrintKeepsInv | src/system/log.c:115-130 | every single step of the printing core keeps the invariant |
| LogQueue.DropsOnlyWhenFull | src/system/log.c:93-101 | the dropped count rises exactly in a step in which core 0 finds 127 lines between tail and head |
| LogQueue.WritePublishes | src/system/log.c:90-113 | a line written while fewer than 127 wait is published, in any interleaving with 163 steps of core 0 |
| LogQueue.EverythingIsPrinted | src/system/log.c:115-130 | core 1 running alone prints every published line unaltered, in at most 163 steps a line |
| LogQueue.HighWaterIsExact | src/system/log.c:102-106 | the high-water mark is raised exactly to the number of lines waiting right after a line is published |

## Left out

- Bursts.BurstArrivesIff: for a payload that overhangs, whose last inserted zero needs a byte of its own, only one direction is proved, since the decoder also accepts a frame without that byte; `Sightings.ReportsAreTheFramesIffUnmisled` is exact for all payloads.
- Bridge.DatagramsCrossTheBridge: runs without a hard reset; what the line shows while the transmit hardware restarts is not modelled, so nothing is said of what a receiver makes of an abandoned prefix.
- The synchroniser's sync byte is fixed to 0x7E, which every caller passes; its optional left-shift fallback, which no caller enables, is not modelled.
- Null-pointer arguments, and a frame descriptor whose capacity differs from its storage.
- Statistics counters of the synchroniser, the decoder and the loop; counters that are modelled do not wrap around.
- PIO, GPIO, clock and RTS handling: the serial output is a FIFO with some room and a reset marker, and the CTS counter a number given at two moments of a drain call.
- Network chip driver, sockets, flash, watchdog, baud-rate estimation, command parsing and status printing.
- The byte-escaped codec, which the data path does not use, and the legacy events that would enqueue datagrams from the event queue.
- The idle-byte filter, the idle timeout and the no-progress resync of the event loop.
- Memory barriers of the log queue: the two cores are sequentially consistent; log levels and formatting are left out.
- Pointer repair in queued transmit entries: frames are values.
