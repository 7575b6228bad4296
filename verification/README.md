# squeezelite-esp32: models and proofs of its algorithms

This project models the parts of the squeezelite-esp32 firmware that carry real algorithms, and proves
what they promise. Pointers are offsets into arrays; `malloc` outcomes, clocks, pin samples, packet
arrival, NVS failures and the other side of a connection are parameters, so every statement holds for
all of their values.

| file | component | what is proved |
|---|---|---|
| `StreamFifo.dfy` | the byte FIFO (`buffer.c`) | every schedule of calls acts as a bounded FIFO of capacity size - 1 until one of the calls that fail, which are named; `_buf_unwrap` keeps the bytes on every branch and says when the front becomes contiguous |
| `SinkHandler.dfy` | the Bluetooth and AirPlay writer (`decode_external.c`) | it stops and appends a prefix of its data under every interleaving with the reader |
| `SeqNumbers.dfy`, `JitterHistory.dfy`, `JitterBuffer.dfy`, `JitterLaws.dfy` | the RAOP jitter buffer (`rtp.c`) | for packets within 16384 of the read end, each sequence number is disposed of exactly once and in order, over every schedule; while the ring tells numbers apart - 286 of them, or 375 on one side of the wrap - judged by its own packet and played from it |
| `ChunkTable.dfy`, `BoxTables.dfy`, `TableFiles.dfy`, `BoxWalk.dfy`, `BoxLaws.dfy`, `BoxPolls.dfy`, `BoxRoom.dfy`, `BoxFiles.dfy`, `BoxTrees.dfy` | the header of an MP4 file (`alac.c`) | what is remembered of a file, exactly when a box of it is lost or never passed, for every schedule and wrapped or not, and the round trip from written boxes |
| `AlacTrack.dfy`, `AlacReader.dfy`, `AlacRuns.dfy`, `AlacPlays.dfy` | the MP4 reader (`alac.c`) | from the first byte of a file on, for every arrival schedule, the blocks given to the decoder are the samples its tables describe, and with enough rounds all of them; short runs on which that fails |
| `Panel.dfy`, `DirtyRect.dfy`, `SpanUpdate.dfy`, `PageUpdate.dfy` | display updates from a shadow buffer | partial updates send the changed rows once, in order, and leave panel RAM, shadow and framebuffer equal |
| `MonoDraw.dfy` | drawing on SSD1326/7 in one bit (`SSD132x.c`) | the byte-wise forms equal the loops over pixels, and exactly where they do not |
| `Dmap.dfy`, `DmapLaws.dfy` | the DMAP parser (`dmap_parser.c`) | what is accepted, balanced events, concatenation, and the round trip from trees of fields |
| `Base64.dfy`, `Base64Text.dfy` | base64 (`raop.c`), section 4 of RFC 4648 | each character of an encoding by its bits, which texts decode, round trips with and without stripped signs, exact buffer sizes |
| `RotaryEncoder.dfy` | the quadrature decoder (`rotary_encoder.c`) | the count follows the shaft over every bouncing run |
| `ConfigCache.dfy`, `ConfigLaws.dfy` | the write-behind configuration cache (`platform_config.c`) | over every schedule of calls unchanged entries equal NVS, and a commit stores the value last set |
| `Memory.dfy`, `BigEndian.dfy`, `Wrappers.dfy` | | bytes, `memmove` and `memcpy`, arithmetic on quotients, big-endian numbers, options |

An imperative source is an imperative model: a class with the source's fields, methods proved against
functions of the old state, and lemmas about these functions. `Valid()` is the invariant of a class;
`Contents()` and `View()` give its abstract value. Whole runs are methods over a schedule of events,
proved against a replay function or a step relation, about which the run theorems are lemmas.

What the proofs found about the code, each stated by a member named in the table below:

- `_buf_unwrap` compares a `size_t` with 0, so its direct branch is taken only when the overlap is
  exactly 0; a negative overlap becomes a huge request and, as that fails, the front stays in two pieces
  (`Unwrap`, `Overlap`). The scratch branch can be asked to move a negative number of bytes (`Tail`,
  `NegativeMove`). When the bytes behind the wrap are as many as the shift, the write pointer is
  left on the wrap: nothing can be written any more, and draining the buffer makes it look full
  (`Room`, `IncReadp`, `ParkedDrain`).
- Taking a limit off keeps the bytes only when they do not wrap (`Limit`).
- The ring of 375 slots tells apart no more than 286 consecutive numbers across 65535 -> 0
  (`SafeWindowExact`), fewer than the longest latency asks for (`LatencyBeyondWindow`). There the plain
  `int` differences in `rtp.c` also give missing frames wrong timestamps and let any range be asked for again
  (`GapTimeExact`, `ResendCap`).
- A table box of an MP4 file is read when `bytes > len` but passed over when `bytes >= len`, where `bytes`
  ends at the wrap. It is lost exactly when a call has it in one piece to its last byte and no more
  (`LostExactly`, `LostBox`): always when no more than its length lies before the wrap, as after
  room was made for it, and else when a call finds its last byte delivered and no more (`RoomDecides`,
  `LostAtWrap`, `LostBehindWrap`).
- A box header cut by the wrap is never read, nor is a table as long as the buffer (`StaysStuck`, `Stalled`,
  `NeverThere`); any other is passed by a later call unless making room for it fails (`MovesOn`,
  `MovesOverWhole`, `MovesRoomMade`).
- The call that meets `mdat` goes on to decode even when the first chunk is still to be skipped to, and gives
  the decoder the wrong bytes; the next sample is right again, but for a chunk of one sample (`Listen`,
  `WrongBlock`).
- `stsz` is read for every track, `stco` only for the one to play: a later track replaces the sizes of the
  track played (`SizesAreLast`, `WrongSizes`).
- The SSD1351 staging test runs after the copy, so three bytes a pixel can overrun the block on displays of
  more than six rows, and updates do (`StagingSSD1351`, `UpdatesSSD1351`); the other drivers need rows of 228 bytes, or at most nine of them
  (`StagingExact`).
- On SSD1326/7, XOR flips the pixel across the byte from the one asked for (`InvertMisses`), and clearing a
  window with XOR sets whole bytes (`FastExact`, `ClearBoth`).
- A one-byte DMAP integer is read through plain `char`, which is unsigned on the ESP32 (`OneByteInteger`).
- `base64_pad` adds `strlen % 4` signs, which is wrong for texts of two bytes over (`PaddedRoundTrip`), and the
  caller's block of 32 bytes holds what is decoded only if at most 32 bytes were encoded (`PaddedStores`).
  A foreign character inside a token is decoded without an error (`ForeignAccepted`).
- `config_commit_to_nvs` reports everything committed whatever failed (`Commit`, `CommitSettles`), and an
  update replaces the first key that differs only in case (`ReplaceFindsSame`, `CaseClash`, `Load`).

## Model

| member | source | states |
|---|---|---|
| StreamFifo.StreamBuffer.constructor | components/squeezelite/buffer.c:162-169 | a new buffer is an empty FIFO of the whole block |
| StreamFifo.StreamBuffer.Used | components/squeezelite/buffer.c:32-34 | the number of bytes held, below the size unless the buffer was drained while parked |
| StreamFifo.StreamBuffer.Space | components/squeezelite/buffer.c:36-38 | together with the bytes held it makes size - 1 |
| StreamFifo.StreamBuffer.ContRead | components/squeezelite/buffer.c:40-42 | the first so many bytes lie in one piece in the storage, and the piece ends at the wrap if it is not all |
| StreamFifo.StreamBuffer.ContWrite | components/squeezelite/buffer.c:44-46 | with the write pointer it ends at the read pointer or the wrap, whichever is next; none exactly when the write pointer rests on the wrap |
| StreamFifo.StreamBuffer.Room | components/squeezelite/stream.c:172-178 | the smaller of the space and the room before the wrap: nothing exactly when the buffer is full or its write pointer rests on the wrap |
| StreamFifo.StreamBuffer.IncReadp | components/squeezelite/buffer.c:48-53 | reading drops bytes from the front; exactly when a buffer with its write pointer on the wrap is drained, it claims to be full instead |
| StreamFifo.StreamBuffer.IncWritep | components/squeezelite/buffer.c:55-60 | appends the bytes stored ahead of the write pointer |
| StreamFifo.StreamBuffer.Append | components/squeezelite/stream.c:172-190 | storing at the write pointer and advancing appends the bytes |
| StreamFifo.StreamBuffer.Flush | components/squeezelite/buffer.c:69-72 | leaves the empty FIFO, from any state |
| StreamFifo.StreamBuffer.Adjust | components/squeezelite/buffer.c:75-82 | makes the size the largest multiple of mod and empties the buffer; with less than one frame no byte is left, and it is no ring any more |
| StreamFifo.StreamBuffer.Limit | components/squeezelite/buffer.c:99-108 | a limit empties the buffer; removing it keeps the bytes exactly when they do not wrap or the size does not change |
| StreamFifo.StreamBuffer.Overlap | components/squeezelite/buffer.c:127-144 | the size_t overlap is 0 only when the gap equals the shift, and an allocation can be granted only when the gap is not wider |
| StreamFifo.StreamBuffer.Tail | components/squeezelite/buffer.c:152 | the last length of the scratch branch is not negative exactly when 2 * cont <= size + (wrap - readp) |
| StreamFifo.StreamBuffer.Unwrap | components/squeezelite/buffer.c:110-160 | contents survive every branch and every allocation outcome, and the pointers end where a function of the old ones says; when fewer than cont bytes lay before the wrap, exactly cont do afterwards if and only if the bytes were not wrapped, the gap equals the shift, or the gap is smaller and memory for the difference is granted; the halving fallback terminates and never gets there; says when the write pointer is left on the wrap, and exactly when a negative length would be moved |
| StreamFifo.StraightenedRoom | components/squeezelite/buffer.c:110-160 | the pointers alone: as many bytes lie between them as before, never more than cont in front of the wrap if there were fewer, and fewer when memory is refused |
| StreamFifo.StraightenedIs | components/squeezelite/buffer.c:110-160 | where each branch but the halving one leaves the pointers |
| StreamFifo.StreamBuffer.UnwrapAsMeant | components/squeezelite/buffer.c:126-142 | with the overlap signed, as the comment means, only a refused allocation leaves fewer than cont bytes before the wrap, and a negative length is moved exactly when a granted one leaves no room for the tail |
| StreamFifo.NegativeMove | components/squeezelite/buffer.c:147-155 | a concrete buffer (size 8, six bytes asked for, memory granted) for which the last length of the scratch branch is -3 |
| StreamFifo.Perform | components/squeezelite/buffer.c:48-160 | each call, unwrapping included, acts on the ring as its abstract operation does on the FIFO, unless it is one that fails |
| StreamFifo.Misses | components/squeezelite/buffer.c:48-160 | a call counted as failing does fail: the producer has no room for its bytes, draining it leaves no ring, lifting the limit changes the bytes, or a negative length is to be moved on the scratch branch |
| StreamFifo.Run | components/squeezelite/buffer.c:32-160 | any schedule of writes, reads, flushes, adjusts, limits and unwraps refines the bounded FIFO up to the first call that writes to or drains a parked buffer, lifts a limit from wrapped bytes or moves a negative length, where it stops |
| StreamFifo.RunConserves | components/squeezelite/buffer.c:48-60 | over any schedule of reads and writes, bytes read followed by bytes left are the bytes held at first followed by the bytes written |
| StreamFifo.RunBounded | components/squeezelite/buffer.c:36-38 | no schedule ever holds size bytes |
| StreamFifo.FramesStayContiguous | components/squeezelite/buffer.c:74-82 | after an adjust, reads of whole frames keep the read pointer on a frame boundary with a whole frame before the wrap |
| StreamFifo.ParkedDrain | components/squeezelite/buffer.c:131-142 | a concrete run in which three bytes read from a four-byte buffer leave it claiming four |
| StreamFifo.SlideDown | components/squeezelite/buffer.c:119-124 | moving unwrapped bytes down keeps them |
| StreamFifo.MoveWrapped | components/squeezelite/buffer.c:131-142 | the direct move keeps the bytes for every gap at least as wide as the shift |
| StreamFifo.MoveThroughScratch | components/squeezelite/buffer.c:147-155 | the move with saved bytes keeps them, given room for the tail to slide |
| StreamFifo.UnwrappedMove | components/squeezelite/buffer.c:119-124 | the copy of the slide branch, on values |
| StreamFifo.DirectMove | components/squeezelite/buffer.c:131-142 | the copies of the direct branch, on values, whether or not a tail remains behind the wrap |
| StreamFifo.ScratchMove | components/squeezelite/buffer.c:147-155 | the four overlapping copies of the scratch branch, on values |
| SinkHandler.Pass | components/squeezelite/decode_external.c:79-102 | one round stores what fits before the wrap, sleeps exactly when data is left and no room, and then the output takes what it wants of what there is |
| SinkHandler.SinkDataHandler | components/squeezelite/decode_external.c:63-109 | it stops under every interleaving, appends a prefix of its data, and all of it unless an abort was raised or it slept exactly five times, each time with the buffer full and data left; without waiting when there was room |
| SinkHandler.KeptStep | components/squeezelite/decode_external.c:91-101 | writes and concurrent reads commute on what is kept |
| SeqNumbers.S16 | components/raop/rtp.c:408-411 | conversion to int16_t keeps the value modulo 65536 |
| SeqNumbers.OrderIsVirtual | components/raop/rtp.c:408-411 | seq_order decides the order of unbounded numbers less than half the range apart |
| SeqNumbers.SlotsWithoutWrap | components/raop/rtp.c:155 | numbers that do not straddle the wrap share a slot exactly at multiples of 375 |
| SeqNumbers.SlotsAcrossWrap | components/raop/rtp.c:155 | numbers that straddle it share a slot exactly at 286 modulo 375 |
| SeqNumbers.SlotsDistinct | components/raop/rtp.c:155 | numbers less than 286 apart never share a slot |
| SeqNumbers.SafeWindowExact | components/raop/rtp.c:74 | every window of n numbers has a slot for each exactly when n is at most 286 |
| SeqNumbers.WholeRingWithoutWrap | components/raop/rtp.c:74 | without the wrap the whole ring of 375 may be used, and no more |
| SeqNumbers.WindowExact | components/raop/rtp.c:155 | the ring tells the numbers of a window apart exactly when there are at most 286 of them, or at most 375 on one side of the wrap |
| SeqNumbers.ResendCap | components/raop/rtp.c:806 | the cap on a range asked for again works exactly when the range does not straddle the wrap |
| SeqNumbers.GapTimeExact | components/raop/rtp.c:480 | the timestamp given to a missing number is the interpolated one exactly when no wrap lies between (or the error is a whole turn of the clock) |
| JitterHistory.DueAfter | components/raop/rtp.c:535 | a frame k samples after the reference, counted modulo 2^32, is due k * 10 / 441 ms after its time, for every k with 10 * k below 2^32 |
| JitterHistory.ReceivedOnce | components/raop/rtp.c:528-560 | in a session in which the ring told apart all numbers from the read end to each packet as it landed, the number of a received packet is disposed of exactly once, never as silence, and played only from a packet of that number; it is discarded exactly when the clock is past the time of the reference plus k * 10 / 441 ms, where that packet is k samples after the reference |
| JitterHistory.NeverSent | components/raop/rtp.c:528-560 | a number nobody sent is never played: it is discarded when late and silenced when due, by whatever timestamp its slot has |
| JitterHistory.MissingOnce | components/raop/rtp.c:528-560 | when a gap gave such a number a timestamp, it is judged by the one interpolated for it |
| JitterHistory.OneOwner | components/raop/rtp.c:155 | while it does, a ready slot belongs to exactly one number, which has a packet |
| JitterHistory.DisposeExact | components/raop/rtp.c:534-557 | in the safe window a disposal judges its number by its own packet, or by the timestamp of its gap when no packet came |
| JitterHistory.DisposeOk | components/raop/rtp.c:528-560 | wherever packets landed, one more disposal keeps the history consecutive and played from packets received for that slot |
| JitterHistory.DisposeSafe | components/raop/rtp.c:534-557 | disposing of the number at the read end keeps slot ownership |
| JitterHistory.TakeOk | components/raop/rtp.c:502-506 | one more packet keeps the history in order |
| JitterHistory.TakeSafe | components/raop/rtp.c:502-506 | a packet inside the safe window takes no other number's slot |
| JitterHistory.RetimedSafe | components/raop/rtp.c:479-482 | timestamps written to slots of missing numbers disturb no packet and no earlier gap |
| JitterBuffer.LatencyBeyondWindow | components/raop/rtp.c:691-694 | the longest latency the clamp admits holds 300 packets of 352 samples, more than the ring can tell apart in every position |
| JitterBuffer.GapStartIs | components/raop/rtp.c:471-479 | the gap loop starts behind the write end: at the first missing number, or, when more are missing than the latency covers, at the last latency / frame_size - 1 of them |
| JitterBuffer.GapStartWraps | components/raop/rtp.c:471-479 | the 16-bit start of the gap loop is that number |
| JitterBuffer.NumberIs | components/raop/rtp.c:460-487 | a packet's virtual number stands for its sequence number |
| JitterBuffer.RtpContext.constructor | components/raop/rtp.c:210-265 | a new context is idle with an empty history |
| JitterBuffer.RtpContext.Level | components/raop/rtp.c:498 | while playing, the 16-bit difference of the ends is the true level, from -1 up |
| JitterBuffer.RtpContext.PushOne | components/raop/rtp.c:529-558 | the number at the read end is discarded when late, played when held, silenced when due and missing, waited for otherwise, by the timestamp in its slot |
| JitterBuffer.RtpContext.ResendMissing | components/raop/rtp.c:572-578 | terminates and touches only slots that are not ready |
| JitterBuffer.RtpContext.PushPacket | components/raop/rtp.c:520-579 | the push loop terminates, disposes of consecutive numbers at the times its clock gives, and stops only at the write end, or at a number without a packet that is not late and more than the hold away |
| JitterBuffer.RtpContext.FillGap | components/raop/rtp.c:479-482 | timestamps go to no slots but those of the gap; in the safe window every number of the gap gets its own |
| JitterBuffer.RtpContext.Start | components/raop/rtp.c:444-453 | playing starts at a number behind the last flush, with an empty window |
| JitterBuffer.RtpContext.Accept | components/raop/rtp.c:502-506 | a packet up to 16384 ahead is held under its number and joins the session's history; slot ownership is kept while all landed in the safe window |
| JitterBuffer.RtpContext.NoteGap | components/raop/rtp.c:466-486 | the numbers that get timestamps are those from the first missing one, cut to the latency, up to the packet; they lie behind the write end |
| JitterBuffer.RtpContext.AcceptAndPush | components/raop/rtp.c:502-515 | a packet that is kept joins the session's history before the push loop moves on |
| JitterBuffer.RtpContext.Receive | components/raop/rtp.c:460-507 | for packets within 16384 of the read end: one behind it changes nothing; any other is held, whether expected, newer or recovered, the window grows to it, and the push loop stops at the write end or at a number waited for |
| JitterBuffer.RtpContext.PutPacket | components/raop/rtp.c:438-516 | the call is one step of the model whose start StartsExactly states: nothing is kept until both clocks are known and the flush is passed; then every packet within 16384 of the read end joins the history and at least the read end moves on in order |
| JitterBuffer.RtpContext.Reset | components/raop/rtp.c:400-403 | no slot is ready |
| JitterBuffer.RtpContext.Flush | components/raop/rtp.c:338-357 | when it counts, playing ends and every slot is idle; right after a record or for the same point it changes nothing |
| JitterBuffer.RtpContext.SyncPacket | components/raop/rtp.c:669-714 | the latency is clamped, the clocks are re-aligned, and a jump of more than ten seconds changes nothing |
| JitterBuffer.RtpContext.Run | components/raop/rtp.c:338-579 | any schedule of packets, flushes, records and clock messages goes from state to state as the step relation says, up to a packet that lands further off, with every session in order |
| JitterBuffer.PacketKept | components/raop/rtp.c:438-516 | over any run, a packet that finds the buffer playing, or starts it, and is not behind the read end is among those received from then on |
| JitterBuffer.ReceivedWasSent | components/raop/rtp.c:438-516 | nothing is received over a run but packets of the schedule |
| JitterBuffer.TraceGrows | components/raop/rtp.c:338-579 | over any run no session, packet received or disposal is ever forgotten or changed |
| JitterBuffer.StillAwaited | components/raop/rtp.c:520-579 | a number waited for has had no packet, and its time is further off than the hold |
| JitterLaws.DueLater | components/raop/rtp.c:535 | 441 samples later is 10 ms later |
| JitterLaws.HoldIs | components/raop/rtp.c:522 | the hold is an eighth of the latency in ms, and at least 100: 100 for the shortest latency, 300 for the longest |
| JitterLaws.StartsExactly | components/raop/rtp.c:444-453 | a packet makes an idle buffer play exactly when both clocks are known and there is no flush to pass or it is 1 to 32767 numbers behind the flush, modulo 2^16; then a session opens at its number, with that flush, and has the packet; else nothing changes |
| JitterLaws.KeptExactly | components/raop/rtp.c:460-507 | when the buffer plays, a packet within 16384 behind the read end changes nothing; any other is received under its number, the window reaches to it, and it times exactly the missing numbers in front of it, or when they are more than the latency has frames the last latency / frame_size - 1 of them |
| JitterLaws.JudgedBy | components/raop/rtp.c:520-560 | what the push loop disposes of it judges by its own clock readings, the reference and the hold of the latency at that time |
| JitterLaws.FlushExactly | components/raop/rtp.c:339-357 | a flush counts exactly when it neither comes within 250 ms of a record nor repeats its point; then playing ends and packets up to its number are to be passed |
| JitterLaws.OnlyFlushStops | components/raop/rtp.c:338-746 | no other event stops playing, sets a flush to pass or opens a session without the packet that may |
| JitterLaws.StaysIdle | components/raop/rtp.c:338-746 | over a run, an idle buffer to which no flush and no such packet comes stays idle |
| JitterLaws.FlushThenStart | components/raop/rtp.c:338-516 | over any run, after a flush that counts the first packet behind it that finds both clocks known opens a session, and none does before |
| JitterLaws.SyncIs | components/raop/rtp.c:689-698 | after a sync packet the latency is what the sender keeps, with 11025 more for flags 4 and 7, clamped to 11025 and 105840; the sample that far back is due when the packet says, and the sender's own sample that much later |
| JitterLaws.OtherEvents | components/raop/rtp.c:370-746 | a jump of more than ten seconds and a reply slower than 100 ms change nothing; a quick reply makes one clock known; a record only leaves its point |
| JitterBuffer.NumberFacts | components/raop/rtp.c:460-487 | the 16-bit tests place a packet against the window as the unbounded numbers do |
| ChunkTable.RunApplies | components/squeezelite/alac.c:201-219 | between the starts of two runs the earlier one applies |
| ChunkTable.FillRun | components/squeezelite/alac.c:205-214 | an inner loop gives its chunks their first samples and no other |
| ChunkTable.Expand | components/squeezelite/alac.c:188-222 | the nested loops give chunk i the number of samples in all earlier chunks, modulo 2^32 (section 8.7.4 of ISO/IEC 14496-12) |
| ChunkTable.FirstsIncrease | components/squeezelite/alac.c:196-219 | with at least one sample per chunk the table starts at 0 and strictly increases |
| BoxTables.ReadWords | components/squeezelite/alac.c:141-143 | the copying loops read the words of a table in order |
| BoxTables.ReadSizes | components/squeezelite/alac.c:134-147 | the size every sample has, or one size for each and a zero behind them |
| BoxTables.ReadOffsets | components/squeezelite/alac.c:176-223 | the method computes the function of the two boxes that ChunksRead describes: the offset and the first sample of every chunk |
| BoxTables.FirstsFromRuns | components/squeezelite/alac.c:196-219 | with at least one sample per chunk the first samples read start at 0 and strictly increase |
| TableFiles.TableWord | components/squeezelite/alac.c:136-143 | the i-th word written into a full box is the i-th word read |
| TableFiles.EachSizeRead | components/squeezelite/alac.c:134-147 | writing one size for each sample into a stsz box, the sizes come back in order with a zero behind them |
| TableFiles.OneSizeRead | components/squeezelite/alac.c:134-149 | as does one size for all and their number |
| TableFiles.RunsRead | components/squeezelite/alac.c:199-218 | writing a stsc box with three words an entry, first chunk, samples per chunk and any description index, the runs come back |
| TableFiles.CountedByRuns | components/squeezelite/alac.c:196-219 | the first sample of a chunk is the number of samples in the chunks in front of it, added run by run |
| TableFiles.ChunksRead | components/squeezelite/alac.c:168-223 | from a written stsc and a written stco box the table has exactly the offsets written, and for each chunk the samples the runs put in front of it, modulo 2^32 |
| AlacTrack.Block | components/squeezelite/alac.c:380-389 | the bytes of sample k, whole exactly when the file reaches that far |
| AlacTrack.ChunkFromIs | components/squeezelite/alac.c:402 | the chunk of a sample is the one whose range of samples it is in |
| AlacTrack.PositionIsBlockStart | components/squeezelite/alac.c:402-419 | walking chunks and samples one by one is at the offset the tables give: chunk offset plus sizes of the earlier samples of the chunk |
| AlacTrack.PositionFacts | components/squeezelite/alac.c:365-402 | at any position reached, the tables can be indexed, and a chunk that is not the last still has samples to come |
| AlacTrack.Start | components/squeezelite/alac.c:232-243 | reading starts right exactly at the offset of the first chunk |
| AlacTrack.StepWithin | components/squeezelite/alac.c:417-419 | inside a chunk the next sample lies one size further |
| AlacTrack.StepAcross | components/squeezelite/alac.c:402-411 | after the last sample of a chunk the next one starts at the next chunk's offset, which is not behind |
| AlacTrack.OneMore | components/squeezelite/alac.c:389-419 | the next sample extends the samples handed out |
| AlacTrack.PlayableAt | components/squeezelite/alac.c:364-378 | a sample to be played fits the buffer and is in the file, wherever the reader reaches it |
| BoxWalk.StepOver | components/squeezelite/alac.c:276-287 | at least a header for boxes as long as theirs, so reading always moves on; which boxes are entered, and where, is VisitsAll |
| BoxWalk.OneBox | components/squeezelite/alac.c:103-311 | what one more box does to the position and to what is remembered |
| BoxWalk.WaitsChangesNothing | components/squeezelite/alac.c:295-310 | a pass that waits for a box has remembered nothing of it |
| BoxWalk.ScheduleFree | components/squeezelite/alac.c:110-274 | if no box worth reading is missed, the header depends on the file alone and not on how it arrived |
| BoxWalk.NothingLost | components/squeezelite/alac.c:110-274 | ... and is that of a reader that misses nothing |
| BoxWalk.SizesAreLast | components/squeezelite/alac.c:134-177 | the sizes are those of the last stsz box read, of whatever track: they are the played track's exactly when that box is in it, as stsz has no test for the track to play |
| BoxWalk.SizesStay | components/squeezelite/alac.c:110-223 | no other box touches the sizes |
| BoxPolls.ScanPasses | components/squeezelite/alac.c:98-314 | a call reads exactly those of the boxes it visits whose end lies before the end of the piece in front of the wrap |
| BoxPolls.ScanReaches | components/squeezelite/alac.c:98-314 | a call that has enough for a box in one piece reaches it |
| BoxPolls.ScanThrough | components/squeezelite/alac.c:98-314 | a call that has the boxes up to the media data in one piece reads them all and stops at the media data |
| BoxPolls.PassedBy | components/squeezelite/alac.c:325-362 | every box visited was passed by one call |
| BoxPolls.Settled | components/squeezelite/alac.c:335-362 | nothing more is read once the header has ended or the write pointer rests on the wrap |
| BoxPolls.FirstToPass | components/squeezelite/alac.c:325-362 | ... the first that looked and had enough for it in one piece |
| BoxPolls.LostExactly | components/squeezelite/alac.c:110-310 | over any schedule, wrapped or not: a table box is lost exactly when a call that looks before it was passed has it in one piece to its last byte and no more; alac exactly when such a call has its header but nothing behind its end |
| BoxPolls.NoneMissedExactly | components/squeezelite/alac.c:110-310 | no box worth reading is missed exactly when no call loses one |
| BoxRoom.RoomDecides | components/squeezelite/alac.c:103-310 | a box that is next is read exactly when more than its length lies before the wrap and no call that looks meanwhile finds delivered what makes it go over the box unread; with no more than its length before the wrap it is lost under every schedule |
| BoxRoom.WhilePending | components/squeezelite/alac.c:289-310 | while a box is next the read pointer stays, or the room in front of the wrap stays too small for it |
| BoxRoom.StaysStuck | components/squeezelite/alac.c:99-310 | with fewer than eight bytes before the wrap, or in front of a table as long as the buffer, the reader stays where it is under every schedule |
| BoxRoom.MovesOn | components/squeezelite/alac.c:99-301 | with room for its header, a box that is not waited for is passed after one delivery and one call |
| BoxRoom.MovesOverWhole | components/squeezelite/alac.c:289-310 | with room for all of it and a larger buffer, so is a table |
| BoxRoom.MovesRoomMade | components/squeezelite/alac.c:302-310 | with less, a call that finds its header makes room for it on every branch but the halving one, and then one delivery and one call pass it, unread; it also says when the write pointer is left on the wrap and when a negative length is moved |
| BoxRoom.FindsDelivered | components/squeezelite/alac.c:98-99 | while less than the buffer's size was delivered, what a call finds in one piece is what was delivered |
| BoxFiles.BoxHead | components/squeezelite/alac.c:107-109 | the reader sees the length and the name that were written |
| BoxFiles.Lined | components/squeezelite/alac.c:289-294 | boxes written one behind the other are visited one after the other |
| BoxFiles.HeaderIs | components/squeezelite/alac.c:98-314 | reading a file that was written box by box remembers what the boxes say, in order |
| BoxFiles.ScanToData | components/squeezelite/alac.c:226-244 | one call that finds boxes of known ends and the media data in one piece reads every box and stops there, or at the first chunk if that is there too |
| BoxTrees.VisitsAll | components/squeezelite/alac.c:276-294 | of a tree of boxes written box inside box the boxes visited are the tree in preorder, and reading is then behind it: moov, trak, mdia, minf, stbl, udta and ilst are entered behind 8 bytes, stsd behind 16, mp4a behind 36, meta behind 12, all others passed over |
| BoxTrees.TreeHeader | components/squeezelite/alac.c:98-314 | what is remembered of such a file is what its boxes say, in preorder |
| BoxTrees.TreeSane | components/squeezelite/alac.c:98-109 | such a file and its media data are boxes of at least eight bytes wherever the reader looks |
| BoxTrees.TreeScan | components/squeezelite/alac.c:98-248 | one call that finds such trees in one piece reads every box inside them and stops at the media data or the first chunk |
| BoxLaws.TracksCounted | components/squeezelite/alac.c:110-117 | the track number is that of the trak boxes since the last moov box |
| BoxLaws.PlayedIsLast | components/squeezelite/alac.c:110-123 | the track to play is that of the last alac box read since the last moov box |
| BoxLaws.NothingPlayed | components/squeezelite/alac.c:226-248 | without an alac box read nothing is to be played |
| BoxLaws.ChunksAreLast | components/squeezelite/alac.c:176-223 | the chunks are those of the last stco box read while the track counted was the one to play, with the stsc kept then |
| BoxLaws.ChunksStay | components/squeezelite/alac.c:176-178 | no other box touches the chunks, a stco of another track included |
| BoxLaws.RunsAreLast | components/squeezelite/alac.c:166-174 | the stsc kept is the last one read while there were no chunks |
| BoxLaws.WaitedFor | components/squeezelite/alac.c:295-310 | the boxes waited for are those named esds, stts, stsc, stsz, stco and ---- |
| BoxLaws.DataNamed | components/squeezelite/alac.c:226 | only mdat ends the header |
| AlacReader.Reader.constructor | components/squeezelite/alac.c:520-531 | a new reader is at the first box of the file |
| AlacReader.Reader.Piece | components/squeezelite/alac.c:99 | bytes before the wrap are bytes of the file from pos on |
| AlacReader.Reader.Arrive | components/squeezelite/stream.c:172-190 | bytes delivered join the FIFO in file order; behind the wrap they do not lengthen the piece before it |
| AlacReader.Reader.Advance | components/squeezelite/alac.c:417-419 | pos counts the bytes consumed |
| AlacReader.Reader.Contiguous | components/squeezelite/alac.c:380-387 | the next n bytes of the file in one piece, wrapped in the ring or not |
| AlacReader.Reader.EnterData | components/squeezelite/alac.c:226-248 | at the media data, pos plus the bytes still to skip is the first chunk's offset in the table read when that lies ahead, else the byte behind the mdat header |
| AlacReader.Reader.MakeContiguous | components/squeezelite/alac.c:306-309 | waiting for a box keeps pos and the bytes, moves the pointers where unwrapping does, and is defined exactly when that is |
| AlacReader.Reader.PassBox | components/squeezelite/alac.c:276-310 | a box is passed over, or partly consumed with the rest deferred, or waited for, at the place the model of the header says |
| AlacReader.Reader.ReadBox | components/squeezelite/alac.c:103-311 | one round of the header loop, every branch: what it leaves to do is what is left of the call, the header holds what the boxes said, and at the media data the reader is at its place |
| AlacReader.Reader.ReadHeader | components/squeezelite/alac.c:98-314 | a pass over the header terminates and ends, on every branch and with the FIFO wrapped or not, at the place, the pointers and the boxes read that the model says |
| AlacReader.Reader.HandleHeader | components/squeezelite/alac.c:325-362 | one delivery or one call before the media data is one step of that model |
| AlacReader.Reader.Skip | components/squeezelite/alac.c:325-333 | deferred bytes are dropped as they arrive; pos plus the rest is unchanged |
| AlacReader.Reader.SkipTo | components/squeezelite/alac.c:404-410 | skips now or later to the offset; what was still to skip stays to be skipped in the first case and is forgotten in the second |
| AlacReader.Reader.Decode | components/squeezelite/alac.c:364-424 | a block is decoded exactly when all its bytes are there, and is the sample's bytes when nothing is left to skip; when the stream is complete, when decoding fails, and how far from the next sample a block taken too early leaves the reader |
| AlacReader.Reader.BlockBytes | components/squeezelite/alac.c:380-389 | the bytes at pos are the sample's |
| AlacReader.Reader.NextChunk | components/squeezelite/alac.c:402-415 | crossing to the next chunk lands on its offset, or as far behind it as was still to skip, and never goes back |
| AlacReader.Reader.NextSample | components/squeezelite/alac.c:416-419 | the next sample of the chunk starts where this one ends |
| AlacReader.Reader.NextBlock | components/squeezelite/alac.c:400-422 | the position of the next sample; an empty block is an error except at the end of a chunk |
| AlacReader.Reader.Deliver | components/squeezelite/stream.c:172-190 | a delivery brings something unless the buffer is full or the file is there |
| AlacReader.Reader.Call | components/squeezelite/alac.c:316-424 | a call hands out the next sample exactly when nothing is to be skipped and all its bytes are there, and moves on when nothing more can come |
| AlacReader.Reader.Handle | components/squeezelite/alac.c:316-424 | one delivery or one call keeps the position right and hands out the next sample exactly when it is all there |
| AlacReader.Reader.Play | components/squeezelite/alac.c:316-424 | whatever arrives when, the decoder gets the samples in order, each whole, the stream is complete only when all are decoded or nothing is left; and enough rounds of deliveries and calls decode them all |
| AlacReader.Reader.Open | components/squeezelite/alac.c:98-362 | every schedule, however long and with whatever memory granted, leaves the reader where the function of the schedule says: the boxes read, the bytes read, deferred and delivered, the ring pointers and how the reading ended; the header is what the boxes read said |
| AlacReader.Reader.DataIsReading | components/squeezelite/alac.c:230-244 | the reader starts at the first sample exactly when its chunk does not start before the byte behind the mdat header |
| AlacReader.Reader.Listen | components/squeezelite/alac.c:98-424 | from the first byte on, for every schedule that lost no box, the decoder gets the samples that the tables in the file describe, all of them given enough rounds; but when the call that meets mdat still has bytes to skip and enough of them to fill a block, its first block is the wrong bytes, and the samples follow from the second on, unless the first was all of its chunk and the next chunk was there |
| AlacRuns.LostBox | components/squeezelite/alac.c:134-294 | from a new reader: with a sizes box of twenty bytes and a call that finds n of them, the sizes are lost when n is 20 and read when it is more |
| AlacRuns.LostAtWrap | components/squeezelite/alac.c:134-294 | from a new reader: a sizes box that ends at the wrap is lost though the calls find 63 and 72 bytes delivered and it ends at 64 |
| AlacRuns.LostBehindWrap | components/squeezelite/alac.c:134-310 | ... as it is under every schedule and with whatever memory |
| AlacRuns.Stalled | components/squeezelite/alac.c:99-103 | from a new reader: a box ending four bytes before the wrap leaves it there whatever arrives and whatever memory is granted |
| AlacRuns.NeverThere | components/squeezelite/alac.c:301-310 | from a new reader: in front of a table as long as the buffer it never moves |
| AlacRuns.WrongBlock | components/squeezelite/alac.c:226-389 | from a new reader: the call that meets mdat gives the decoder bytes from in front of the sample |
| AlacRuns.WrongSizes | components/squeezelite/alac.c:134-378 | from a new reader: another track behind the one played makes the decoder get eight bytes for its sample of four |
| AlacRuns.HeaderSays | components/squeezelite/alac.c:110-223 | the five boxes of that file give one chunk with one sample |
| AlacRuns.BothSay | components/squeezelite/alac.c:110-223 | the seven boxes of the file with two tracks give the sizes of the track that is not played |
| AlacPlays.SongSays | components/squeezelite/alac.c:110-287 | the ten boxes of an ordinary file, the tables inside moov, trak, mdia, minf and stbl and the alac entry inside stsd, give its three sizes, two chunks and one track |
| AlacPlays.SongFile | components/squeezelite/alac.c:98-248 | the first call from a new reader visits all ten and stops at the first chunk |
| AlacPlays.SongLaid | components/squeezelite/alac.c:380-419 | its samples are bytes 196 to 198, 199 to 203 and 206 to 209 of the file |
| AlacPlays.BeatsCount | components/squeezelite/alac.c:316-424 | a byte and a call, m times, are m rounds |
| AlacPlays.PlaySong | components/squeezelite/alac.c:98-424 | from a new reader and that file the decoder is given exactly the three samples, gap between the chunks left out |
| Panel.WriteConcat | components/display/ST77xx.c:85-99 | one transfer or several make no difference to the panel |
| Panel.WritePart | components/display/SSD1306.c:76-77 | bytes up to the window's edge land side by side in one row, nothing else changes |
| Panel.WriteRow | components/display/ST77xx.c:97-99 | a whole row of the window lands in its row and the pointer is at the start of the next |
| Panel.WriteRows | components/display/SSD132x.c:92-100 | whole rows back to back land in consecutive rows |
| DirtyRect.LinesExact | components/display/ST77xx.c:93 | another row is staged exactly while fewer than the row count of a block are |
| DirtyRect.PeakStep | components/display/ST77xx.c:90-96 | a transfer never exceeds the longest one, and reaches it when full or last |
| DirtyRect.PeakBound | components/display/ST77xx.c:85-96 | the longest transfer is at most a block or one row (SSD1351: a block less one byte plus a row) |
| DirtyRect.CapacityBound | components/display/ST77xx.c:228-235 | from 228 bytes a row on the staging block holds a block and any row |
| DirtyRect.CapacityNarrow | components/display/ST77xx.c:228-235 | narrower displays get nine rows |
| DirtyRect.FewRows | components/display/ST77xx.c:85-96 | nine rows or fewer never exceed nine rows of the full width |
| DirtyRect.TenRows | components/display/ST77xx.c:226-235 | ten rows of at most 204 bytes go out in one transfer |
| DirtyRect.StagingExact | components/display/ST77xx.c:226-235 | over the rectangles of a display, every transfer of ST77xx and ILI9341 fits the staging block exactly when a row takes 228 bytes or more or the display has at most nine rows |
| DirtyRect.StagingSSD1351 | components/display/SSD1351.c:81-89 | on SSD1351 every transfer fits exactly with two bytes a pixel or at most six rows |
| DirtyRect.UpdatesSSD1351 | components/display/SSD1351.c:117-163 | every update of SSD1351 with three bytes a pixel stays within the staging block exactly when the display has at most six rows: with more, 169 changed words in each of seven rows are sent as 113 by 7 pixels |
| DirtyRect.FitSends | components/display/SSD1351.c:126-163 | a block that holds the transfers of every rectangle holds those of every update |
| DirtyRect.PendingOk | components/display/SSD1351.c:119-163 | rectangles that grow from nothing stay on the display and behind the row compared |
| DirtyRect.RoundOut | components/display/ST77xx.c:146-147 | two-byte words rounded out to three-byte pixels cover the words and stay on the row |
| DirtyRect.ColourDriver.SendDirect | components/display/ST77xx.c:97-99 | the bytes sent are the rectangle's rows one behind the other |
| DirtyRect.ColourDriver.StageRow | components/display/ST77xx.c:90-96 | staging or sending a row leaves the panel-to-be the same, and never writes past the block |
| DirtyRect.ColourDriver.SendStaged | components/display/ST77xx.c:88-96 | the transfers of the staging block together are the rectangle's rows one behind the other, each exactly once; the longest transfer is the computed one |
| DirtyRect.ColourDriver.RectLands | components/display/ST77xx.c:81-99 | the rows of a rectangle written through the window aimed at it put the rectangle on the panel |
| DirtyRect.ColourDriver.SendRect | components/display/ST77xx.c:79-99 | window commands and data put the rectangle of the shadow on the panel |
| DirtyRect.ColourDriver.CopyWord | components/display/ST77xx.c:67-68 | only the compared word is copied |
| DirtyRect.ColourDriver.CompareRow | components/display/ST77xx.c:64-74 | a row is copied and the rectangle grows over every changed word, and over nothing else |
| DirtyRect.ColourDriver.AdvanceRow | components/display/ST77xx.c:64-77 | the panel shows the shadow everywhere but in the pending rectangle |
| DirtyRect.ColourDriver.Flush | components/display/ST77xx.c:79-102 | sending the rectangle, rounded out to pixels, leaves the panel showing the whole shadow |
| DirtyRect.ColourDriver.Enough16 | components/display/ST77xx.c:77 | what is pending is sent after the last row always, and after any other exactly when its words fill a block of 2048 bytes |
| DirtyRect.ColourDriver.Enough24 | components/display/ST77xx.c:144 | the same for three-byte pixels |
| DirtyRect.ColourDriver.Update16 | components/display/ST77xx.c:57-103 | panel RAM, shadow and framebuffer end equal, RAM outside the display untouched |
| DirtyRect.ColourDriver.Update24 | components/display/ST77xx.c:124-170 | the same with three bytes a pixel compared two bytes at a time, whenever the transfers of the very rectangles this update sends fit the staging block |
| SpanUpdate.SpanDriver.ScanRow | components/display/SSD1306.c:50-58 | the row is copied and the span is exactly from its first to its last changed byte |
| SpanUpdate.SpanDriver.SendSpan | components/display/SSD1306.c:61-78 | reusing a wider window and skipping the page command still sends the span, and the remembered window and row are the panel's |
| SpanUpdate.SpanDriver.Update | components/display/SSD1306.c:41-79 | panel RAM, shadow and framebuffer end equal |
| PageUpdate.PageFor | components/display/SSD132x.c:250-251 | the page is the largest of at most eight rows and one block that divides the height |
| PageUpdate.PageDriver.constructor | components/display/SSD132x.c:246-261 | the page divides the height, so no row is left out of the updates |
| PageUpdate.PageDriver.CompareRow | components/display/SSD132x.c:80-87 | a row is copied, and marked when anything in it changed |
| PageUpdate.PageDriver.SendPage | components/display/SSD132x.c:92-100 | the rows of a page reach the panel, nothing else changes |
| PageUpdate.PageDriver.Turn | components/display/SSD132x.c:78-104 | the panel shows the shadow but for the rows of a page in which something changed |
| PageUpdate.PageDriver.Update | components/display/SSD132x.c:69-105 | panel RAM, shadow and framebuffer end equal, RAM outside the display untouched |
| MonoDraw.SetBit | components/display/SSD132x.c:179 | setting a bit leaves the other seven alone |
| MonoDraw.ClearBit | components/display/SSD132x.c:179 | clearing a bit leaves the other seven alone |
| MonoDraw.FlipBit | components/display/SSD132x.c:176 | flipping a bit leaves the other seven alone |
| MonoDraw.ReversedBits | components/display/SSD132x.c:212 | the reversal table mirrors the bits of a byte |
| MonoDraw.InvertMisses | components/display/SSD132x.c:175-177 | inverting a pixel leaves it alone and inverts the one across its byte |
| MonoDraw.FastExact | components/display/SSD132x.c:183-198 | clearing by whole bytes agrees with the loop over pixels at a pixel exactly when not inverting, or outside the whole bytes, or where the pixel was off |
| MonoDraw.ThreeSteps | components/display/SSD132x.c:189-197 | pixels to a byte boundary, whole bytes and the remaining pixels make the fast form |
| MonoDraw.MonoDevice.DrawPixel | components/display/SSD132x.c:171-181 | what a pixel call does to every pixel of the display |
| MonoDraw.MonoDevice.DrawRun | components/display/SSD132x.c:191-196 | drawing columns one by one |
| MonoDraw.MonoDevice.FillBytes | components/display/SSD132x.c:193-195 | memset over whole bytes sets or clears exactly their pixels |
| MonoDraw.MonoDevice.ClearRow | components/display/SSD132x.c:189-197 | one row of the window |
| MonoDraw.MonoDevice.ClearWindow | components/display/SSD132x.c:183-198 | every pixel of the display after the fast form |
| MonoDraw.MonoDevice.DrawWindow | components/display/SSD132x.c:183-198 | every pixel after the loop that draws each pixel, which the fast form is to equal |
| MonoDraw.MonoDevice.PixelsDecide | components/display/SSD132x.c:183-198 | displays with equal pixels have equal framebuffers |
| MonoDraw.ClearBoth | components/display/SSD132x.c:183-198 | two devices with equal framebuffers, one cleared by whole bytes and one pixel by pixel, end equal exactly when not inverting or no pixel of the whole bytes was on |
| MonoDraw.SamePixels | components/display/SSD132x.c:183-198 | two displays have equal framebuffers exactly when they agree on every pixel |
| MonoDraw.MonoDevice.PutBit | components/display/SSD132x.c:213-220 | a linearised line stores one bit and leaves the other pixels alone |
| MonoDraw.MonoDevice.PutByte | components/display/SSD132x.c:211-221 | a data byte sets eight pixels downwards, highest bit first |
| MonoDraw.MonoDevice.DrawBitmapCBR | components/display/SSD132x.c:200-223 | pixel (c, 8j + k) becomes bit 7 - k of byte j of column c; all others stay |
| Dmap.ParseInternal | components/raop/dmap_parser.c:385-541 | the loop with its recursion reports what the function of the buffer says; payloads strictly shrink on recursion |
| Dmap.EmitAt | components/raop/dmap_parser.c:397-534 | one turn of the loop, with the field bounds checked |
| Dmap.EmitField | components/raop/dmap_parser.c:408-532 | the callbacks of one field |
| Dmap.ParseMessage | components/raop/dmap_parser.c:543-545 | the top-level call |
| Dmap.ParseStep | components/raop/dmap_parser.c:397-406 | the field at an offset and what it leaves to parse |
| Dmap.ParseWire | components/raop/dmap_parser.c:397-534 | a field in front of anything is parsed, then the rest |
| Dmap.RunIsAccepted | components/raop/dmap_parser.c:385-541 | a back-to-back run of acceptable fields is accepted |
| Dmap.AcceptedIsRun | components/raop/dmap_parser.c:385-541 | an accepted buffer is such a run |
| Dmap.AcceptsExactly | components/raop/dmap_parser.c:385-541 | 0 is returned exactly for back-to-back runs of fields whose dictionaries are recursively accepted |
| Dmap.ParseConcat | components/raop/dmap_parser.c:385-541 | after an accepted message the events of whatever follows are appended |
| Dmap.NestConcat | components/raop/dmap_parser.c:519-526 | open dictionaries add up over runs of events |
| Dmap.EventsNest | components/raop/dmap_parser.c:519-526 | start and end events are balanced when a buffer is accepted and never mismatched when it is not |
| Dmap.FieldNests | components/raop/dmap_parser.c:519-526 | the same for one field |
| Dmap.LeafRoundTrip | components/raop/dmap_parser.c:449-518 | each kind of leaf comes back with its value |
| Dmap.RoundTrip | components/raop/dmap_parser.c:385-541 | parsing any well-formed tree of fields reports its values in order, nested as written, items typed by their parent |
| Dmap.FieldRoundTrip | components/raop/dmap_parser.c:408-532 | the same for one field |
| Dmap.OneByteInteger | components/raop/dmap_parser.c:477-480 | a one-byte integer comes back as meant exactly when plain char is signed or it is not negative |
| DmapLaws.DecimalSpells | components/raop/dmap_parser.c:512-518 | a part of a version is reported as decimal digits that spell it, without a zero in front |
| DmapLaws.UnknownCode | components/raop/dmap_parser.c:419-447 | a field with an unknown code is parsed as a dictionary exactly when it is eight bytes or more, begins with four letters and a length below its own; else it is text when every byte can be printed, and a number or raw bytes when not |
| DmapLaws.UnknownContainer | components/raop/dmap_parser.c:419-447 | well-formed fields with a code of letters inside a container with an unknown code come back nested in it |
| DmapLaws.ItemsTyped | components/raop/dmap_parser.c:412-418 | an item is parsed with the type its listing gives its items, and as a dictionary when it gives none |
| DmapLaws.OddWidths | components/raop/dmap_parser.c:449-517 | integers of other widths than 1, 2, 4 and 8 are raw bytes; a version of fewer than four bytes is not reported |
| BigEndian.ReadWritten | components/raop/dmap_parser.c:351-379 | reading a number written big-endian gives it back, for every width |
| BigEndian.WrittenRead | components/raop/dmap_parser.c:351-379 | writing what was read gives the bytes back |
| BigEndian.MostSignificantFirst | components/raop/dmap_parser.c:351-379 | the first byte counts most, for every width |
| BigEndian.TwoAndFour | components/raop/dmap_parser.c:351-366 | two and four bytes written out |
| Base64.PosOf | components/raop/raop.c:874-881 | the index found is that of the character, -1 only outside the alphabet |
| Base64.Pos | components/raop/raop.c:874-881 | the search loop finds that index |
| Base64.PosOfChar | components/raop/raop.c:856-881 | searching undoes indexing |
| Base64Text.AlphabetIs | components/raop/raop.c:856-857 | the 64 characters are those of table 1 of RFC 4648, in its order |
| Base64.AllocationFits | components/raop/raop.c:891 | size*4/3 + 4 holds text and terminator, with no byte to spare exactly when one byte is left over |
| Base64.EncodeGroup | components/raop/raop.c:896-909 | three bytes, or what there is, become four characters |
| Base64.Encode | components/raop/raop.c:884-914 | the text EncodedIs describes and its terminator, inside the allocated block |
| Base64Text.EncodedIs | components/raop/raop.c:884-914 | for every input, the text has four characters for every three bytes or part of them, and character k is the one of that table at bits 6k to 6k+5 of the bytes, most significant first and zero behind the end, or a sign when these bits lie behind them |
| Base64.TokenDecode | components/raop/raop.c:917-936 | the loop computes the token, in unsigned arithmetic, with its marker and its errors |
| Base64.TokenSpelled | components/raop/raop.c:917-936 | four characters of which n are not signs give their value and 4 - n as marker |
| Base64.Decode | components/raop/raop.c:939-957 | into any block that holds the bytes the string stores, it stores them, whether it ends or fails; their number, or -1, is what the string says |
| Base64Text.TokenExactly | components/raop/raop.c:917-936 | four characters of the alphabet or signs are decoded exactly when at most two signs end them |
| Base64Text.DecodesExactly | components/raop/raop.c:939-957 | any text of such characters is decoded exactly when it is a number of whole tokens of that form |
| Base64Text.ForeignEnds | components/raop/raop.c:945 | where a token would start with any other character decoding ends without an error |
| Base64Text.ForeignAccepted | components/raop/raop.c:917-936 | inside a token such a character is not noticed: "A*AA" gives a byte of ones |
| Base64.FirstToken | components/raop/raop.c:939-957 | the first token of an encoding gives back the bytes it was made of |
| Base64.DecodesThen | components/raop/raop.c:939-957 | decoding an encoding gives the bytes and carries on with what follows |
| Base64.StoresBound | components/raop/raop.c:939-957 | never more than three bytes a token are stored |
| Base64.StoresThen | components/raop/raop.c:939-957 | decoding an encoding stores its bytes in front of what follows |
| Base64.RoundTrip | components/raop/raop.c:884-957 | decoding an encoding returns the bytes and their number, for every input |
| Base64.Pad | components/raop/raop.c:860-871 | strlen % 4 signs are appended |
| Base64.StripInPlace | components/raop/raop.c:459-460 | trailing signs become terminators, the first character never |
| Base64.StrippedEncoding | components/raop/raop.c:459-460 | stripping an encoding drops exactly its signs |
| Base64.PaddedRoundTrip | components/raop/raop.c:459-957 | strip, pad and decode returns the bytes exactly when their number is not 2 modulo 3, and fails otherwise |
| Base64.PaddedStores | components/raop/raop.c:437-452 | whether decoding fails or not it stores the bytes that were encoded: the caller's block of 32 holds a stripped and padded encoding exactly when those are at most 32 |
| RotaryEncoder.Encoder.constructor | components/services/rotary_encoder.c:217-258 | a new encoder is at rest at 0 |
| RotaryEncoder.Encoder.Isr | components/services/rotary_encoder.c:170-215 | one interrupt is one step of the dial; the queue keeps the last event |
| RotaryEncoder.Encoder.Follow | components/services/rotary_encoder.c:170-215 | a run of interrupts is the run of steps |
| RotaryEncoder.TracksStep | components/services/rotary_encoder.c:117-189 | a move of at most one Gray step keeps the count within a step of the shaft and the state decided by the difference |
| RotaryEncoder.FullEntry | components/services/rotary_encoder.c:135-144 | every entry of the full table that such a run reaches |
| RotaryEncoder.HalfEntry | components/services/rotary_encoder.c:117-125 | every entry of the half table that such a run reaches |
| RotaryEncoder.RunTracks | components/services/rotary_encoder.c:117-189 | over every bouncing run the shaft leads the count by less than four quarter turns (full) or two (half) |
| RotaryEncoder.Resynchronises | components/services/rotary_encoder.c:117-158 | after any garbage one sample with both pins up restarts the table |
| RotaryEncoder.ExactAtRest | components/services/rotary_encoder.c:117-189 | at rest the count is exact |
| RotaryEncoder.DirectionIs | components/services/rotary_encoder.c:178-189 | the direction is that of the last change of the count, clockwise for up |
| RotaryEncoder.OneTurn | components/services/rotary_encoder.c:117-189 | from rest the pins going 01, 00, 10, 11 are one step up and clockwise, the other way round one down; with half steps each half is one |
| ConfigCache.Find | components/platform_config/platform_config.c:138 | the first member with exactly this key |
| ConfigCache.FindAnyCase | components/platform_config/platform_config.c:202 | the first member with this key in any case |
| ConfigCache.ReplaceFindsSame | components/platform_config/platform_config.c:138-202 | an update reaches the member it looked up exactly when no earlier key differs only in case |
| ConfigCache.CaseClash | components/platform_config/platform_config.c:138-202 | with two keys that differ only in case, setting the second replaces the first |
| ConfigCache.NewEntryCell | components/platform_config/platform_config.c:129-177 | reading a new entry back gives the value set, unless a string was converted for a numeric entry |
| ConfigCache.SetKeeps | components/platform_config/platform_config.c:129-225 | setting a value keeps unchanged entries equal to NVS when no other key differs only in case |
| ConfigCache.DeleteKeeps | components/platform_config/platform_config.c:566-613 | deleting keeps unchanged entries equal to NVS, whether the erase succeeds or not |
| ConfigCache.StoreKeeps | components/platform_config/platform_config.c:403-428 | storing an entry and lowering its flag keeps unchanged entries equal to NVS |
| ConfigCache.CommitKeeps | components/platform_config/platform_config.c:384-452 | a commit keeps unchanged entries equal to NVS, whatever stores fail |
| ConfigCache.CommitSettles | components/platform_config/platform_config.c:384-452 | nothing is left changed exactly when every changed entry could be stored |
| ConfigCache.SetStorable | components/platform_config/platform_config.c:129-225 | setting a value of a supported type leaves every entry storable |
| ConfigCache.Cache.constructor | components/platform_config/platform_config.c:86-104 | an empty cache agrees with any NVS |
| ConfigCache.Cache.Flag | components/platform_config/platform_config.c:240-270 | a change raised outside loading marks the entry and takes the commit bit down |
| ConfigCache.Cache.SetValue | components/platform_config/platform_config.c:129-225 | a new key is added, a different value replaces the entry and marks it, an equal one changes nothing, for every type and spelling |
| ConfigCache.Cache.SetDefault | components/platform_config/platform_config.c:536-564 | a default is added only for a key not there |
| ConfigCache.Cache.Delete | components/platform_config/platform_config.c:566-613 | the member goes, whatever NVS says |
| ConfigCache.Cache.Commit | components/platform_config/platform_config.c:384-452 | flags go down exactly where the store succeeded, NVS gets those values, and the commit bit goes up whatever failed |
| ConfigCache.Cache.Load | components/platform_config/nvs_utilities.c:98-122 | loading lists every key of NVS as unchanged and leaves the commit bit alone; every entry then equals NVS exactly when all types are supported and no two keys differ only in case |
| ConfigCache.Cache.Run | components/platform_config/platform_config.c:129-613 | any schedule of calls leaves members, NVS and commit bit as the replay of the calls does |
| ConfigCache.ReplayKeeps | components/platform_config/platform_config.c:129-613 | over any schedule of calls that spells each key one way, unchanged entries equal NVS in every state |
| ConfigCache.ReplaySettled | components/platform_config/platform_config.c:129-613 | while no store fails, a raised commit bit means nothing is left to store |
| ConfigCache.OthersReplayed | components/platform_config/platform_config.c:129-613 | calls about other keys leave what a key reads as |
| ConfigCache.LastValueStored | components/platform_config/platform_config.c:129-613 | after a commit that NVS takes, NVS holds the value last set for a key, whatever calls about other keys came between |
| ConfigCache.LoadedClean | components/platform_config/nvs_utilities.c:98-122 | a loaded entry reads as what NVS holds exactly when its type is supported |
| ConfigLaws.SetIs | components/platform_config/platform_config.c:129-225 | after setting a value the entry has that kind and value, a string set for a numeric entry being converted to its kind; when it had them before nothing changes, else it is marked and the commit bit goes down |
| ConfigLaws.DefaultIs | components/platform_config/platform_config.c:536-564 | a default changes nothing for a key that is there, and adds a marked entry with that kind and value for one that is not |
| ConfigLaws.DeleteIs | components/platform_config/platform_config.c:566-613 | no entry has the key any more, NVS loses it exactly when the erase succeeds, and every other key keeps its entry and its value in NVS |
| ConfigLaws.CommitIs | components/platform_config/platform_config.c:384-452 | each marked entry that can be read and that NVS takes is in NVS under its key and unmarked; for any other, entry and NVS stay as they were |
| ConfigLaws.NotStored | components/platform_config/platform_config.c:384-452 | keys without an entry keep what NVS holds |
| ConfigLaws.ConvertedCell | components/platform_config/platform_config.c:129-177 | reading a converted string back gives the number it spells, cast to the kind of the entry |
| ConfigLaws.Sample | components/platform_config/platform_config.c:129-613 | a run of five calls: a name set, a default for it refused, another defaulted and deleted, a commit; NVS then holds the name alone |

## Left out

- Sockets, RTSP, mDNS, RSA and AES, HTTP, OTA, FreeRTOS primitives and cJSON internals: libraries and plumbing; a section under a mutex is one step, the JSON object a sequence of members.
- `alac_to_pcm` and the RAOP ALAC decoder: functions of the bytes they are given.
- SH1106, SSD1322 and SSD1675 updates, LEDs, battery, buttons, console: easier repeats or mostly I/O.
- `_buf_resize`, mutexes and the `true_size` field of `buffer.c`.
- Unwrap: where the source would move a negative length the model stops in front of it; it says exactly when that is.
- Adjust: reads and writes of a buffer of no bytes, which is what a mod larger than the size leaves.
- ClearWindow: a right column more than one left of the first, for which the source fills a negative number of bytes.
- UnwrapAsMeant: not the code's behaviour but its comment's.
- SinkDataHandler: BYTES_PER_FRAME == 4 only; the wider frame converts samples.
- PutPacket: assumes that a packet lands at most 16384 numbers from the read end, which the code does not enforce. Log counters, the resend datagrams and the callbacks' own effects are not modelled; `now` and the clock are parameters.
- RtpContext.Run: stops at the first packet that lands further off.
- Play: what the reader makes of bytes behind the last sample, which it decodes on while the connection is up or sizes are constant.
- ReadBox, ReadHeader, Open: assume boxes of at least eight bytes (`Sane`). A failed allocation for a table is not followed; where unwrapping would move a negative length the outcome is `Undefined`, and with the write pointer left on the wrap reading stops (the source then passes the box and drains the buffer, see ParkedDrain).
- Look: a table with more entries than its box holds, a stsc out of order or a box shorter than its fixed part is remembered as `broken`, as the source reads beyond it; the decoder configuration in the alac box, stts and the "----" text are not read. Words are below 2^32, sums wrap only in `ChunkTable`: streams are below 4 GiB.
- Listen: files whose tables are missing, broken or overlap (not `Laid`), and the blocks read from beyond their samples after a chunk of one sample was taken too early.
- Gapless trimming (`skip`, `samples`, the "----" boxes' text) and the output side of `alac_decode`.
- Update16: RAM is assumed to equal the shadow at first; the 0xFF fill in `Init` and the 0xAA fill in `SetLayout` only nearly force a full refresh. Updates without SHADOW_BUFFER send everything.
- Update24: as Update16; what happens behind the end of the staging block.
- SpanDriver.Update: columns are below 256, as the source's `uint8_t` needs.
- DrawBitmapCBR: the colour argument is unused in the source too.
- FlipBit, SetBit and ClearBit: the bit-reverse table is a function of the byte, not its 256 entries.
- ParseInternal: NULL callbacks and settings, field names, the rows of the code table (a map) and overflow of `p + field_len` near the end of the address space.
- LeafEvents: a date shorter than four bytes has no value here; the source reads past the payload.
- Base64.Encode: a refused allocation.
- Isr: GPIO, queue creation and the expander path.
- SetValue: lock timeouts. Conversions between text, double and integers are parameters that keep whole numbers in range (`Faithful`).
- Commit: code that writes NVS without the cache, in `main/esp_app_main.c` and `cmd_nvs.c`, breaks the agreement by design.
