# CMB single-module acquisition: verified data path

This project models the data path of the acquisition prototype in Dafny and proves what the
components promise, one by one and composed. A frame is generated or simulated, serialised with two
CRCs, sent over a byte stream that may split it anywhere, received by an acquisition thread into a
bounded ring, written by a capture worker into segment files, read back in name order, and compared
with its source; a second, independent checker looks at the same files.

The files follow that path:

| files | component |
|---|---|
| `Bytes`, `Division`, `CrcBits`, `Crc32`, `CrcDetection` | little-endian integers; division with remainder; the shift register's single step; CRC-32 by bits and by eight-byte slices; what the CRC guarantees |
| `Frame`, `FrameMethods`, `FrameParser`, `FrameCodec`, `FrameDetection` | wire format, its imperative bodies, error classes, round trips, damage |
| `Transport` | partial sends and receives, streams of frames |
| `CaptureQueue`, `Receiver`, `ReceiverSafety`, `ReceiverTheorems`, `ReceiverOutcomes` | the ring, the two threads step by step, their invariant, what it gives, how runs end |
| `CaptureFiles`, `SegmentNames`, `CaptureSegments`, `CaptureWriter`, `CaptureReader`, `CaptureDirectory` | segment files, names, contents, writing, reading, round trip |
| `BitErrors`, `FrameCompare`, `FrameCompareTool`, `VerifyBin` | counting bits; the two checkers |
| `LossDetector`, `LatencyStats` | bookkeeping |
| `Generator`, `EndToEnd` | the source of frames; the composed results |

How the model is built:

- Code that changes things step by step is a class or a method with loops, proved equal to a
  function of its inputs or of the old state; the properties are lemmas about those functions.
  Exceptions and error returns are values.
- The receiver is a state machine. Every load or store of an atomic, every foreign call and every
  loop test is one step of one thread, and any interleaving is a run; each recv inside receive_exact
  is a step that puts any number of the next bytes of the stream into the slot being filled. A load
  of the other thread's index returns any counter between the last one seen and the current one; a
  load of a flag may still return the old value. Behind each wrapped index stands an unbounded
  counter.
- A disk answers every open, write and flush as it likes. A write that fails may have stored any
  prefix of the frame.
- Unsigned widths are subset types; wrap-around and truncation are written out. A sample part is a
  signed 32-bit number and its conversion to and from the unsigned word is explicit.
- The percentile rank uses real arithmetic, and counters of events are unbounded.

Properties one might expect that are false of the code, with the condition under which they hold:

- Exit code 0 does not mean that every published frame was written. The worker samples the ring
  before it samples `acquisition_done` (receiver/main.cpp:200 and 223), so frames published in
  between stay in the ring. After exit code 0 nothing is missing if and only if the worker's last
  call of `consumer_slot` saw the last frame published (`ReceiverTheorems.DrainedExactly`); otherwise
  exactly the frames published after that look are missing. Every such shortfall up to the capacity
  occurs, for every number of frames, and so does a complete capture
  (`ReceiverTheorems.ShortfallsOccur`). The variant that samples the ring once more always drains it
  (`ReceiverTheorems.DrainedWhenResampled`); the switch `resample` of the model is off in the program.
- Name order is writing order if and only if there are at most a million segments, because names are
  padded to six digits (`SegmentNames.NameOrderExactly`, `CaptureDirectories.WrittenReadsBack`).
- A write after a failed write is not always safe: it reopens the segment and truncates it. After
  any writes and flushes that leave the stream good the directory holds exactly the frames written
  if and only if every failure came between segments, when the next frame was to start one
  (`CaptureWriters.HoldsExactly`); a caller can see this from `frames_written` before it tries again
  (`CaptureWriters.RetryExactly`).
  `CaptureWriters.RetryLosesFrame` is a case where a frame written before is gone.

## Model

| member | source | states |
|---|---|---|
| Bytes.FromLeOfLe | common/frame.cpp:19-33 | Reading back what was written little-endian gives the value, for every value that fits the width |
| Bytes.LeOfFromLe | common/frame.cpp:19-33 | Writing what was read gives the same bytes, for every byte string |
| Bytes.PutLe | common/frame.cpp:19-24 | The buffer up to the advanced offset is what it held followed by the little-endian bytes of the value |
| Bytes.GetLe | common/frame.cpp:26-33 | The accumulated value is the number the bytes stand for, and the offset advances by the width |
| Crc32.MakeTables | common/crc32.cpp:13-28 | Entry i of table k is byte i pushed through 8(k+1) steps of the shift register |
| Crc32.ComputeCrc | common/crc32.cpp:34-50 | For every byte string of any length the slicing-by-8 loop and its tail give the bit-by-bit CRC-32 |
| Crc32.RegisterEight | common/crc32.cpp:38-45 | One round of eight table lookups equals absorbing the eight bytes bit by bit |
| Crc32.CheckValue | common/crc32.cpp:8-10 | The definition gives 0xCBF43926 for "123456789", the check value of this CRC |
| CrcDetection.BurstDetected | common/crc32.cpp:34-50 | Any nonzero change confined to 32 consecutive bits changes the CRC, for data of any length |
| Frames.HeaderOfHeaderBytes | common/frame.cpp:35-79 | Decoding an encoded header gives every field back |
| Frames.HeaderBytesOfHeaderOf | common/frame.cpp:35-79 | Encoding a decoded header gives exactly the 44 bytes back |
| Frames.PayloadRoundTrip | common/frame.cpp:81-90 | Decoding an encoded payload gives the samples back, for any number of them |
| Frames.TwosComplement | common/frame.cpp:81-90 | The conversions between signed and unsigned words keep the value modulo 2^32 |
| FrameMethods.EncodeHeader | common/frame.cpp:35-54 | The buffer filled field by field holds the header layout |
| FrameMethods.SerializeFrameInto | common/frame.cpp:106-129 | Two-pass header encoding, payload and CRC build the serialised frame with payload_len and both CRCs recomputed |
| FrameMethods.DeserializeFrameInto | common/frame.cpp:137-173 | Decodes or throws exactly as specified, in the order of the checks, for every byte string |
| FrameMethods.ValidateFrame | common/frame.cpp:175-213 | Returns the first violated rule, re-encoding the header with a zero CRC field and recomputing both CRCs |
| FrameParser.ParseFrameInto | receiver/frame_parser.cpp:17-54 | Reports success exactly on accepted byte strings, otherwise the class of the problem |
| FrameParser.PeekPayloadLen | receiver/frame_parser.cpp:71-90 | Reads the same payload_len the header decoder reads, and rejects any other header size |
| FrameCodec.DecodeOfSerialize | common/frame.cpp:106-173 | Encoding then decoding a frame of 1704 samples gives the same fields and samples, lengths and CRCs recomputed |
| FrameCodec.SerializedAccepted | common/frame.cpp:106-213 | A serialised frame is accepted if and only if it has 1704 samples and correct fixed fields |
| FrameCodec.SerializeOfDecode | common/frame.cpp:106-213 | Accepted bytes are canonical: re-serialising the decoded frame gives exactly those bytes |
| FrameCodec.AcceptedIsImage | common/frame.cpp:106-213 | The accepted byte strings are exactly the serialisations of well-formed frames |
| FrameCodec.HeaderOnWire | common/frame.cpp:35-54 | Each header field of a serialised frame, whatever its payload size, sits at its documented offset, with payload_len and the two CRCs over their regions |
| FrameCodec.SampleOnWire | common/frame.cpp:81-90 | Channel k is at offset 48 + 8k, real part before imaginary part, in two's complement |
| FrameCodec.ErrorIsRaw | receiver/frame_parser.cpp:17-54 | The parser's verdict, though it decodes and re-encodes, can be read directly off the bytes |
| FrameCodec.ProblemIsRaw | common/frame.cpp:137-213 | For every byte string the problem named is the first rule broken, read off the raw bytes with the protocol's numbers |
| FrameDetection.BurstRejected | common/frame.cpp:137-213 | Any nonzero change confined to 32 consecutive bits anywhere in an accepted frame is rejected |
| FrameDetection.BurstClass | receiver/frame_parser.cpp:17-54 | And the class reported is that of the part hit: malformed, protocol, header CRC or payload CRC |
| FrameDetection.FewBytesRejected | common/frame.cpp:137-213 | Any edit of at most four consecutive bytes, every single-bit flip among them, is rejected with the class of the field it falls in |
| FrameDetection.CodeWord | common/frame.cpp:200-210 | A stored CRC matches its data exactly when data and CRC together leave the fixed residue in the register |
| Transport.TcpSender.Send | sender/tcp_sender.cpp:125-143 | Over any partial sends all bytes go out in order, or a proper prefix and failure |
| Transport.TcpReceiver.ReceiveExact | receiver/tcp_receiver.cpp:112-130 | Over any chunks the span is filled with exactly the next bytes, or failure having taken fewer |
| Transport.TcpReceiver.ReceiveFrames | receiver/tcp_receiver.cpp:112-130 | Over any chunks, what successive receives into one buffer give is the frames sent, in order, up to the first failure, which yields none |
| CaptureQueues.FullTest | receiver/capture_queue.cpp:16-20 | The wrapped comparison reports space exactly when fewer than capacity frames lie between the counters |
| CaptureQueues.SlotDistance | receiver/capture_queue.cpp:31-50 | Equal wrapped indices mean equal counters, and size() is the distance of the counters |
| CaptureQueues.CaptureQueue.FillProducerSlot | receiver/capture_queue.cpp:22-24 | Filling the producer slot in place leaves the queue's contents unchanged |
| CaptureQueues.CaptureQueue.Publish | receiver/capture_queue.cpp:26-29 | Appends the filled slot to the queue |
| CaptureQueues.CaptureQueue.ConsumerSlot | receiver/capture_queue.cpp:31-35 | Gives the oldest frame, or nothing exactly when the queue is empty |
| CaptureQueues.CaptureQueue.Release | receiver/capture_queue.cpp:37-40 | Removes the oldest frame and nothing else |
| CaptureQueues.CaptureQueue.Size | receiver/capture_queue.cpp:46-50 | The number of frames in the queue, at most the capacity |
| ReceiverSafety.RunInv | receiver/main.cpp:196-341 | The invariant of both threads holds in every state of every interleaving |
| ReceiverSafety.ChunkTaken | receiver/tcp_receiver.cpp:117-128 | However recv cuts the stream, the front of the slot is the next bytes of the stream and the last chunk completes the next frame |
| ReceiverTheorems.SlotsApart | receiver/capture_queue.cpp:16-40 | The slot being filled is never the slot being read, and each access follows the store it depends on |
| ReceiverTheorems.PublishedSlotStable | receiver/capture_queue.cpp:16-40 | No step changes a published slot before its release |
| ReceiverTheorems.Conservation | receiver/main.cpp:196-236 | In every reachable state published frames are written frames, at most one failed frame, then the ring's slots; the capture is a prefix |
| ReceiverTheorems.OnlyCleanFrames | receiver/main.cpp:289-324 | Published frames are the stream's frames in order, each accepted with the required rate and module, each observed once |
| ReceiverTheorems.MeasuredDepth | receiver/main.cpp:323-327 | The measured depth is the published count less the viewed released count, between 0 and the capacity |
| ReceiverTheorems.HighWater | receiver/main.cpp:323-327 | The high-water mark is the largest depth measured and never exceeds the capacity |
| ReceiverTheorems.ExitCode | receiver/main.cpp:336-368 | Exit code 0 means exactly that all expected frames were published and the writer did not fail; 6 never happens |
| ReceiverTheorems.ExitReasons | receiver/main.cpp:248-343 | What codes 3, 4, 5, 7 and 9 each say about the stream, the frame after the last published one, the writer and the ring |
| ReceiverTheorems.Shortfall | receiver/main.cpp:196-236 | After exit code 0 the capture is a prefix of what was published and the ring holds the rest |
| ReceiverTheorems.DrainedExactly | receiver/main.cpp:196-236 | After exit code 0 nothing is missing if and only if the worker's last poll saw the last frame; otherwise exactly the frames published after it are missing |
| ReceiverTheorems.DrainedWhenResampled | receiver/main.cpp:196-236 | The variant that samples the ring again after acquisition_done always drains it |
| ReceiverTheorems.LostIsReported | receiver/main.cpp:204-211 | A frame whose write failed always shows in the exit code |
| ReceiverTheorems.ShortfallsOccur | receiver/main.cpp:200-229 | For every capacity, every clean stream and every k up to the capacity some run returns 0 with the last k frames published and not written; k = 0 included |
| ReceiverOutcomes.CodesExactly | receiver/main.cpp:196-368 | The exit code of every run from its events: 3, 9, 4 and 5 if and only if recv failed, the ring was found full, the next frame did not parse, or was not the one asked for; 7 if and only if none of these and a write or flush failed; 0 if and only if nothing of all this |
| ReceiverOutcomes.FaultsReported | receiver/main.cpp:208-227 | Once the worker has left, writer_failed is set if and only if a write or a flush failed, and then the process does not return 0 |
| ReceiverOutcomes.NothingAfterMishap | receiver/main.cpp:248-317 | After the first mishap, or after seeing writer_failed, acquisition publishes nothing more |
| ReceiverOutcomes.CleanIsRaw | receiver/main.cpp:289-316 | What acquisition asks of a frame, read off its raw bytes: it parses, and rate and module id are those asked for |
| ReceiverOutcomes.FlushedExactly | receiver/main.cpp:212-229 | From the events of every run: at most 200 successful writes are not covered by a successful flush, a periodic flush comes exactly at 200, and none is left uncovered when the worker leaves without a failure |
| ReceiverOutcomes.DepthsMeasured | receiver/main.cpp:323-327 | Every measurement of every run records the frames published less those its view says are released |
| ReceiverOutcomes.WorkerLooks | receiver/capture_queue.cpp:31-44 | consumer_slot and the predicate of the wait see a frame exactly if the view is ahead of what has been released |
| ReceiverOutcomes.EveryCuttingRuns | receiver/tcp_receiver.cpp:117-128 | However recv cuts the next frame, that is a run, and it leaves the frame in the slot |
| ReceiverOutcomes.EveryCodeOccurs | receiver/main.cpp:248-368 | Every exit code is returned by some run, after any number of frames for which it can be |
| ReceiverOutcomes.WriteFailureOccurs | receiver/main.cpp:204-211 | For every n some run returns 7 with n frames written and the next one lost |
| CaptureFiles.FramesOfConcat | common/capture_reader.cpp:42-59 | Frames laid end to end with a partial tail are cut into those frames and that tail |
| CaptureFiles.BytesAccountedFor | common/capture_reader.cpp:42-59 | For any files, readable bytes are 13684 times the frames plus the trailing bytes |
| CaptureReaders.CaptureReader.Next | common/capture_reader.cpp:26-59 | Delivers the remaining frames of all files one by one, skips unreadable files, accounts for every trailing byte |
| SegmentNames.NameInjective | common/capture_writer.cpp:12-16 | Different segments have different names |
| SegmentNames.NameShape | common/capture_writer.cpp:12-16 | `segment-`, the number in decimal with at least six digits, `.bin` |
| SegmentNames.NameOrderExactly | common/capture_writer.cpp:12-16 | Names come in segment order if and only if there are at most a million of them |
| CaptureWriters.CaptureWriter.Write | common/capture_writer.cpp:27-55 | The new state and the answer, for every answer of the disk: the file opened or truncated, extended by the frame or by a prefix, or nothing changed |
| CaptureSegments.HoldsStep | common/capture_writer.cpp:43-55 | One more frame extends the last segment or starts the next one and leaves every other file as it was |
| CaptureWriters.CaptureWriter.Flush | common/capture_writer.cpp:57-62 | A failed flush leaves the stream bad and the files as they are; with no open file it succeeds |
| CaptureWriters.HoldsExactly | common/capture_writer.cpp:27-62 | After any writes and flushes that leave the stream good, the directory holds exactly the written frames if and only if no failure came in mid-segment |
| CaptureWriters.WrittenKept | common/capture_writer.cpp:27-62 | While failures come only between segments every written frame is in its segment, also with the stream bad |
| CaptureWriters.RetryExactly | common/capture_writer.cpp:27-55 | A good write after a failed one leaves exactly the frames written if and only if the failed frame was to start a segment |
| CaptureWriters.RetryLosesFrame | common/capture_writer.cpp:28-35 | A retry in mid-segment leaves the segment with the retried frame alone |
| CaptureWriters.FlushFailureExactly | common/capture_writer.cpp:27-62 | A failed flush changes no file; the next good write leaves exactly the frames written if and only if it was to start a segment |
| CaptureWriters.FailedWrite | common/capture_writer.cpp:27-55 | A failed write changes nothing if refused or if the segment does not open, and otherwise only adds the stored prefix to its segment |
| CaptureWriters.TornTail | common/capture_writer.cpp:43-55 | A capture whose last write failed reads back as the frames written, with the stored part as trailing bytes |
| CaptureDirectories.ReadOrder | common/capture_reader.cpp:9-24 | Exactly the regular .bin files are read, in ascending name order whatever the listing order |
| CaptureDirectories.SegmentHolds | common/capture_writer.cpp:43-55 | Segment k holds its s frames from number k s on, or those left, and nothing else |
| CaptureDirectories.WrittenReadsBack | common/capture_reader.cpp:9-59 | Frames written s to a segment read back as the same sequence with nothing trailing up to 10^6 s frames; name order is writing order exactly up to that bound |
| FrameCompareTool.Side.Advance | tools/frame_check/frame_compare.cpp:71-101 | Steps to the next frame and keeps total, invalid and out-of-order counts equal to their definitions over the frames seen |
| FrameCompareTool.CompareWires | tools/frame_check/frame_compare.cpp:192-205 | Bit errors are the number of differing bit positions, `differing` is the number of differing bytes and `first` is the first of them |
| BitErrors.HammingCounts | tools/frame_check/frame_compare.cpp:195-205 | Bit errors are the number of (byte, bit) positions that differ |
| FrameCompareTool.Compare | tools/frame_check/frame_compare.cpp:159-232 | The streaming loop terminates with the counters of the merge and the verdict over both captures |
| FrameCompare.Conservation | tools/frame_check/frame_compare.cpp:174-223 | For any inputs expected frames are identical, mismatched or missing, and actual ones identical, mismatched or unexpected |
| FrameCompare.PositionalExactly | tools/frame_check/frame_compare.cpp:174-222 | Nothing is missing or unexpected if and only if sizes agree and each position has equal ids or a damaged frame; then mismatches and bit errors are the true ones |
| FrameCompare.DamageIsLocated | tools/frame_check/frame_compare.cpp:174-222 | Damaged frames, whatever their ids became, are compared with the frames they were; mismatches and bit errors are the numbers of differing frames and bits |
| FrameCompare.DamagedAndCut | tools/frame_check/frame_compare.cpp:174-222 | With damage and frames cut off or added at the end only those are missing or unexpected, and the others are compared with the frames they were |
| FrameCompare.PairedPrefix | tools/frame_check/frame_compare.cpp:174-222 | Frames that pair up position by position at the front are counted on their own, whatever follows |
| FrameCompare.MergeByHeads | tools/frame_check/frame_compare.cpp:177-188 | Heads that pair up are compared; of two valid ones with different ids the smaller one is missing or unexpected |
| FrameCompare.TotalHammingCounts | tools/frame_check/frame_compare.cpp:195-208 | The bit errors over all pairs are the differing bit positions of the two captures laid end to end |
| FrameCompare.DifferingCounts | tools/frame_check/frame_compare.cpp:207-212 | The mismatches are the number of positions where the frames differ |
| FrameCompare.InvalidCounts | tools/frame_check/frame_compare.cpp:79-93 | The invalid count is the number of frames not accepted |
| FrameCompare.OutOfOrderCounts | tools/frame_check/frame_compare.cpp:94-99 | The out-of-order count is the number of frames whose id is not above that of the frame before |
| FrameCompare.LossIsCounted | tools/frame_check/frame_compare.cpp:174-223 | On valid captures with increasing ids missing, unexpected and compared are sizes of set differences and intersection of the ids |
| FrameCompare.VerdictExactly | tools/frame_check/frame_compare.cpp:228-232 | IDENTICAL if and only if both sides are the same non-empty sequence of valid frames with increasing ids and nothing trailing |
| VerifyBin.ValidatorsAgree | tools/frame_check/verify_bin.py:34-53 | At any allowed rate the Python check passes exactly when the C++ parser accepts and the decoded rate is that rate |
| VerifyBin.Verify | tools/frame_check/verify_bin.py:55-93 | order_errors is the number of frames without the id due, bad the number not accepted at the rate; the verdict is OK exactly when there is some frame, nothing trails, every frame is accepted at the rate with ids counted from zero, and the number asked for is right |
| VerifyBin.OrderErrorsCount | tools/frame_check/verify_bin.py:80-84 | A frame is in order if its id can be read and is one more per frame than the last id that could be read, or the position if none could; order_errors counts the others |
| VerifyBin.BadFramesCount | tools/frame_check/verify_bin.py:76-79 | bad counts the frames not accepted at the rate |
| VerifyBin.FindingsAgree | tools/frame_check/verify_bin.py:34-53 | The kinds of problem agree with the classes of the C++ parser |
| VerifyBin.VerdictMeaning | tools/frame_check/verify_bin.py:65-93 | No bad frame and no order error means exactly: accepted frames at the rate with ids counted from zero |
| LossDetectors.LossDetector.Observe | receiver/loss_detector.cpp:5-31 | The stored counters are the counters of the ids observed so far |
| LossDetectors.StatsAccount | receiver/loss_detector.cpp:5-31 | Over every id stream last is the maximum, the counters balance, and the never-observed ids lie between missing less reordered and missing |
| LossDetectors.KindsCounted | receiver/loss_detector.cpp:12-27 | From the ids alone: duplicates repeat the greatest id so far, reordered ids are below it, gaps jump past the one after it, and each counter is the number of its kind |
| LossDetectors.PerfectExactly | receiver/loss_detector.cpp:5-31 | No missing, duplicate or reordered frame is reported if and only if the ids are consecutive |
| LatencyStatistics.LatencyStats.Add | common/latency_stats.cpp:8-20 | Buckets, count, total, minimum and maximum describe the samples added so far |
| LatencyStatistics.LatencyStats.PercentileOf | common/latency_stats.cpp:26-43 | The histogram scan returns the order statistic obtained by sorting, or the maximum beyond the exact range; the last return is not reached |
| LatencyStatistics.PercentileIsSample | common/latency_stats.cpp:26-43 | The percentile is one of the samples, between the least and the greatest |
| LatencyStatistics.PercentileMonotone | common/latency_stats.cpp:26-43 | The percentile is monotone in p |
| LatencyStatistics.PercentileExactly | common/latency_stats.cpp:26-43 | For any ascending arrangement of the samples: the least up to p = 0, the greatest from 1 on, in between the sample at (n - 1) p rounded to the nearest integer if below 20000, else the greatest |
| LatencyStatistics.LatencyStats.Average | common/latency_stats.cpp:22-24 | The mean rounded down, between the least and the greatest sample |
| Generator.FillFrame | sender/data_simulator.cpp:18-31 | Default header with the four given fields, every channel overwritten by the simulated sample |
| Generator.FillRandom | tools/frame_check/frame_gen.cpp:107-113 | Every sample is overwritten by the halves of the next draw, and the state advances by one draw a channel |
| Generator.DrawOnWire | tools/frame_check/frame_gen.cpp:107-113 | A random sample's eight bytes on the wire are its draw, little-endian |
| Generator.PayloadMeaning | tools/frame_check/frame_gen.cpp:105-114 | Channel k of frame id holds the counter pattern, or draw number 1704 id + k + 1 from the seed |
| Generator.FirstDraws | tools/frame_check/frame_gen.cpp:31-36 | The first three draws from state 1 |
| Generator.FirstStateUsable | tools/frame_check/frame_gen.cpp:76-78 | A nonzero seed is the first state, zero stands for one, and no draw comes from state zero |
| Generator.SampleMeaning | sender/data_simulator.cpp:12-16 | re is id + channel modulo 2^32 and im its complement |
| Generator.TimestampMeaning | tools/frame_check/frame_gen.cpp:106 | The timestamp is id / rate seconds in nanoseconds rounded down, of the wrapped product once that exceeds 64 bits |
| Generator.StateNeverZero | tools/frame_check/frame_gen.cpp:31-36 | From a nonzero seed no state of the generator is ever zero |
| Generator.Generate | tools/frame_check/frame_gen.cpp:95-125 | Succeeds if and only if the first open, every write and the flush work; then the output is the frames with ids 0 to n - 1 end to end, each the serialisation of the frame the options determine |
| Generator.GeneratedFile | tools/frame_check/frame_gen.cpp:95-125 | The output is one segment that holds the frames end to end |
| Generator.GeneratedFrame | tools/frame_check/frame_gen.cpp:105-119 | Every generated frame is accepted and carries its id, module, rate, timestamp and payload |
| EndToEnd.DataPath | tools/frame_check/frame_gen.cpp:105-119 | From generated frames over any chunks through any receiver run that returns 0 to both checkers: IDENTICAL and OK exactly when the worker's last poll saw the last frame, else the missing count is what was published after it |
| EndToEnd.EveryOutcomeOccurs | receiver/main.cpp:196-236 | For every generated source and every k up to the capacity some run returns 0 with exactly k frames reported missing |
| EndToEnd.NoLossReported | receiver/main.cpp:317-348 | On a generated stream the loss detector reports nothing missing, duplicate or reordered, at any point of any run |
| EndToEnd.CheckerPasses | tools/frame_check/verify_bin.py:34-93 | Asked for all the frames, the independent checker passes a prefix of a generated source exactly when it is the whole source, however it is cut into files |
| EndToEnd.BurstsAreReported | tools/frame_check/frame_compare.cpp:172-232 | With any number of frames each hit by a burst, the mismatches are the hit frames, the bit errors the flipped bits, and IDENTICAL is reported only if nothing was hit |

## Left out

- FrameMethods.SerializeFrameInto: requires the payload size in bytes to fit 32 bits; beyond that the source sizes its buffer by the wrapped length and writes past it, which has no defined result.
- CaptureWriters.CaptureWriter.Write: bytes the stream accepts count as stored; buffering is not modelled, so a failed flush loses nothing that a write had stored.
- Generator.Generate: the temporary directory starts empty and is dropped once its one segment is the output; failures of removing and renaming are not modelled.
- Generator.StateNeverZero: the period of the generator is not claimed.
- Receiver.Exec: termination of `join` and delivery of wakeups are not claimed; a notification can be lost in the program, so waiting is a step that may repeat.
- ReceiverTheorems.MeasuredDepth: the compare-exchange loop is a maximum, since only acquisition writes the mark.
- LatencyStatistics.LatencyStats.PercentileOf: the rank is computed in real arithmetic, so rounding of floating point is not modelled; counters do not wrap at 2^64.
- Sockets, name lookup, accept, connect and Windows session code: foreign calls; only the byte loops are modelled.
- Opening an input path that is neither a directory nor a file, and the exit codes of the tools for unusable arguments.
- Wall-clock timing, deadline metrics, the logger, the metrics CSV and timing logs.
- Report lines, field_at, the bit-error rate text and the SHA-256 of verify_bin.py.
- The Python runners, shell wrappers and configuration files.
- The legacy T510 parser.
