# A verified model of the streaming cores of the CCSDS/ECSS blocks

The blocks cut frames out of endless sample streams, and their hard part is bookkeeping:
windows that move, counters that wrap, buffers that are filled piece by piece, and results
that must not depend on how the scheduler cuts the input into calls. This project models
those cores and proves what they keep, step by step and over whole runs.

| file | what it models |
|---|---|
| `Samples`, `FrameSyncBuffer` | the rotating sample window of the frame synchroniser and its incrementally kept correlation |
| `FrameQueue`, `FrameRuns`, `BlockSearch`, `FrameSync` | the queue of copy tasks, whole runs of one of them, the search for a marker, and the synchroniser block |
| `Constellation`, `Rotation`, `Correlator`, `MarkChain`, `AmbiguityResolver` | Gray-coded M-PSK maps, rotations on soft bits, the search for a marker, the chain of markers that is accepted, and the search/lock machine |
| `Puncturing`, `ConvEncoder`, `ConvBlock`, `ConvDecoder` | the rate 1/2 constraint length 7 encoder with puncturing, its packing of bits into bytes, and depuncturing |
| `SortFrames`, `SortRuns`, `SortAsWritten` | the frame sorter, as a ring, against a stable bucket sort, and with the eviction rule it has |
| `Interleaving`, `ReedSolomon` | symbol interleaving and the blocks around the Reed-Solomon codec |
| `RangeInterpolator`, `SnrEstimator` | the streaming range interpolator and the moment-based estimator |
| `Arithmetic`, `Words`, `Options` | remainders, words of bits, values that may be missing |

Classes stand for the classes of the source; each of their methods is proved against functions
of the whole stream (`stream`, `seen`, `consumed` and the like are ghost fields holding
everything that was ever read). Samples are exact pairs of reals, soft bits and scores exact
reals. Words of bits have the source's widths (8, 16 and 32 bits).

The main results:

- **Frame synchroniser.** After every call, whatever the calls were, the messages sent are
  exactly the frames that were asked for, that have been received completely, that no later
  window can ask for again, and that are attainable; each is sent once, and each is one
  gap-free slice of the stream with the header computed directly from the stream. Every marker
  found is the leader of its block of the stream (`FrameSync.Work`). In positions: the frames
  sent are those known beforehand and those a whole number of blocks around a marker, as far
  as they are finished (`WhatIsSent`); a marker is where its block scores best
  (`MarkerIsBest`, but for the stale last position), and a message is its stretch of the
  stream, symbol by symbol (`MessageWrittenOut`). Two synchronisers that search the same
  stream with the same scores find the same markers and send the same messages, however the calls were cut (`SameMarkers`, `CutsDoNotMatter`). A frame is
  unattainable exactly if there is no history and its marker is at the last position of a
  window. When a window is searched, its last position shows a correlation that is one
  correlation array old (`SearchSeesAllButTheLast`). No task ever copies what was not
  received, in any run, if and only if the marker has at least two symbols or, with one
  symbol, there is no history and either blocks are one symbol long, or frames are one symbol
  long and the head is a multiple of the block (`NeverTooMuchIff`). The case of no history and
  blocks of one symbol is a matter of the queue alone: the source asserts that its buffer is
  longer than the marker, so such a buffer is never built. Headers always come first, in any
  run, if and only if frames reach beyond their marker (`HeadersFirstIffBeyondMarker`).
- **Ambiguity resolver.** Every message is the slice of the rotated stream after its marker,
  frames of a lock are adjacent, frame numbers count the frames and the lost locks, each call
  terminates although losing a lock consumes nothing, and consumption keeps whole symbols
  (`Resolver.GeneralWork`). The markers accepted form a chain: a lock goes on as long as its
  checks leave confidence, and the next one begins only after it is lost by that rule
  (`LocksAreLostByTheRule`, `HitsBuyMisses`). Any position that looks like a marker, under any
  ambiguity, lies in an accepted frame, or was passed over for a marker at least as good that
  began a lock in the same stretch (`NoMarkerIsMissed`). If all searches saw as much input as
  they ask for, the messages depend on the stream alone, not on the calls
  (`CutsDoNotMatterForFullSearches`). Rotations of a symbol compose if and only if none or all
  of its soft bits are erased (`RotationsComposeIff`); removing the ambiguity a stream was
  received with restores what was sent (`StreamIsRestored`). What disagrees with the marker
  counts twice against it, and a correlation is perfect if and only if nothing does and the
  bits are strong enough (`CorrelationByDisagreement`, `PerfectIff`).
- **Convolutional coding.** Bytes sent plus pending bits are the punctured convolution of all
  bytes consumed, under any output limits (`ConvEncodeBlock.GeneralWork`); depuncturing puts
  every kept bit back into its place (`UnpuncturingRestores`). The code is determined by what it
  makes of silence and of a single input bit (`SilenceGivesTheFlags`, `OneInputBit`), and
  written out for the generators of the standard (`StandardCode`, `StandardBytes`).
- **Frame sorter.** Evicting number c+1-W on the step from c to c+1, every run publishes the
  stable sort of what arrived in time. The source evicts number c-W, whose slot already
  belongs to number c. As written, frames that arrive on time, from number W on, are published
  when the next number comes; all others are held in the ring, and lost when the window leaves
  them (`RunHoldsAsWritten`, `AsWrittenPublishes`). A run is published right if and only if all
  its numbers stay below the window, or for no number the held frames do harm: they are lost
  only where they would have been dropped as duplicates, and those of the last window follow
  nothing higher that was on time (`AsWrittenSortsIff`). Of the frames of a number the one with
  the best score, by the score in the frame, is kept (`CollectByScore`).
- **Reed-Solomon interleaving.** Any burst of 16 times the interleaving depth, anywhere in the
  codeblock, is corrected by a codec that corrects 16 symbols (`BurstIsCorrected`). What is sent
  depends on the representation (`DecodedConventionally`, `DecodedBerlekamp`,
  `InvalidSendsNothing`).

Where documentation and code differ, the model follows the code: without a score field the
sorter keeps the last duplicate if `pick_highest_score` is set and the first one otherwise
(`include/ccsds/sort_frames.h` says the opposite in its description of `score_field`, and
always the first one in its summary); the range interpolator does not reset its sample counter on a new start
time, so a restart is in phase only early on (`Interpolator.SetStartTime`), and on time only if the
counter was zero (`RestartIsOnTimeIff`).

## Model

| member | source | states |
|---|---|---|
| Samples.CorrelationIsStable | lib/frame_sync_buffer.cc:142-147 | a correlation is final once all samples under the marker have arrived |
| Samples.CorrelationByOneSample | lib/frame_sync_buffer.cc:145-147 | one sample changes exactly the correlations whose taps reach it, by its change times its tap, as complex numbers multiply |
| Samples.CorrelationOfSilence | lib/frame_sync_buffer.cc:145-147 | silence correlates to zero; with the effect of each sample this determines the correlation |
| SyncBuffer.FrameSyncBuffer.constructor | lib/frame_sync_buffer.cc:37-62 | the empty buffer stands for a stream preceded by silence |
| SyncBuffer.FrameSyncBuffer.CorrelateSlot | lib/frame_sync_buffer.cc:145-147 | one turn of the correlation loop makes one more slot the direct dot product of the stream with the marker |
| SyncBuffer.FrameSyncBuffer.ReadSignal | lib/frame_sync_buffer.cc:130-147 | takes what fits; every slot holds its stream sample, and every correlation but the newest is the direct one, for any way of reading |
| SyncBuffer.FrameSyncBuffer.CorrelationSurvivesReading | lib/frame_sync_buffer.cc:130-147 | neither computed nor stale correlations depend on samples still to come |
| SyncBuffer.RotateLeft | lib/frame_sync_buffer.cc:120-121 | the effect of std::rotate on a whole array |
| SyncBuffer.FrameSyncBuffer.Advance | lib/frame_sync_buffer.cc:112-128 | rotating both arrays by a block keeps the window and the correlation in step with the stream |
| SyncBuffer.FrameSyncBuffer.SearchSeesAllButTheLast | lib/frame_sync_buffer.cc:145 | in a full buffer every searched position but the last is current; the last one shows the correlation one array length earlier, or zero |
| SyncBuffer.FrameSyncBuffer.AvailableMeansComputed | lib/frame_sync_impl.cc:312 | the availability test admits exactly the positions whose correlation has been computed |
| FrameQueue.ProcessKeepsTaskOk | lib/frame_sync_impl.cc:301-351 | serving a task keeps copy_from = start + copied, a contiguous gap-free slice, and a header equal to the direct correlation |
| FrameQueue.TaskOkIsStable | lib/frame_sync_impl.cc:301-351 | reading on changes nothing a task holds |
| FrameQueue.ProcessSettles | lib/frame_sync_impl.cc:306-351 | a served task has taken exactly what the stream offers by now, or is of the unattainable kind and has taken nothing |
| FrameQueue.SettledStaysServed | lib/frame_sync_impl.cc:114-117 | once served from a full buffer, no task still needs anything the next rotation drops |
| FrameQueue.NothingToProcess | lib/frame_sync_impl.cc:306-312 | without history a task for the last position of a block is never served, at any fill level of any window |
| FrameQueue.EnqueueMembers | lib/frame_sync_impl.cc:270-293 | keys stay distinct, nothing is forgotten, and a marker found in the signal replaces a task derived from another one |
| FrameQueue.EnqueueKeepsInv | lib/frame_sync_impl.cc:258-295 | asking for any position later windows may ask for keeps the whole invariant |
| FrameQueue.ProcessAllKeepsInv | lib/frame_sync_impl.cc:297-359 | serving the whole queue keeps the invariant and settles every task |
| FrameQueue.SentAndKept | lib/frame_sync_impl.cc:361-372 | sending splits the queue by completeness and threshold, losing and repeating nothing |
| FrameQueue.SendableIsFinished | lib/frame_sync_impl.cc:366 | the send test is met exactly by the tasks of finished frames, and what it sends is sound |
| FrameQueue.FinishedWrittenOut | lib/frame_sync_impl.cc:361-372 | in symbols: the last symbol of the frame is in, the window is more than the earlier frames beyond its marker, and without history it is not at the end of a block |
| FrameQueue.MessageWrittenOut | lib/frame_sync_impl.cc:238-256 | the symbols of a message, each the stream symbol times the correction, from head symbols before the end of the marker on; its header numbers it by whole blocks and has the corrected correlation |
| FrameQueue.SendKeepsInv | lib/frame_sync_impl.cc:361-372 | after sending, requested keys are queued or sent, never both nor twice, and the keys sent are exactly the finished ones |
| FrameQueue.ServeAndSendKeepsInv | lib/frame_sync_impl.cc:297-373 | the same for serving and sending together, at any fill level of the buffer |
| FrameQueue.InvIsStable | lib/frame_sync_impl.cc:106-109 | the invariant survives further input |
| FrameQueue.NothingBeforeTheStream | lib/frame_sync_buffer.cc:91-93 | the position reported for an empty stream does no harm |
| FrameRuns.BufferReports | lib/frame_sync_buffer.cc:91-93 | the last position the buffer reports, from the window and the length of the stream |
| FrameRuns.ServingKeepsWithin | lib/frame_sync_impl.cc:301-351 | in the configurations named, serving never copies beyond the stream |
| FrameRuns.CopiesTooMuch | lib/frame_sync_impl.cc:311-350 | with a one-symbol marker, a run after which a task has copied a sample that was not received |
| FrameRuns.NeverTooMuchIff | lib/frame_sync_impl.cc:297-351 | no run of any task copies beyond the stream if and only if the configuration is one of those named |
| FrameRuns.QueuedTasksAreKept | lib/frame_sync_impl.cc:297-351 | over any run of reads, servings and blocks, from the moment it is queued, a task stays what the queue's invariant says |
| FrameRuns.HeadersFirstIffBeyondMarker | lib/frame_sync_impl.cc:404-408 | for any marker, no run completes a task without its header if and only if frames reach beyond their marker |
| FrameSynchroniser.FrameSync.constructor | lib/frame_sync_impl.cc:50-76 | the markers known beforehand are queued and the invariant holds |
| FrameSynchroniser.FrameSync.QueueFrameOutput | lib/frame_sync_impl.cc:258-295 | queues one position and keeps the invariant |
| BlockSearch.LeaderIsBest | lib/frame_sync_impl.cc:219-223 | from a finite first score on the update rule ends with the first of the best finite scores |
| BlockSearch.LeaderOtherwise | lib/frame_sync_impl.cc:219-223 | after any other first score it stays with the strongest correlation without a finite score until a finite score meets minus infinity, and ends with the first of the best finite ones from there on |
| BlockSearch.LeaderByScore | lib/frame_sync_impl.cc:212-223 | in scores: the first of the highest finite ones if the first position has one, and the first of the strongest correlations if none has |
| BlockSearch.SearchedIsStable | lib/frame_sync_buffer.cc:145 | what the search sees of a block does not depend on later samples |
| BlockSearch.AllFoundIsStable | lib/frame_sync_impl.cc:130-136 | markers found stay the leaders of their blocks |
| FrameSynchroniser.FrameSync.FindMaximumInBuffer | lib/frame_sync_impl.cc:199-236 | the marker is at the leading position of the block, at the ambiguity of its correlation |
| FrameSynchroniser.FrameSync.BlockOfStream | lib/frame_sync_buffer.cc:142-147 | in a full buffer the block is the stream's direct correlations but for the stale last one |
| FrameSynchroniser.FrameSync.FindFrame | lib/frame_sync_impl.cc:130-136 | the marker found leads its block of the stream |
| FrameSynchroniser.FrameSync.QueueBefore | lib/frame_sync_impl.cc:138-146 | asks for every earlier frame that does not precede the stream; fails exactly if one of them starts within the head |
| FrameSynchroniser.FrameSync.QueueAfter | lib/frame_sync_impl.cc:149-152 | asks for every later frame; which ones that are is stated by `KeysAroundAre` |
| FrameSynchroniser.NotAdmissible | lib/frame_sync_impl.cc:138-146 | one position that is too early makes the marker inadmissible |
| FrameSynchroniser.KeysAroundAre | lib/frame_sync_impl.cc:138-152 | what a marker asks for: the positions a whole number of blocks away from it, in the configured range and not before the stream, at its ambiguity, and nothing else |
| FrameSynchroniser.BlocksAskedFor | lib/frame_sync_impl.cc:138-152 | the position k blocks on is asked for if and only if k is from minus the frames before to the frames after |
| FrameSynchroniser.OriginsAround | lib/frame_sync_impl.cc:134-152 | each of them carries the sequence number and ambiguity of the marker unless it was asked for before; the marker itself replaces what was asked for before; nothing else changes |
| FrameSynchroniser.AdmissibleIff | lib/frame_sync_impl.cc:259-267 | a marker is admissible if and only if no frame asked for around it has a head that precedes the stream |
| FrameSynchroniser.AskedBeforehand | lib/frame_sync_impl.cc:66-70 | the positions known beforehand are asked for, each by the first that names it, and no others |
| FrameSynchroniser.FrameSync.ProcessBuffer | lib/frame_sync_impl.cc:130-155 | one marker per block, numbered from one, the leader of its block of the stream; succeeds exactly if it is admissible, and then everything around it is asked for |
| FrameSynchroniser.FrameSync.ServeTask | lib/frame_sync_impl.cc:302-351 | serving a task from the buffer is serving it from the stream |
| FrameSynchroniser.FrameSync.CopySymbols | lib/frame_sync_impl.cc:332-347 | the symbols copied are the slice of the stream times the correction |
| FrameSynchroniser.FrameSync.ComputeHeader | lib/frame_sync_impl.cc:238-256 | the header has the direct correlation of the marker, although it comes from the incremental array |
| FrameSynchroniser.FrameSync.ServeAll | lib/frame_sync_impl.cc:301-359 | every task is served in place |
| FrameSynchroniser.FrameSync.SendComplete | lib/frame_sync_impl.cc:364-372 | what is sent leaves the queue, in order |
| FrameSynchroniser.FrameSync.ProcessFrameQueue | lib/frame_sync_impl.cc:297-373 | the messages sent so far are exactly the finished frames |
| FrameSynchroniser.FrameSync.AdvanceKeepsQueue | lib/frame_sync_impl.cc:114-117 | no queued frame is starved by the rotation |
| FrameSynchroniser.FrameSync.ProcessBlock | lib/frame_sync_impl.cc:111-117 | searching, serving and advancing a full buffer keeps the invariant of the block, the new marker leading its block |
| FrameSynchroniser.FrameSync.Work | lib/frame_sync_impl.cc:78-128 | after any call all input is in, every marker leads its block under the score of its call, the messages are exactly the finished frames, distinct and sound; fails exactly when a marker is inadmissible |
| FrameSynchroniser.FrameSync.PublishedIsSound | lib/frame_sync_impl.cc:297-373 | every message ever sent is a slice of the stream with its header, and no key is sent twice |
| FrameSynchroniser.FrameSync.WhatIsSent | lib/frame_sync_impl.cc:130-155 | a frame is sent if and only if it was known beforehand or lies a whole number of blocks around a marker, within the configured range, and is finished, all of it in symbols |
| FrameSynchroniser.FrameSync.MarkerIsBest | lib/frame_sync_impl.cc:199-236 | marker j is in block j with number j+1; unless it is at the last position, whose correlation is stale, its ambiguity is the one detected in the direct correlation there, and if the first score is finite, no earlier position but the last scores as high and no later one higher, under the score of its call |
| FrameSynchroniser.FrameSync.WhoIsPrimary | lib/frame_sync_impl.cc:130-152 | a frame is marked as primary if and only if a marker was found at its position and ambiguity |
| FrameSynchroniser.FrameSync.OffsetFollowsLength | lib/frame_sync_impl.cc:98-121 | the window position depends on the length of the stream alone |
| FrameSynchroniser.SameMarkers | lib/frame_sync_impl.cc:78-155 | the same stream and the same scores give the same markers, however the calls were cut |
| FrameSynchroniser.KeysAsked | lib/frame_sync_impl.cc:130-155 | what is asked for in the order of the source is what is known beforehand and what lies around the markers |
| FrameSynchroniser.CutsDoNotMatter | lib/frame_sync_impl.cc:78-128 | and then the same messages, position and sequence number included |
| Puncturing.KeepConcat | lib/conv_encode27_aux.cc:130-167 | puncturing piece by piece with a carried phase is puncturing the whole |
| Puncturing.KeepPhase | lib/conv_encode27_aux.cc:164 | the phase matters modulo the pattern length only |
| Puncturing.KeepLength | lib/conv_decode27_impl.cc:42-62 | as many bits are kept as the pattern counts |
| Puncturing.KeptPerPeriod | include/ccsds/conv_puncturing27.h:19-86 | any stretch of one period keeps the same number of bits |
| Puncturing.KeptInOnePeriod | include/ccsds/conv_puncturing27.h:19-86 | the rates 1, 3/4, 2/3, 6/10 and 8/14 of the five patterns |
| Puncturing.PatternWrittenOut | include/ccsds/conv_puncturing27.h:43-81 | which bits of a period survive, for each of the five types |
| Puncturing.KeptInPeriods | lib/conv_decode27_impl.cc:42-62 | whole periods keep a multiple of what one keeps |
| Puncturing.EnoughIsKept | lib/conv_encode27_bb_impl.cc:100-102 | of any 16 coded bits every pattern keeps at least 8, so the packing loop runs |
| ConvEncoder.CodedBitsIsCausal | lib/conv_encode27_aux.cc:54-110 | later input does not change coded bits |
| ConvEncoder.SilenceGivesTheFlags | lib/conv_encode27_aux.cc:102-104 | on zeros each branch gives its inversion flag, the first branch first |
| ConvEncoder.OneInputBit | lib/conv_encode27_aux.cc:64-104 | an input bit turns over an output bit if and only if it is among the last seven and the generator has a tap there; with the flags this determines the code |
| ConvEncoder.StandardCode | python/qa_conv_decode27.py:43 | for the generators 0x79 and 0xDB the two sums written out, the second inverted |
| ConvEncoder.RegisterShifts | lib/conv_encode27_aux.cc:109 | the shift moves the register on by one input bit |
| ConvEncoder.RegisterLoads | lib/conv_encode27_aux.cc:46 | a loaded byte lies below the memory bits |
| ConvEncoder.Encoder.EncodeBit | lib/conv_encode27_aux.cc:64-103 | both outputs are those of the convolution that `SilenceGivesTheFlags` and `OneInputBit` determine, inversion flags included |
| ConvEncoder.Encoder.EncodeLoaded | lib/conv_encode27_aux.cc:54-110 | the sixteen output bits are that stretch of the convolution of the whole input |
| ConvEncoder.Encoder.Encode | lib/conv_encode27_aux.cc:36-118 | byte by byte the convolution of everything encoded so far, first branch first |
| ConvEncoder.Encoder.Puncture | lib/conv_encode27_aux.cc:120-168 | the kept bits of a byte at the carried phase, right-aligned |
| ConvEncoder.Encoder.EncodePunct | lib/conv_encode27_aux.cc:171-190 | appends to the punctured convolution of the whole input; 8 to 16 bits |
| ConvEncoder.Encoder.MemoryIsStartState | lib/conv_decode27_impl.cc:65-79 | after a stream ending in the marker the memory is the decoder's start state |
| ConvBlock.PackedByte | lib/conv_encode27_bb_impl.cc:107-114 | the shifts assemble the buffered bits followed by the oldest new ones |
| ConvBlock.ConvEncodeBlock.PackByte | lib/conv_encode27_bb_impl.cc:103-125 | sends the next eight bits of the stream and empties the buffer |
| ConvBlock.ConvEncodeBlock.KeepRest | lib/conv_encode27_bb_impl.cc:131-136 | buffers the rest, left-aligned |
| ConvBlock.ConvEncodeBlock.SendBytes | lib/conv_encode27_bb_impl.cc:100-136 | sends whole bytes while there is room; nothing is lost, 15 bits pending at most |
| ConvBlock.ConvEncodeBlock.SendBuffered | lib/conv_encode27_bb_impl.cc:67-84 | a whole pending byte goes first and at most 7 bits stay |
| ConvBlock.ConvEncodeBlock.GeneralWork | lib/conv_encode27_bb_impl.cc:54-146 | for any calls and room, bytes sent and pending bits are the code of all bytes consumed; stops only when out of room or input |
| ConvBlock.ConvEncodeBlock.SentIsTheCode | lib/conv_encode27_bb_impl.cc:54-146 | the bytes sent are a prefix of the code, short of it by at most 15 bits |
| ConvBlock.ConvEncodeBlock.StandardBytes | lib/conv_encode27_bb_impl.cc:54-146 | with the generators 0x79 and 0xDB and no puncturing, every bit of every byte sent, as a sum of input bits |
| ConvDecoder.GetNumInputsReq | lib/conv_decode27_impl.cc:42-62 | counts the kept bits of any block of the given length |
| ConvDecoder.UnpunctureAndConvert | lib/conv_decode27_impl.cc:265-296 | position i of the output is the i-th unpunctured value |
| ConvDecoder.KeptAt | lib/conv_decode27_impl.cc:288-289 | a kept bit follows all bits kept before it |
| ConvDecoder.UnpuncturingRestores | lib/conv_decode27_impl.cc:265-296 | kept soft bits come back to their places, the neutral value everywhere else |
| ConvDecoder.BlockAtPeriodIsPuncturedAlone | lib/conv_decode27_impl.cc:279-280 | a block cut at a whole number of periods may be depunctured from phase zero |
| ConvDecoder.PhaseMatters | lib/conv_decode27_impl.cc:279-280 | restarting at phase zero is right for all blocks if and only if the pattern repeats itself there |
| SortFrames.SlotByDistance | lib/sort_frames_impl.cc:88-98 | the slot by distance from the newest frame is the slot (W-1+f) mod W |
| SortFrames.Sorter.GetDuplicates | lib/sort_frames_impl.cc:88-98 | the same for the block's own index |
| SortFrames.Sorter.SendFrameOf | lib/sort_frames_impl.cc:228-238 | publishes a slot and empties it |
| SortFrames.Sorter.AdvanceStorage | lib/sort_frames_impl.cc:240-246 | frees the slot of the next number |
| SortFrames.Sorter.Advance | lib/sort_frames_impl.cc:157-164 | moves the window on to a number as the run function does |
| SortFrames.Sorter.FlushFrames | lib/sort_frames_impl.cc:248-253 | publishes the window in order |
| SortFrames.Sorter.StoreFrame | lib/sort_frames_impl.cc:114-226 | one message is one step of the run function, errors and late frames included; what a step does is stated by `StepWrittenOut` and `CollectByScore` |
| SortFrames.StepWrittenOut | lib/sort_frames_impl.cc:114-192 | malformed messages, frames without a number or a score asked for, and those a window behind change nothing; any other is in its slot at the end and the window has moved on to it; EOF is passed on |
| SortRuns.SlotsAreDistinct | lib/sort_frames_impl.cc:88-98 | numbers of one window have different slots |
| SortRuns.SlotRepeats | lib/sort_frames_impl.cc:160 | numbers a window apart share a slot |
| SortRuns.RunHolds | lib/sort_frames_impl.cc:152-217 | with the eviction of c+1-W, which is not what the source does, in every reachable state each slot holds what arrived for its number and everything below the window is published |
| SortRuns.FlushPublishes | lib/sort_frames_impl.cc:248-253 | flushing publishes the rest in order |
| SortRuns.SortsWhenTheLeavingFrameIsSent | lib/sort_frames_impl.cc:152-164 | with the eviction of c+1-W, which is not what the source does, every run ended by EOF publishes exactly the reference sort |
| SortAsWritten.SendPublishesTheNewest | lib/sort_frames_impl.cc:160 | as written, the evicted slot is that of the newest frame |
| SortAsWritten.OnTimeThenHeld | lib/sort_frames_impl.cc:152-164 | of one number the frames that are on time arrive before the held ones |
| SortAsWritten.RunHoldsAsWritten | lib/sort_frames_impl.cc:152-217 | as written, in every reachable state what was on time is published up to the newest number, and the slots hold what was not |
| SortAsWritten.FlushAsWritten | lib/sort_frames_impl.cc:248-253 | flushing publishes what the slots hold |
| SortAsWritten.AsWrittenPublishes | lib/sort_frames_impl.cc:114-253 | what every run that leaves the first window publishes, as written |
| SortAsWritten.AsWrittenSortsBelowWindow | lib/sort_frames_impl.cc:157-164 | as written, every run with all numbers below the window publishes the reference sort |
| SortAsWritten.CollectLate | lib/sort_frames_impl.cc:185-217 | late arrivals of a number change nothing exactly if they may be lost, and follow as copies exactly if duplicates are allowed or none was on time |
| SortAsWritten.AsWrittenSortsIff | lib/sort_frames_impl.cc:152-253 | as written, a run is published right if and only if its numbers stay below the window or no held frame does harm |
| SortAsWritten.AsWrittenLosesOldFrames | lib/sort_frames_impl.cc:157-164 | as written, no frame numbered below the first full window is published once a frame arrived a window ahead of it |
| SortAsWritten.AsWrittenSortsIffBelowWindow | lib/sort_frames_impl.cc:157-164 | in particular a run with frame 0 in time is published right if and only if all its numbers are below the window |
| SortAsWritten.AsWrittenLosesFrameZero | lib/sort_frames_impl.cc:157-164 | the shortest run that goes wrong: frame 0 and then frame W |
| SortAsWritten.AsWrittenLosesALateFrame | lib/sort_frames_impl.cc:157-164 | one that goes wrong without frame 0: W+1, then W, then 2W |
| SortRuns.CollectKeepsTheBest | lib/sort_frames_impl.cc:166-217 | of the arrivals of a number all are kept in order, or the first best, or the first or last; the best is always known |
| SortRuns.CollectByScore | lib/sort_frames_impl.cc:166-217 | the frame kept is the first with the highest or lowest score of those that arrived, by the score in the frame; that score is remembered; without scores it is the last or the first |
| SortRuns.WhoIsInTime | lib/sort_frames_impl.cc:143-155 | the reference takes a frame if it has a number, has a score where one is asked for, and no number so far is a window or more ahead |
| SortRuns.HighestIs | lib/sort_frames_impl.cc:157-164 | the window ends at the highest number of a frame that counts |
| SortRuns.ArrivalsAre | lib/sort_frames_impl.cc:166 | the arrivals of a number are the frames with that number, as often as they came |
| SortRuns.SortedIsInOrder | lib/sort_frames_impl.cc:152-164 | the reference is sorted by frame number |
| SortRuns.SortedKeepsAll | lib/sort_frames_impl.cc:194-205 | with duplicates the reference is a permutation of what arrived in time |
| Interleaving.InterlIndexTransposes | lib/interleaving_aux.h:7-21 | position q*k+r goes to r*depth+q: a transposition |
| Interleaving.InterlIndexIsBijective | lib/interleaving_aux.h:7-21 | the map is a bijection on the positions |
| Interleaving.ColumnsDetermine | lib/rs_decode_impl.cc:182-185 | the codewords determine the frame |
| Interleaving.BurstMeetsColumn | lib/rs_decode_impl.cc:125-128 | a burst of that many rows meets each codeword in at most as many symbols |
| Interleaving.ErrorsAreCounted | lib/rs_decode_impl.cc:149-172 | errors are the positions in which two words differ |
| ReedSolomon.Gather | lib/rs_encode_impl.cc:99-102 | the first interleaving step lays the codewords out one after the other |
| ReedSolomon.Scatter | lib/rs_decode_impl.cc:182-185 | the second step puts them back |
| ReedSolomon.StorePiece | lib/rs_decode_impl.cc:172 | replaces one codeword and no other |
| ReedSolomon.Encoder.ProcessFrame | lib/rs_encode_impl.cc:82-125 | data unchanged, and every depth-th symbol of the block is a codeword; short frames are dropped |
| ReedSolomon.CodeblockWrittenOut | lib/rs_encode_impl.cc:99-116 | symbol by symbol: the data in their places, and behind them the parity of each codeword in its column |
| ReedSolomon.DataThenParity | lib/rs_encode_impl.cc:109-116 | interleaving data and parity apart interleaves the codewords |
| ReedSolomon.Decoder.ProcessFrame | lib/rs_decode_impl.cc:99-208 | sends the corrected data, or nothing if the frame is short or one codeword is beyond correction, by the decoder of its representation as `DecodedConventionally`, `DecodedBerlekamp` and `InvalidSendsNothing` state |
| ReedSolomon.DecodedConventionally | lib/rs_decode_impl.cc:149-185 | with conventional symbols a result is sent if and only if the frame is long enough and the conventional decoder corrects every column, with its data |
| ReedSolomon.DecodedBerlekamp | lib/rs_decode_impl.cc:149-185 | the same with the Berlekamp decoder |
| ReedSolomon.InvalidSendsNothing | lib/rs_decode_impl.cc:153-160 | with any other representation nothing is ever sent |
| ReedSolomon.ScatteredErrorsAreCorrected | lib/rs_decode_impl.cc:125-185 | up to 16 symbol errors in each codeword are corrected |
| ReedSolomon.BurstIsCorrected | lib/rs_decode_impl.cc:125-185 | so is any burst of 16 times the depth |
| Constellation.ToBinary | lib/mpsk_constellation.h:30-38 | doubling the shift computes all prefix parities, at any width |
| Constellation.GrayRoundTrip | lib/mpsk_constellation.h:19-38 | the two conversions are inverse to each other |
| Constellation.IndexRoundTrip | lib/mpsk_constellation.h:19-38 | on numbers of m bits too, and they stay within m bits |
| Constellation.GrayDigits | lib/mpsk_constellation.h:19-21 | a binary digit of the Gray code is the sum, modulo two, of the digit of the index there and the next higher one |
| Constellation.MakePskMap | lib/mpsk_constellation.h:141-160 | the table of bytes, or the order is refused because a code word is not below it |
| Constellation.MakePskRevMap | lib/mpsk_constellation.h:220-239 | the same for the reverse table |
| Constellation.MakeMpskMap | lib/mpsk_constellation.h:175-208 | the standard's own table for QPSK, entry by entry, the bytes of the Gray code otherwise |
| Constellation.MakeMpskRevMap | lib/mpsk_constellation.h:254-287 | the same for the reverse table |
| Constellation.MakeMaps | lib/mpsk_constellation.h:202-287 | for every power of two both tables exist; they undo each other if and only if there are at most eight bits |
| Constellation.GrayFlipsAt | lib/mpsk_constellation.h:19-21 | below a power of two the Gray code changes one bit alone |
| Constellation.SupportedOrders | lib/mpsk_constellation.h:146-154 | the table check accepts an order if and only if it is a power of two |
| Rotation.FlippedBits | lib/mpsk_ambiguity_resolver_f_impl.cc:219-229 | a soft bit is flipped exactly if its decision differs from the rotated point |
| Rotation.RotatedSigns | lib/mpsk_ambiguity_resolver_f_impl.cc:219-229 | magnitudes never change, signs become those of the rotated point |
| Rotation.RotationsCompose | lib/mpsk_ambiguity_resolver_f_impl.cc:202-233 | removing two ambiguities is removing their sum, for soft bits other than zero |
| Rotation.ZeroRotation | lib/mpsk_ambiguity_resolver_f_impl.cc:209-213 | the shortcut for no ambiguity agrees with the general rule |
| Rotation.AmbiguityIsRemoved | lib/mpsk_ambiguity_resolver_f_impl.cc:202-233 | if the received point is that of the index sent plus an ambiguity, removing the ambiguity restores the bits sent |
| Rotation.ErasureBreaks | lib/mpsk_ambiguity_resolver_f_impl.cc:192-233 | with one soft bit erased and one not, two ambiguities whose removals do not compose |
| Rotation.RotationsComposeIff | lib/mpsk_ambiguity_resolver_f_impl.cc:192-233 | for the tables built here all rotations compose if and only if none or all soft bits are erased |
| Correlator.ConvertToChar | lib/mpsk_ambiguity_resolver_f_impl.cc:192-200 | packs the hard decisions of a symbol into a byte, the last eight of a longer one |
| Correlator.FlipMask | lib/mpsk_ambiguity_resolver_f_impl.cc:219-224 | the mask of the bits to flip |
| Correlator.ConvertSymbol | lib/mpsk_ambiguity_resolver_f_impl.cc:225-229 | one symbol is rotated and nothing else touched |
| Correlator.ConvertAmbiguity | lib/mpsk_ambiguity_resolver_f_impl.cc:202-233 | an aligned piece of input becomes that slice of the rotated stream |
| Correlator.StreamIsRestored | lib/mpsk_ambiguity_resolver_f_impl.cc:202-233 | the same of every symbol of a stream |
| Correlator.MagnitudesStay | lib/mpsk_ambiguity_resolver_f_impl.cc:225-229 | every bit of a rotated stream is that of the stream or its negative |
| Correlator.LowerMul | lib/mpsk_ambiguity_resolver_f_impl.cc:249-251 | the highest multiple not above |
| Correlator.UpperMul | lib/mpsk_ambiguity_resolver_f_impl.cc:253-255 | the lowest multiple not below |
| Correlator.LowerMulIsHighest | lib/mpsk_ambiguity_resolver_f_impl.cc:249-251 | no other multiple fits in between |
| Correlator.CheckForAsm | lib/mpsk_ambiguity_resolver_f_impl.cc:123-168 | the normalised correlation at an offset, which `CorrelationByDisagreement` and `PerfectIff` determine |
| Correlator.CorrelationByDisagreement | lib/mpsk_ambiguity_resolver_f_impl.cc:132-137 | the magnitude of the bits less twice that of the bits whose sign disagrees with the marker, divided by the magnitude or the length, whichever is larger |
| Correlator.PerfectIff | lib/mpsk_ambiguity_resolver_f_impl.cc:132-137 | it is 1 if and only if no bit disagrees with the marker and the magnitudes sum up to its length or more; it is -1 for the inverse |
| Correlator.CorrelationOfHardBits | lib/mpsk_ambiguity_resolver_f_impl.cc:132-137 | for bits of magnitude one, the length less twice the number of disagreements, divided by the length; the marker itself scores 1 |
| Correlator.MagnitudeByOneBit | lib/mpsk_ambiguity_resolver_f_impl.cc:134 | the magnitude is the sum of the absolute values: each bit adds its own |
| Correlator.MagnitudeOfSilence | lib/mpsk_ambiguity_resolver_f_impl.cc:134 | and silence has none |
| Correlator.CorrelationBounded | lib/mpsk_ambiguity_resolver_f_impl.cc:137 | it lies between -1 and 1, which justifies stopping at 1 |
| Correlator.SearchForAsm | lib/mpsk_ambiguity_resolver_f_impl.cc:169-190 | the first offset with the highest correlation, early exit included |
| MarkChain.BytesAreEnough | lib/mpsk_ambiguity_resolver_f_impl.cc:28 | frames of a byte or more are as long as a symbol |
| MarkChain.SearchedAgainIffShort | lib/mpsk_ambiguity_resolver_f_impl.cc:647-660 | a lock lost on an aligned marker is searched from before that marker again if and only if marker and frame are shorter than a symbol |
| MarkChain.HitsBuyMisses | lib/mpsk_ambiguity_resolver_f_impl.cc:638-661 | the confidence left after markers found in a row and then missed in a row, and when the lock is lost |
| MarkChain.OneMoreInLock | lib/mpsk_ambiguity_resolver_f_impl.cc:637-674 | a marker above the threshold adds one to the confidence, up to its threshold; any other takes one away, and with one or none left the lock is lost |
| MarkChain.ChainGrows | lib/mpsk_ambiguity_resolver_f_impl.cc:387-690 | one more marker that may follow extends a chain |
| MarkChain.HistoryGrows | lib/mpsk_ambiguity_resolver_f_impl.cc:582-595 | one more sound message extends a sound history |
| MarkChain.NextFrameMissesNothing | lib/mpsk_ambiguity_resolver_f_impl.cc:663-674 | accepting the marker that is due accounts for everything up to the end of its frame |
| MarkChain.NewLockMissesNothing | lib/mpsk_ambiguity_resolver_f_impl.cc:435-468 | so does a lock on the best marker of a stretch |
| MarkChain.BestPassesOver | lib/mpsk_ambiguity_resolver_f_impl.cc:412-432 | nothing before the best marker of a stretch is better |
| MarkChain.SearchLengths | lib/mpsk_ambiguity_resolver_f_impl.cc:31-32 | how much a search asks for at least and takes at most, in bits: the lowest multiples of the symbol length that hold a marker and a symbol, or a frame and two markers less a bit |
| MarkChain.PassedOverInBits | lib/mpsk_ambiguity_resolver_f_impl.cc:32 | what is passed over begins before its marker by less than a frame, its tail, a marker and a symbol, and after the frame of the lock before but for less than a symbol |
| MarkChain.BestBelowThreshold | lib/mpsk_ambiguity_resolver_f_impl.cc:434-435 | the best marker is above the threshold if and only if the stretch is not empty |
| MarkChain.SkipMissesNothing | lib/mpsk_ambiguity_resolver_f_impl.cc:502-507 | skipping an empty stretch misses nothing |
| MarkChain.BestIsUnique | lib/mpsk_ambiguity_resolver_f_impl.cc:412-432 | a stretch has one best marker |
| MarkChain.NextMarkIsUnique | lib/mpsk_ambiguity_resolver_f_impl.cc:387-690 | with full searches the next marker is determined by the stream and the markers before |
| MarkChain.ChainIsUnique | lib/mpsk_ambiguity_resolver_f_impl.cc:387-690 | and so is the whole chain |
| AmbiguityResolver.Resolver.constructor | lib/mpsk_ambiguity_resolver_f_impl.cc:19-94 | the machine starts valid |
| AmbiguityResolver.Resolver.SearchAll | lib/mpsk_ambiguity_resolver_f_impl.cc:409-432 | the best marker over all ambiguities and positions, ties by order |
| AmbiguityResolver.Resolver.PerfectIsBest | lib/mpsk_ambiguity_resolver_f_impl.cc:425-428 | stopping at a perfect match skips nothing better |
| AmbiguityResolver.Resolver.LockOn | lib/mpsk_ambiguity_resolver_f_impl.cc:435-468 | the frame starts right after the best marker of the stretch although only whole symbols are consumed |
| AmbiguityResolver.Resolver.Skip | lib/mpsk_ambiguity_resolver_f_impl.cc:502-507 | an empty stretch is skipped, but for the positions it has no room for |
| AmbiguityResolver.Resolver.SearchStep | lib/mpsk_ambiguity_resolver_f_impl.cc:389-524 | locks on the best marker of the stretch, or the stretch was empty; logs whether it was as long as may be |
| AmbiguityResolver.Resolver.ReadFrameBits | lib/mpsk_ambiguity_resolver_f_impl.cc:555-571 | the buffer is the start of the frame's slice, however it is filled |
| AmbiguityResolver.Resolver.FillProgress | lib/mpsk_ambiguity_resolver_f_impl.cc:548-573 | a fill always copies something, and consumes something unless it ends a frame |
| AmbiguityResolver.Resolver.FillStep | lib/mpsk_ambiguity_resolver_f_impl.cc:544-603 | fills, and publishes a full frame |
| AmbiguityResolver.Resolver.PublishFrame | lib/mpsk_ambiguity_resolver_f_impl.cc:579-602 | the message is the slice at the offset it names, with its number and correlation |
| AmbiguityResolver.Resolver.MessageWrittenOut | lib/mpsk_ambiguity_resolver_f_impl.cc:579-602 | message i of a run: its number is i plus the number of the lock, its bits those of the rotated stream at its offset, as many as frame and tail have |
| AmbiguityResolver.Resolver.MessageCorrelation | lib/mpsk_ambiguity_resolver_f_impl.cc:434-452 | its correlation is that of the marker on which its lock began, right before that frame, and it is above the threshold |
| AmbiguityResolver.Resolver.CheckMarker | lib/mpsk_ambiguity_resolver_f_impl.cc:608-611 | the correlation of the stream where the marker is due |
| AmbiguityResolver.Resolver.CheckStep | lib/mpsk_ambiguity_resolver_f_impl.cc:605-680 | the lock is kept or lost as the confidence rule says; a lost lock consumes nothing |
| AmbiguityResolver.Resolver.StayLocked | lib/mpsk_ambiguity_resolver_f_impl.cc:663-674 | the frame after a marker that was due continues the chain |
| AmbiguityResolver.Resolver.LoseLock | lib/mpsk_ambiguity_resolver_f_impl.cc:645-661 | the search begins again where the marker was due, but for a part of a symbol |
| AmbiguityResolver.Resolver.Turn | lib/mpsk_ambiguity_resolver_f_impl.cc:388-689 | every turn consumes input or goes down the order fill, check, search, empty fill |
| AmbiguityResolver.Resolver.GeneralWork | lib/mpsk_ambiguity_resolver_f_impl.cc:367-690 | terminates, consumes whole symbols, the markers accepted form a chain that misses nothing, and all messages are sound; stops only when the state needs more input |
| AmbiguityResolver.Resolver.NeededWrittenOut | lib/mpsk_ambiguity_resolver_f_impl.cc:239-244 | what the machine waits for, in bits: the fewest symbols that hold what its state needs |
| AmbiguityResolver.Resolver.NoMarkerIsMissed | lib/mpsk_ambiguity_resolver_f_impl.cc:387-690 | a position consumed that is above the threshold under any ambiguity lies in an accepted frame, or before the first marker of a lock that is at least as good, in the same stretch |
| AmbiguityResolver.Resolver.LocksAreLostByTheRule | lib/mpsk_ambiguity_resolver_f_impl.cc:637-661 | a lock ends only with a miss that its checks have left no confidence for |
| AmbiguityResolver.Resolver.FrameOffsetsIncrease | lib/mpsk_ambiguity_resolver_f_impl.cc:583-588 | frame offsets increase over the run, and frames overlap by less than a symbol |
| AmbiguityResolver.Resolver.FramesOfALockAreAdjacent | lib/mpsk_ambiguity_resolver_f_impl.cc:583-588 | messages of one lock start a frame, a tail and a marker apart, at the same ambiguity |
| AmbiguityResolver.CutsDoNotMatterForFullSearches | lib/mpsk_ambiguity_resolver_f_impl.cc:387-690 | resolvers whose searches saw all they ask for publish the same messages from the same stream, as far as both have come |
| RangeInterpolator.Interpolator.constructor | lib/orbit_range_interp.cc:8-18 | at most one compute interval per sample if and only if the compute rate is not above the sample rate |
| RangeInterpolator.Interpolator.SetStartTime | lib/orbit_range_interp.cc:23-37 | the first segment of the new range; in phase if and only if fewer than two compute intervals had passed |
| RangeInterpolator.RestartIsOnTimeIff | lib/orbit_range_interp.cc:29-37 | the samples after a restart are the interpolation at their own times since then, for every range, if and only if the sample counter was zero |
| RangeInterpolator.Interpolator.Update | lib/orbit_range_interp.cc:39-44 | moves on to the next segment |
| RangeInterpolator.Interpolator.Sample | lib/orbit_range_interp.cc:57-65 | a sample lies on the line of the segment that the rule selects |
| RangeInterpolator.SegmentsAreRightIffInPhase | lib/orbit_range_interp.cc:57-63 | all samples come from the segments they lie in if and only if the first one starts in phase |
| RangeInterpolator.AlwaysRightIff | lib/orbit_range_interp.cc:57-63 | all samples to come are from the right segments if and only if the first one starts in phase and there is at most one compute interval per sample |
| RangeInterpolator.InterpolationWrittenOut | lib/orbit_range_interp.cc:39-65 | between two nodes the mean of their ranges less the first range, each weighted with the distance from the other node |
| RangeInterpolator.SampleTimes | lib/orbit_range_interp.cc:13-14 | sample t lies t sample periods after the start, in minutes |
| RangeInterpolator.Interpolator.ComputeDelta | lib/orbit_range_interp.cc:52-70 | every sample is on the line of its segment; in phase and with at most one compute interval per sample it is the interpolation at its own time, and the next call is in phase again |
| RangeInterpolator.InterpolationError | lib/orbit_range_interp.cc:39-65 | for a range that changes at most at rate l the error is at most l*Tc/2 |
| SnrEstimator.MomentInequality | lib/snr_est.cc:41-58 | over any input the second moment is at least the square of the first |
| SnrEstimator.Estimator.Update | lib/snr_est.cc:41-58 | the fields are the smoothed moments of everything seen |
| SnrEstimator.MomentsByOneSample | lib/snr_est.cc:41-58 | every sample counts with its power, and the square of it, at a weight of 0.001 less by a factor of 0.999 for each later sample |
| SnrEstimator.MomentsOfEqualPowers | lib/snr_est.cc:41-58 | after n samples of power p the moments are p and p squared times 1 - 0.999^n |
| SnrEstimator.Estimator.EstimatesArePowers | lib/snr_est.cc:64-70 | the signal estimate is at most the mean power and the noise estimate not negative |
| SnrEstimator.Estimator.SignalByMoments | lib/snr_est.cc:64-66 | the square of the signal estimate is twice the squared first moment less the second, or zero where that is negative |
| SnrEstimator.Estimator.SignalOfEqualPowers | lib/snr_est.cc:64-70 | what both estimates are after n samples of equal power |

## Left out

- FrameSynchroniser.FrameSync.constructor: does not model a marker of one symbol or frames that end within their marker; where the guarantees fail then is stated by `NeverTooMuchIff` and `HeadersFirstIffBeyondMarker`.
- FrameSynchroniser.FrameSync.ComputeHeader: does not model the assertion of the SNR lookup, which with a positive head and no earlier frames stops a debug build at a marker in the last position of a window; the model completes such a frame.
- FrameSynchroniser.FrameSync.ProcessBuffer: when it fails the source throws, and nothing is promised about the block after that.
- FrameSynchroniser.CutsDoNotMatter: takes the scores as given for each position and correlation; the source's scores also depend on an SNR estimate that is updated call by call.
- Header fields: the corrected correlation is kept; the score in percent, the energy correction and the SNR fields are floating-point formulas.
- SortFrames.Sorter.constructor: does not model a window of zero, which makes the source divide by zero.
- SortRuns.SortsWhenTheLeavingFrameIsSent: is about runs ended by their only EOF; the step function also covers what comes after one.
- AmbiguityResolver.Resolver.GeneralWork: does not promise the same messages for other cuts of the input when a search sees less than it asks for, because then the best marker of a shorter stretch is taken.
- AmbiguityResolver.Resolver.constructor: requires frames of at least a symbol; with shorter ones a lost lock may lead back to the marker it began on (`SearchedAgainIffShort`), so that no progress is made.
- ConvDecoder.UnpunctureAndConvert: requires the input its caller asserts to be there.
- Flushing at the end of the stream: `stop` of the synchroniser and the end-of-file messages of the resolver and the Reed-Solomon blocks.
- GNU Radio plumbing: ports, tags, `forecast`, printing, debug files and message type checks other than the sorter's.
- Soft decisions: the synchroniser's messages are symbols with their ambiguity removed, not log-likelihood ratios.
- Rounding of floating-point numbers, and wrap-around of 32-bit and 64-bit counters and offsets.
- The Viterbi and Reed-Solomon codecs, SGP4 and the square root: functions with contracts, or parameters.
- Code rates, end states and conversion of generator polynomials in the Viterbi decoder block.
- Constellation points, which are floating-point values, and QPSK symbol decisions.
- Block prefixing, randomiser, bit packing, preambles, file sinks and sources, the PLL and DLL loops, Doppler correction and LDPC coding.
