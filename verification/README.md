# Verified model of the decoration mixer's core

The program lays images, text, videos and sounds over a main video and streams the result. This
project models the parts of it that carry state or arithmetic across many calls, and proves what
those parts are for:

- **The shared-memory queue** (`RingArith`, `RingLayout`, `RingBytes`, `ShmQueue`, `RingRuns`,
  `RingProtocol`, `RingInvariant`, `RingSafety`, `RingReach`, `RingReturns`, `RingReserve`,
  `RingGap`, `RingLate`, `RingRace`, `ConflictWindow`). A ring of `ele_count + 1` nodes with
  messages of several nodes each. It is modelled twice. `ShmQueue.Ring` is the object one process at
  a time works on: a byte array changed in place, whose methods are proved against the layout
  functions `RingLayout.Put` and `RingLayout.Get`, which in turn are proved to be runs of a plain
  FIFO. `RingProtocol` is the same code as a small-step system in which any number of writers and
  readers interleave at every access to a shared word.
- **Raw media** (`RawMedia`, `RawMediaRuns`, `RawAudioRuns`): the packet framing, the reader with
  its growing audio buffer and in-place shifts, the round trips between them for video and for audio
  reads, and what becomes of malformed and cut-off input.
- **Audio accounting** (`Pacing`, `CallPacing`, `AudioCache`, `CacheLoop`, `SafeQueue`,
  `StreamDecoder`, `Mixer`): the bytes that are queued and taken, in order, fractional bytes per
  frame within a call and over many calls, short reads, discarding video in step with audio, and the
  weighted mixer.
- **Compositing** (`Words`, `Blending`, `Compositing`): the loops that look at 128 or 64 bits at
  once, against the rule for one pixel, through the clipping, for every position and size.
- **Animations** (`GifTiming`): the time-stamp conversion and the frame that is shown.
- **Material lists** (`Mailbox`, `MaterialList`, `MainLoop`, `Drawing`, `Frames`): the one-slot
  mailbox between threads, the list that commands and deliveries change and that must be in layer
  order when it is drawn, both together over whole runs of the main loop, and what a frame then
  shows.

`Bytes` holds bytes and words as numbers, `Permutations` and `Products` a few facts about sequences
and products. Doubles are reals; conversions to `int` are written out as truncation. The clock,
input and output, and threads appear as parameters, input sequences and steps.

The concurrent theorems suppose three things, each of one kind of step only, all stated in
`RingProtocol`: when a compare-and-swap succeeds, the position it read has not come back to the same
index after a full lap (`NoLap`); the second look at a token, after a reader's conflict window has
closed, does not find a node of the current head that is reserved and still not published
(`PublishedInTime`); and the nodes a tail move takes have been cleared by the readers that released
them (`ClearedInTime`). A reader that is lapped while it copies, whose swap then fails, and a writer
that publishes between the end of the window and the second look are both among the runs.
`RingReserve` shows exactly when the third holds. `RingReach` builds runs under the three
suppositions, for what a process that runs alone achieves from any state a run has reached, also one
in which it has just lost a race; `RingReturns` says of every run what a put or a get that has ended
has done.

How long a writer has to publish is not what the second supposition may seem to say: the 50 ms are
counted from a time that is stored with the reading process and that survives a return without data,
so the window may close at once on a later packet. `ConflictWindow` says exactly when a packet gets
its own 50 ms.

## Where the code falls short

Of what its comments and headers say:

- The comment before the clearing loop says that the reserve of 10 nodes keeps a writer off nodes
  that are still being cleared, provided that `RESERVE_BLOCK_COUNT*ele_size > MAX_SQ_DATA_LENGTH`
  (3rd/shmqueue/shm_queue.c:930-934, 3rd/shmqueue/shm_queue.h:45-48). The branch that wraps checks
  no reserve, and that condition does not help: `RingGap.WrapIgnoresReserve` gives a run that meets
  it and reaches such a state, `RingLate.LateClearingSpoils` one in which a reader that relies on
  the reserve clears a word of a new packet, so that a packet nobody put is delivered, and
  `RingReserve.ClearedInTimeIff` the exact condition.
- The header says that `ele_count - RESERVE_BLOCK_COUNT` elements are usable
  (3rd/shmqueue/shm_queue.h:56-57). A message that ends exactly on the last node is treated as one
  that wraps, so the last node never holds data, and a message is sure to be accepted by an empty
  queue only up to half the ring: `RingRuns.ProgressBound`.
- videoplayer.h:86 and 148 say that a maximum length of 0 reads everything. That holds of
  `read_audio_data`; the stream reader hands out nothing for 0, and everything for a negative
  length: `StreamDecoder.AudioLength`.

Of what it is for:

- The conflict window is counted from a stored time that may be that of another packet:
  `ConflictWindow.StaleWindow`, with the exact condition in `ConflictWindow.OwnWindowIff`.
- A put gives up on an empty queue that has room for its packet, when the tail it has read is from
  before a wrap: the new tail computed from the present one lies below it, which is taken for a wrap
  (3rd/shmqueue/shm_queue.c:712-741, `old_tail` read in one access and the tail again in another).
  `RingRace.RefusedByAnEmptyQueue` gives a run; the exact condition, for a writer that runs alone
  from any step, is `RingReach.GivesUp` in `RingReach.FinishAlone`.
- A `Clear` by the decoder thread while the consumer discards leaves fewer frames than are to be
  dropped from the queue: `StreamDecoder.ClearInBetween`. `StreamDecoder.DiscardFindsThemIff` gives
  the exact condition.
- `read_rawaudio_frame` clears or resizes the buffer that the next `read_rawvideo_frame` reads a
  whole frame into: `RawMediaRuns.SwitchTakesRoom` and `RawMediaRuns.DiscardedFrameSetsRoom`.
- With a full video queue and no more audio, a call of `cache_video_data` goes on until the consumer
  takes a frame: `CacheLoop.DryAudioSpins`, with the exact condition in
  `CacheLoop.WithVideoEndsIff`.
- The comparator of the layer sorts is a 32-bit difference: layers 2147483647 and -2 come out in the
  wrong order (`MaterialList.TooFarApart`); `MaterialList.ComparatorIff` gives the exact condition.
- `cache_video_data` restarts its accounts at 0 in every call, and the decoder thread calls it again
  and again (videoplayer.cpp:2033-2034, 1825-1870). Within a call the audio never drifts, but over
  many calls the fraction each one ends on is lost. At 16 kHz mono, three calls of one frame take
  4002 bytes for 4000 at 24 frames a second, and 300 calls take 319800 for 320000 at 30:
  `CallPacing.DriftsAhead` and `CallPacing.DriftsBehind`. Full reads stay within any fixed bound if
  and only if a frame is a whole number of 16-bit samples: `CallPacing.SteadyIff`. Reads that come
  up to 64 bytes short add up as well: `CallPacing.ShortfallAddsUp`.
- A rate below two bytes a frame sooner or later asks `read_audio_data` for 0 bytes, which means
  everything: `Pacing.AsksForSomethingIff`, and at one byte a frame the second frame already does:
  `Pacing.OneByteAFrame`.
- A frame of less than 65 bytes is within the tolerance of nothing: a source without video that
  starts with an empty buffer is taken to have ended before a byte is read:
  `AudioCache.FirstReadIff`.
- An animation whose cycle takes no time makes the selection loop run forever, for example two
  frames both stamped 0: `GifTiming.StillStampsNeverEnd`. `GifTiming.ConvertedArrivesIff` gives the
  exact condition.
- The pictures at the front of the list are drawn once into the background, and their number is
  never updated. A picture added below them later is never drawn, and one of them is drawn twice:
  `Drawing.AddedBelowIsNotDrawn`. `Drawing.DrawFrame` and `Frames.EventKeepsExactIff` give the exact
  conditions.

## Model

| member | source | states |
|---|---|---|
| RingSafety.ExactlyOnceInOrder | 3rd/shmqueue/shm_queue.c:710-941 | in every interleaving of any number of writers and readers, at every moment, the deliveries are the packets of the first reservations in tail-move order, each published, complete and unmixed, so each is delivered at most once |
| RingSafety.RunKeepsInv | 3rd/shmqueue/shm_queue.c:710-941 | every state of every run satisfies the ring invariant: reservations tile the range from head to tail, published ones are in memory word for word, free nodes have no token, every local snapshot is one the code may still act on |
| RingSafety.StepKeepsInv | 3rd/shmqueue/shm_queue.c:710-941 | each of the atomic steps of both loops keeps the invariant, and a step delivers nothing or exactly the next undelivered packet |
| RingSafety.TailMove | 3rd/shmqueue/shm_queue.c:743-744 | a successful swap of the tail takes only nodes nobody owns and keeps the invariant |
| RingSafety.PublishStep | 3rd/shmqueue/shm_queue.c:762-768 | writing the start token last makes a packet visible only once all its words are stored |
| RingSafety.MarkStep | 3rd/shmqueue/shm_queue.c:746-759 | marking skipped nodes one at a time keeps the invariant for every reader in between |
| RingSafety.HeadMove | 3rd/shmqueue/shm_queue.c:917-922 | a successful swap of the head delivers the oldest packet, as it was put, whatever else runs |
| RingSafety.ClearStep | 3rd/shmqueue/shm_queue.c:935-941 | clearing one released node disturbs no packet and no writer |
| RingReserve.ClearedInTimeIff | 3rd/shmqueue/shm_queue.c:718-741 | a tail move takes no node still being cleared if and only if a condition on counts holds for each clearing reader: without a wrap, used + needed + uncleared nodes fit the ring; with one, needed + uncleared nodes lie below the head |
| RingReserve.ReserveCoversClearing | 3rd/shmqueue/shm_queue.c:718-722 | without a wrap the reserve is enough for a reader with at most 11 uncleared nodes |
| RingGap.WrapIgnoresReserve | 3rd/shmqueue/shm_queue.c:728-741 | with a wrap it is not, even when the reserve is larger than the largest message: a run under all three suppositions reaches a state where fewer than 10 nodes are uncleared and the next step of a writer takes some of them |
| RingLate.LateClearingSpoils | 3rd/shmqueue/shm_queue.c:930-941 | a run under the other two suppositions, in which every tail move spares the clearing readers or finds them at most 10 nodes behind, delivers a packet that is none of those put |
| ConflictWindow.ClosedIff | 3rd/shmqueue/shm_queue.c:854-875 | the window is found closed if and only if some conflict since the stored time was last cleared is at least 50 ms past |
| ConflictWindow.OwnWindowIff | 3rd/shmqueue/shm_queue.c:829-945 | a packet gets its full 50 ms, whenever the window is found closed, if and only if no window is open or it was this packet that opened it |
| ConflictWindow.StaleWindow | 3rd/shmqueue/shm_queue.c:857-873 | 60 ms after a conflict on one packet the first look at another finds the window closed |
| RingReach.Take | 3rd/shmqueue/shm_queue.c:825-928 | from every reached state whose oldest packet is published, a reader that starts its get, or that has lost the swap of the head to another and starts over, and that runs alone skips the marked nodes and gets that packet, whatever the other processes left unfinished |
| RingReach.GetAlone | 3rd/shmqueue/shm_queue.c:825-945 | and it clears all the nodes it released and is idle again, having changed nothing else |
| RingReach.NothingToTake | 3rd/shmqueue/shm_queue.c:829-866 | and if there is none, or the oldest packet is not published and the conflict window is still open, the same reader ends its get idle and has changed nothing |
| RingReach.PutAlone | 3rd/shmqueue/shm_queue.c:703-770 | any data of 1 byte to 32 MB: from every reached state that does not refuse the packet and has no reader still to clear its nodes, an idle writer that runs alone reserves, marks the skipped nodes if it wraps, fills and publishes, and changes nothing else |
| RingReach.TriesAgain | 3rd/shmqueue/shm_queue.c:743-744 | a writer that finds the tail moved when it swaps tries again: running alone, and with no reader still to clear the nodes it takes, it ends with its packet reserved and published if the queue accepts it, and idle with nothing changed only if it does not |
| RingReach.FinishAlone | 3rd/shmqueue/shm_queue.c:710-770 | from every reached state in which a writer has a packet in hand, at whatever step, and no reader still to clear the nodes it takes, it ends, running alone, with that packet published if and only if none of the looks still to come, nor the retry after a lost swap, finds the queue too full |
| RingReturns.PutReturnsOnlyIf | 3rd/shmqueue/shm_queue.c:710-771 | in every run a put that has returned has reserved nodes for its packet, once, and published it, or its last step was a look that found the queue too full |
| RingReturns.GetReturnsOnlyIf | 3rd/shmqueue/shm_queue.c:825-945 | in every run a get that has returned has delivered the next packet, or its last step was one that saw nothing to take: the end of the queue, an open conflict window, a buffer too small, or a head moved by another reader |
| RingRace.RefusedByAnEmptyQueue | 3rd/shmqueue/shm_queue.c:712-741 | a run reaches an empty queue that accepts a packet, with nobody else at work, from which a writer that has read the tail before a wrap gives up that packet |
| RingReserve.NoFalseCorruption | 3rd/shmqueue/shm_queue.c:829-898 | a reader whose snapshot is still the head, when packets are published in time, never takes a corruption branch or finds the queue empty after skipping |
| RingRuns.RingRefinesFifo | 3rd/shmqueue/shm_queue.c:695-946 | every sequence of calls answers as a FIFO of messages does, code by code, and ends with the same contents |
| RingRuns.Conservation | 3rd/shmqueue/shm_queue.c:695-946 | what was queued followed by what was accepted is what was delivered followed by what is still queued |
| RingRuns.BadArgumentsIff | 3rd/shmqueue/shm_queue.c:703-706 | over every sequence of calls the answer is -1 if and only if the data of a put is empty or longer than 33554432 bytes, or the buffer of a get has no byte |
| RingRuns.RefusedIff | 3rd/shmqueue/shm_queue.c:716-741 | a message of any length from 1 to 33554432 is refused if and only if the free nodes less the reserve are too few, or it would reach the last node and the nodes below the head are too few |
| RingRuns.ProgressBound | 3rd/shmqueue/shm_queue.c:716-741 | every reachable empty queue accepts a message of any such length if and only if its nodes and the reserve fit the ring and it takes at most half the ring |
| RingLayout.PutKeepsValid | 3rd/shmqueue/shm_queue.c:716-759 | a put keeps the layout invariant: at most one skipped run, at the end of the array, and whole messages around it |
| RingLayout.GetKeepsValid | 3rd/shmqueue/shm_queue.c:819-945 | a get keeps it, changes nothing unless it succeeds, and then takes exactly the oldest message |
| RingLayout.UsedNodesAreMessagesAndSkips | 3rd/shmqueue/shm_queue.c:124-151 | used nodes are the messages' nodes plus the skipped ones, tail never catches up with head, and no message touches the last node |
| ShmQueue.Ring.constructor | 3rd/shmqueue/shm_queue.c:90-122 | a zeroed segment is the empty queue |
| ShmQueue.Ring.SqPut | 3rd/shmqueue/shm_queue.c:695-790 | the byte array changes to the image of the queue with the message appended exactly when it fits; every refusal leaves every byte as it was, and the code is -1 exactly for data that is empty or longer than 33554432 bytes |
| ShmQueue.Ring.SqGet | 3rd/shmqueue/shm_queue.c:811-946 | returns the oldest payload and time, clears its and the skipped nodes' tokens, and terminates; every other outcome leaves every byte as it was |
| ShmQueue.Ring.Locate | 3rd/shmqueue/shm_queue.c:825-928 | used by one process at a time, the reading loop ends and never takes the conflict, corruption or empty-after-skipping branches |
| RawMedia.VideoEncodeThread.Write | videowriter.cpp:110-136 | queues version, type, length and data, or the bare data for type 0 |
| RawMedia.FFReader.ReadRawVideoFrame | videoplayer.cpp:801-900 | with room for a frame, one call consumes, buffers and returns exactly what the packet grammar says, for well-formed, malformed and cut-off input, and a bare frame when the pipe has no audio format |
| RawMedia.FFReader.ReadAudioBody | videoplayer.cpp:854-880 | a product switch empties the buffer, one growth by 1 MB always suffices, and a short read adds nothing |
| RawMedia.FFReader.ReadRawAudioFrame | videoplayer.cpp:923-1016 | skips video and buffers audio until the wanted length, less the tolerance, is there, and leaves the frame buffer at the size the skipped video and the product switches give it |
| RawMediaRuns.OneProductKeepsRoom | videoplayer.cpp:984-990 | audio of one product leaves the room for a frame as it was |
| RawMediaRuns.SwitchTakesRoom | videoplayer.cpp:984-990 | one packet of another product takes all of it |
| RawMediaRuns.DiscardedFrameSetsRoom | videoplayer.cpp:949-966 | video thrown away leaves room for just its own length |
| RawMedia.FFReader.TakeBuffered | videoplayer.cpp:1452-1460 | bytes handed out followed by the bytes shifted down in place are the bytes that were buffered |
| RawMedia.FFReader.ReadAudioData | videoplayer.cpp:1397-1461 | the code, the bytes handed out, the bytes kept and the input left are those of one read as ReadsLeast and ReadsKeepAudio describe it: min(wanted, buffered) bytes of the latest product, in order, reading only when the buffer is too short |
| RawAudioRuns.ReadsLeast | videoplayer.cpp:923-1016 | from packets of any products with video anywhere between them a read consumes the least number that brings the buffer within 64 bytes of what is wanted, or all, and hands out the oldest bytes; a read that is short by more has taken all the input and hands out all the rest; the code is 0 |
| RawAudioRuns.HearIsAbsorb | videoplayer.cpp:984-1011 | what audio reads buffer is what a video read would buffer of the same packets, video left out |
| RawAudioRuns.ReadsKeepAudio | videoplayer.cpp:1397-1461 | over any sequence of audio reads, for one product, the bytes handed out, joined, then what stays buffered, then the audio of the input left, are what was buffered and the audio of the whole input |
| RawAudioRuns.StreamAudio | videoplayer.cpp:923-1016 | the audio of an input of packets of one product, with video anywhere between them, is their data joined |
| RawAudioRuns.SaneIsRead | videoplayer.cpp:923-1016 | an input without a malformed header is read with code 0, also when its last packet is cut off |
| RawMediaRuns.NoAudio | videoplayer.cpp:923-1016 | for audio reads, what a malformed or cut-off packet of each kind gives: the code, the audio kept, the input left |
| RawMediaRuns.RoundTrip | videoplayer.cpp:801-893 | any audio packets of 1 byte to 1 MB followed by a frame are read back as exactly that frame and that audio, and nothing behind the frame is touched |
| RawMediaRuns.NoFrame | videoplayer.cpp:812-893 | behind any whole packets: a wrong version, kind or length is an error, missing data is the end of the input, there is no frame, and the audio collected stays unless the header names another product |
| RawMediaRuns.FramedBytes | videowriter.cpp:118-126 | the 12 bytes before the data are version 1, the kind and the length, each as four bytes with the lowest first; kind 0 has none |
| RawMediaRuns.PlainRoundTrip | videowriter.cpp:110-136 | audio framed by Write is read back as exactly the concatenated audio, behind what was buffered, and the frame |
| RawMediaRuns.PlaybackIsWhatWasWritten | videowriter.cpp:110-136 | a whole recording plays back frame by frame with the audio written before each frame |
| RawMediaRuns.LatestProduct | videoplayer.cpp:854-880 | buffered audio is what arrived since the last packet of another product, so it always belongs to the latest one |
| Pacing.NoDrift | videoplayer.cpp:2152-2161 | within one call, whatever each read returned within its tolerance, the total is at most 1 byte ahead of and 64 bytes behind the exact amount after any number of frames |
| CallPacing.DriftOverCalls | videoplayer.cpp:2033-2161 | over m calls, which each start their accounts at 0, the total is at most m bytes ahead of and 65 m bytes behind the exact amount |
| CallPacing.SteadyIff | videoplayer.cpp:2033-2161 | over every sequence of calls of any numbers of full reads the total stays within a fixed bound of the exact amount if and only if a frame is an even whole number of bytes |
| CallPacing.ShortfallAddsUp | videoplayer.cpp:1397-1461 | when each of m calls reads one frame and gets 64 bytes less than it asks for, the total ends at least 63 m bytes behind |
| CallPacing.FullCall | videoplayer.cpp:2152-2161 | a call of n full reads takes the exact amount of n frames, rounded down to a byte and up to a sample |
| CallPacing.DriftsAhead | videoplayer.cpp:2033-2161 | 16 kHz mono at 24 frames a second: three calls of one frame take more than any single call could |
| CallPacing.DriftsBehind | videoplayer.cpp:2033-2161 | at 30 frames a second 300 calls of one frame end more than 64 bytes behind |
| Pacing.AsksForSomethingIff | videoplayer.cpp:2152-2153 | within a call no frame ever asks for 0 bytes, which would mean everything, if and only if a frame lasts at least 2 bytes |
| AudioCache.Cache.CacheAudio | videoplayer.cpp:2144-2194 | for a source without video, one call terminates and fills the queue unless the input ends; for input of one product the queue, the buffer and the audio still to come are the same stream before and after it, byte for byte, and the frames queued have the lengths read; the drift bounds of that call hold however the input is cut into packets |
| AudioCache.Cache.CacheFrame | videoplayer.cpp:2174-2192 | one frame takes the oldest bytes of that stream to the end of the queue, as many as the account asks for, less the tolerance |
| AudioCache.FirstReadIff | videoplayer.cpp:2152-2192 | from an empty buffer the first frame asks the input for anything if and only if a frame lasts at least 65 bytes |
| CacheLoop.WithVideoEndsIff | videoplayer.cpp:2089-2205 | with video, and nobody taking frames, one call ends if and only if the video ends before its queue is full or there is audio enough to fill the other |
| CacheLoop.WithoutVideoEnds | videoplayer.cpp:2089-2205 | without video every call ends |
| AudioCache.Cache.Run | videoplayer.cpp:1829-1870 | over the thread's calls, with a consumer taking frames in between, the bytes the consumer took, then what is queued and buffered at the end and the audio still to come, are the audio stream in order, for input of one product; when it ends before the last call nothing is left in the buffer and, from 66 bytes a frame on, nothing in the input; the bytes read are within 1 byte a call ahead of and, before the end of the input, 65 bytes a call behind the exact amount |
| AudioCache.ShortReadIsEof | videoplayer.cpp:1397-1461 | a read is short by more than the tolerance only at the end of the input |
| Pacing.OutputPacing | decorateVideo.cpp:1513-1514 | after n frames without main audio the bytes sent are the exact amount rounded down to a byte and up to a sample, for every rate |
| Pacing.SendFrames | decorateVideo.cpp:1972-2004 | the loop's running total has that value after every frame |
| SafeQueue.Queue.Floors | safequeue.h:132-142 | drops the oldest elements until at most the given number is left and says how many |
| SafeQueue.Queue.Discard | safequeue.h:143-153 | drops exactly the given number of oldest elements |
| StreamDecoder.AudioConserved | videoplayer.cpp:2446-2468 | bytes handed out, the new leftover and the new queue are together the old leftover and the old queue, for every length |
| StreamDecoder.AudioLength | videoplayer.cpp:2446-2468 | never more than asked for, and short by more than the tolerance only when nothing is left |
| StreamDecoder.TakesLeast | videoplayer.cpp:2446-2468 | a read takes the least number of frames that comes within the tolerance of the length asked for, or all of them, leaves the others in the queue, and hands out as many bytes as asked for, or all there are |
| StreamDecoder.Decoder.ReadStreamAudio | videoplayer.cpp:2410-2471 | the method does that in place, and forgets the leftover after a reopening |
| StreamDecoder.DiscardInStep | videoplayer.cpp:2362-2374 | taking at most the audio of k frames discards at most k frames, and the two differ by at most half a frame of bytes |
| StreamDecoder.StillThere | safequeue.h:127-153 | after any pushes and clears of the decoder thread, d frames are still there if and only if nothing was cleared or at least d were pushed since; without a clear they are the same ones, in front |
| StreamDecoder.DiscardFindsThemIff | videoplayer.cpp:2360-2374 | Discard finds the frames it is asked to drop if and only if nothing was cleared since the audio was read or as many were pushed since |
| StreamDecoder.SecondLookIff | videoplayer.cpp:2358-2363 | the second look at the size is not below half the floor if and only if nothing was cleared since the first or enough was pushed since |
| StreamDecoder.NoClearIsSafe | videoplayer.cpp:2358-2374 | without a clear Discard never pops an empty queue, whatever the decoder pushes meanwhile |
| StreamDecoder.ClearInBetween | videoplayer.cpp:2358-2374 | with one clear, in either gap, four frames and the audio of two, it does |
| StreamDecoder.Decoder.CatchUp | videoplayer.cpp:2358-2386 | among the decoder thread's pushes and clears, as long as enough frames are there, at most the frames above half the floor are discarded, in step with the audio taken, from the front of the queue as it then is |
| StreamDecoder.Decoder.ReadStreamVideo | videoplayer.cpp:2347-2408 | after catching up the next frame with data is shown, otherwise the last one stays |
| StreamDecoder.NextVideoIsFirst | videoplayer.cpp:2388-2397 | the next frame is the first one with data; those before it are dropped and those behind it stay |
| Mixer.MixIsWithin | videoplayer.cpp:109-128 | for non-negative volumes every mixed sample lies between the least and the greatest of its sources and silence |
| Mixer.MixIsMean | videoplayer.cpp:109-128 | a mixed sample times the sum of the volumes is the sum of the samples times their volumes, but for a remainder below the sum of the volumes that rounds it toward zero; without volume it is 0 |
| Mixer.OneSourceMore | videoplayer.cpp:109-128 | each source adds its volume to the one sum and its sample, if it has one there, times its volume to the other |
| Mixer.OutputIsTheMean | videoplayer.cpp:92-129 | so the 16-bit store cuts nothing off |
| Mixer.OrderIndependent | videoplayer.cpp:92-129 | any reordering of the sources gives the same output |
| Mixer.ShortcutIff | videoplayer.cpp:100-107 | copying a single source is the general rule if and only if its volume is positive or it is silent; every caller passes positive volumes |
| Mixer.MergeAudio | videoplayer.cpp:92-129 | the output has exactly the length asked for and follows the rule in every sample, padding included |
| Words.WordIsItsBytes | matops.cpp:218-220 | a 128-bit load loses nothing, and masking a word masks its bytes |
| Words.AlphaTest | matops.cpp:210-225 | the masked word equals the mask if and only if all four pixels are solid, and zero if and only if all four are clear |
| Words.MaskTest128 | matops.cpp:275-290 | a mask word is all ones, or zero, if and only if each of its 16 bytes is |
| Words.MaskTest64 | matops.cpp:291-299 | the same for its halves |
| Blending.BlendBetween | matops.cpp:229-235 | a blended channel lies between destination and source, and is exactly one of them at alpha 0 and 255 |
| Blending.BlendIsRoundedDown | matops.cpp:229-235 | the blend r of d with s at alpha a satisfies 255 r <= (255 - a) d + a s < 255 r + 255 |
| Blending.RoundedDownIsOne | matops.cpp:229-235 | and no other byte does |
| Blending.CloseEvaluation | matops.cpp:229-235 | however the two float products are rounded, if their sum is off by less than 1/255 what is stored is the integer blend, or one less when the exact value is whole |
| Blending.StoredBetween | matops.cpp:304-316 | so what is stored lies between source and destination or one below both, and the thresholds of the masked rule cost at most 15 |
| Blending.MaskedIsNear | matops.cpp:304-316 | treating alpha above 240 as solid and up to 10 as clear changes a channel by at most 14 |
| Blending.MaskedRule | matops.cpp:304-316 | of the masked rule, with no other function named: above 240 the source, up to 10 the destination, in between that same inequality |
| Blending.MoreAlphaIsNearer | matops.cpp:229-235 | the blend is monotone in alpha |
| Compositing.GetOverlap | matops.cpp:30-60 | the clipped window is exactly the set of base pixels under the image, and shows the matching image pixels; there is none if and only if no pixel is covered |
| Compositing.WordBgra | matops.cpp:218-239 | four pixels at once leave what the rule leaves for each of them |
| Compositing.RowBgra | matops.cpp:216-251 | words and the pixels left over agree with the rule for every row width |
| Compositing.OverlapBgraImageBgra | matops.cpp:201-252 | every byte of the base under the image, the alpha channel included, is 1/255 of (255 - a) times its old value plus a times the image's, rounded down, with a its own pixel's alpha; every other byte is unchanged; for every position |
| Compositing.WordBgrm | matops.cpp:283-322 | sixteen pixels at once, and eight at once where mixed, leave what the rule leaves for each of them |
| Compositing.OverlapImageBgrm | matops.cpp:267-341 | every byte under the image is the image's where the mask is above 240, unchanged where it is up to 10, and in between the weighted sum rounded down, as an inequality on the byte itself; unchanged elsewhere |
| GifTiming.Telescopes | material.cpp:614-625 | after the backward conversion in place, each frame of the first cycle ends as long after the first frame's end as its stamp is after the first stamp |
| GifTiming.ConvertedGaps | material.cpp:614-625 | the first display time is the last stamp over one frame less, in milliseconds, every other one the gap to the stamp before |
| GifTiming.ArrivesIff | material.cpp:961-966 | the selection loop ends for every time if and only if the cycle takes time |
| GifTiming.ConvertedArrivesIff | material.cpp:614-625 | in terms of the decoder's n stamps: if and only if n times the last exceeds n - 1 times the first, or a single frame is stamped 0 |
| GifTiming.SingleFrame | material.cpp:614-625 | a single frame, whose display time is a division by zero, is shown for ever or, with a negative stamp, never reached |
| GifTiming.PathIndependent | material.cpp:955-968 | two players whose clocks never went back show the same frame at the same time |
| GifTiming.Animation.constructor | material.cpp:612-626 | the loop from the last stamp to the first overwrites the stamps with the display times, for any number of frames |
| GifTiming.Animation.ReadNextFrame | material.cpp:949-969 | shows the first frame that ends at or after the latest time asked for so far, whatever was asked before |
| Mailbox.DeliveredOnce | material.cpp:1258-1313 | with any number of openers every submitted list is delivered at most once, whole and as its opener opened it, in the order of the swaps, and none is overwritten |
| Mailbox.NoListIsDropped | material.cpp:1258-1293 | in every run a list that was opened waits until it is posted, however often the slot was full; only a list that could not be opened is given up |
| Mailbox.StepKeepsInv | material.cpp:1270-1276 | every step of an opener or the main loop keeps the mailbox invariant, with addresses reused after delivery |
| Mailbox.EmptyingLetsOneThrough | material.cpp:1270-1276 | a waiting opener succeeds once the slot was emptied, and is delivered next |
| MaterialList.OrderHoldsUntilMoved | decorateVideo.cpp:1341-1412 | commands keep the layer order unless they set the flag that causes a sort |
| MaterialList.CommandsKeepMains | decorateVideo.cpp:1348-1412 | no command removes, adds or changes the kind of a main material |
| MaterialList.AddEffect | decorateVideo.cpp:1350-1367 | an addition goes to the materials to open with the ids of the command, as a video or sound when it says main, and leaves the list alone |
| MaterialList.DelEffect | decorateVideo.cpp:1368-1391 | a deletion takes out the first material named, of its product or without one of any, and only that, unless it is a main one |
| MaterialList.ModEffect | decorateVideo.cpp:1393-1412 | a modification changes the layer and place of the first material named, the place scaled and cut toward zero, leaves the others alone and asks for a sort; on audio it does nothing |
| MaterialList.NoEffect | decorateVideo.cpp:1344-1412 | a bad id, a material that cannot be parsed and a command that names nothing change nothing |
| MaterialList.BatchStep | decorateVideo.cpp:1342-1412 | the commands of a batch take effect one after the other, in their order |
| MaterialList.ComparatorIff | decorateVideo.cpp:1500-1503 | the comparator orders a list by layer if and only if all differences of its layers fit 32 bits |
| MaterialList.TooFarApart | decorateVideo.cpp:1500-1503 | two layers that it puts in the wrong order |
| MaterialList.OpeningKeepsMains | material.cpp:595-612 | opening a list, which may turn images into animations and work out places and sizes, keeps its main materials |
| MaterialList.DeliveriesHaveNoMains | decorateVideo.cpp:1488-1498 | when no list was opened with a main material, no delivery of any run brings one |
| MainLoop.SameMainsInOrder | decorateVideo.cpp:1328-1504 | in every run of frames and openers, in any interleaving, the list holds exactly the main materials it started with, and is in layer order whenever a frame is drawn, as long as the differences of the layers drawn fit 32 bits |
| MainLoop.AdditionsAreSubmitted | decorateVideo.cpp:1341-1504 | in every run each batch that adds materials is given to an opener of its own, in order |
| MainLoop.DeliveryArrives | decorateVideo.cpp:1488-1504 | a delivery empties the slot and adds to the list what was in it, no more and no less |
| MainLoop.EventKeepsInv | decorateVideo.cpp:1341-1504 | a batch with its submission, a delivery with its sort, and each step of an opener keep that |
| MaterialList.Player.constructor | material.cpp:500-503 | the initial list holds all materials, in layer order if the differences of their layers fit 32 bits |
| MaterialList.Player.RunCommands | decorateVideo.cpp:1341-1412 | a batch has the effect of its commands one after the other, each on the first material it names |
| MaterialList.Player.PrepareFrame | decorateVideo.cpp:1338-1504 | before every drawing the list holds what the commands left and what was delivered, no more and no less, with the same main materials, and is in layer order if the differences of its layers fit 32 bits |
| Drawing.DrawStatic | decorateVideo.cpp:1224-1251 | the background is what shows, for every product, of the longest front of pictures |
| Drawing.StaticIff | decorateVideo.cpp:1228-1240 | drawn in advance are, at the front, materials without a product that are audio or pictures, and not pictures left to OpenGL |
| Drawing.VisibleIff | decorateVideo.cpp:1700-1707 | shown to a product are the materials that are not audio and have that product or none |
| Drawing.VisibleInOrder | decorateVideo.cpp:1700-1707 | in the order of the list, each as often as it is listed |
| Drawing.DrawFrame | decorateVideo.cpp:1700-1739 | a frame shows exactly the list if and only if the background is still what shows of the front of the list |
| Drawing.AddedBelowIsNotDrawn | decorateVideo.cpp:1224-1251 | a picture added below a picture of the background is not drawn, and that one is drawn twice |
| Frames.EventKeepsExactIff | decorateVideo.cpp:1341-1504 | an exact frame is followed by an exact frame if and only if the commands or the delivery in between leave alone what shows of the front of the list; openers never matter |
| Frames.QuietRunIsExact | decorateVideo.cpp:1341-1504 | a run whose commands name nothing at the front, and whose front is strictly below the rest whenever the list is sorted, shows every list exactly |

## Left out

- WithVideoEndsIff: reads succeed, and what a round brings does not depend on the queues.
- CatchUp: the decoder thread's steps on the audio queue, and on the video queue during the pops
  that follow.
- OpeningKeepsMains: of opening only what it may change in a material is followed, see the predicate
  OpenedAs; the pictures themselves come from foreign libraries.
- ExactlyOnceInOrder: under the three suppositions listed above; a data length of 2^31 or more read
  from a node by a reader that lost its race is not modelled.
- SqPut: ring positions are unbounded integers; the 32-bit overflow of head + ele_count beyond 2^30
  nodes is not modelled, and the swap of the tail cannot fail with one process, so its retry appears
  only in RingProtocol.
- SqGet: the payload is returned as a sequence instead of being written to the caller's buffer.
- Converted: doubles are reals, except that the division by zero for a single frame gives a time
  that is never or always over; the frame index does not wrap at 2^31.
- MergeAudio: the 32-bit overflow of a sum of products of samples and volumes.
- Blend: one integer division rounded down in place of two float products; CloseEvaluation bounds
  the difference, so with equal source and destination a channel may come out one below both.
- BlendBetween: of the integer blend, see Blend.
- BlendIsRoundedDown: of the integer blend, see Blend.
- MaskedRule: of the integer blend, see Blend.
- OverlapBgraImageBgra: with the integer blend, see Blend.
- MaskedIsNear: of the integer blend, see Blend.
- MoreAlphaIsNearer: of the integer blend, see Blend.
- GetOverlap: image and mask already have the wanted size, resizing is a foreign library's; the two
  overloads of the code are one method here, and x + width does not overflow.
- OverlapImageBgrm: with the integer blend, see Blend; without the branch for a four-channel base,
  which has a foreign library rearrange the channels into a matrix it has not allocated, and passes
  that to OverlapBgraImageBgra.
- ReadRawVideoFrame: the conversion to the display size and format, done by a foreign library.
- ReadRawAudioFrame: a negative video length throws in the code and is an error here; of the frame
  buffer only the size is followed, not the bytes of video that is thrown away.
- ReadsKeepAudio: of one product; with several the code drops what is not of the latest, and what is
  buffered then is said by HearIsAbsorb and LatestProduct.
- ReadAudioData: file and network sources, whose packets come from a foreign decoder, and the
  presentation-time adjustment, which is dead code.
- CacheAudio: the bytes of input of several products, see ReadsKeepAudio; the video half of the
  loop, the same accounts in the branch for a main source without video (videoplayer.cpp:2059-2066),
  and the reset of a stream that waited more than a second.
- ReadStreamAudio: product ids of queued frames; the code reports the id of a frame that is never
  set, and so does the model.
- DeliveredOnce: the main loop's delete of a delivered list is one step with the swap that took it
  out.
- Run: the consumer takes frames only between two calls, not during one, and the rewinding at the
  end of the input ends the run.
- SortByLayer: any order within one layer, as std::sort leaves it open, and any order at all when
  the layers do not fit; the insertion sort in the body is not the library's algorithm.
- RunCommands: the text of commands and materials, the events sent, and the effect of stream
  commands outside the list.
- The registration of reader processes, signal masks and event pipes of the queue, its segment
  attachment and locking: calls to the operating system.
- The shared-memory variants of the raw readers: the same parsing over messages instead of a pipe.
- The reader for merged and separate frames, decoder start and stop: a wait on a queue with a time
  limit, and no arithmetic beyond what Floors and Pop do.
- The growth of the buffer in the file decoder: its sizes come from a foreign resampler.
- The in-place replacements of `%20%` and of substrings: text handling that no other property rests
  on.
- DrawFrame: a picture or frame that cannot be read is skipped in the code; here every material can
  be read.
- Text, clocks, rotation, chroma key, subtitles, watermark, drawing with OpenGL, encoders: foreign
  libraries and numeric work.
