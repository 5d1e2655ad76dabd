# A verified model of hlnet's core

hlnet is a small epoll server library in C. This project models the hand-written, stateful structures the server
stands on and the incremental framing above them, and proves in Dafny what each of them promises over every input
and every run.

- **Ring buffer** (`buffer.dfy`, `buffer_runs.dfy`, `bytes.dfy`, `sliding.dfy`). A circular byte buffer in which every
  written segment stays contiguous: a segment that does not fit at the tail leaves a gap there and starts over at index
  0, or makes the buffer grow and slides the older half up to the new end. One invariant relates the six indices in
  the linear and the wrapped shape; the buffer is shown to be a FIFO of byte segments under every run of reservations,
  writes and whole-segment reads.
- **Framing** (`frames.dfy`, `receives.dfy`, `framing.dfy`, `serving.dfy`, `framing_limits.dfy`). A one-shot parser of the byte stream
  is the reference. The incremental steps of `tcp_guide` agree with it after every receive, so framing does not depend on
  chunking; encoding and parsing are inverse both ways; and the imperative `read_data`, `tcp_read` and `deal_tcp_msg`,
  running on the ring buffer, hand over exactly the frames that were sent, in order, for any schedule of receiving and
  dispatching, up to the point where the code itself goes wrong, which is stated exactly.
- **Heap and timers** (`heap.dfy`, `timers.dfy`). The indexed binary heap with its slot numbers, and one pass of
  `check_timers` with an exact account of what fires when, in which order, and what is left.
- **Coroutine scheduler** (`scheduler.dfy`). Slots, states, the shared stack and the round robin. Bodies are finite
  scripts of steps: overwrite any part of the shared stack, create a coroutine, yield.
- **Queue** (`queue.dfy`, `spsc.dfy`, `database.dfy`). The circular queue used by one thread, the same queue as a
  protocol of single memory accesses between a posting and a taking thread, and the database messages that travel on it.
- **List, pools and map** (`list.dfy`, `pools.dfy`, `hashmap.dfy`). The intrusive circular doubly linked list, the pools
  of clients and memory blocks over it, and the chained hash map with string and integer keys.

`folding.dfy` holds one always-true guard that keeps large definitions folded in proofs that do not look inside them.

## Reading the model

Sizes, indices and counters are unbounded integers, and allocation succeeds; a caller keeps growth below 32 bits. Where
the width matters it is written out: the bytes of an `int` and of a head, the 16-bit `need` and `read` (never above
65000), the 64 bits of a timer's key, which wrap, and the 16 bytes for a printed key. Heads and integers are
little-endian, as on the machines hlnet runs on. A heap starts with at least two slots, since growing one slot by half
adds none.

`recv` is a `Socket` that holds the bytes to come and a list of outcomes; the list is arbitrary, so every partial
receive, interruption and error is covered. Where an `int` function falls off its end (`proto/proto.c:69-73`) the caller
is taken to see success. The guide takes the size of a head from the four bytes at `seek_ptr` (`proto/proto.c:40-53`),
as the code does. `seek` is not moved when the reservation for a head starts over at index 0
(`common/buffer.c:77-84`). Then those bytes are not the head's: either some of them lie past the end of the buffer, or
they are old bytes of the buffer, and then the guide still does right if they happen to give the same verdict. In the
other cases the model says what the guide does and stops with the result `ASTRAY`; `astray` is a field of the model that
the code does not have.

Ghost fields carry the abstract state: the segments of a buffer, the sequence in a list or queue, the nodes of a heap,
the entries of a map, for a client the bytes received and a ledger of the frames waiting and handled, and for a schedule
everybody created, with who created it. `Drain` and `ReadAll` say what one `circle_recv` and one `tcp_read` get, from
the outcomes of `recv` alone; `Plays` says what a whole schedule of receiving and dispatching comes to, without buffer,
segments or parts. The laws about them name bytes, commands and outcomes by their values.

Properties the code does not have as written come with their exact condition, and with a failing run or the proof that
every run outside the condition fails:

- a head that was reserved for while the unread data lay in one piece with fewer than eight bytes left behind it and at
  least eight in front (`common/buffer.c:77-84`) is looked for where it is not: `Client.WillStray` is that test. The
  guide then does what the parser does if and only if the four bytes at `seek` are in the buffer and give the head's
  size, or both sizes are too large (`CourseOf`): `Client.Guide`, `Client.ReadData`, `Client.TcpRead` and
  `Servers.Serve` state it, and three ordinary frames on a new client fail it in `HeadStrays`;
- dispatching while a body is being received, because `verify` overwrites `need` (`proto/proto.c:116`):
  `Client.DealTcpMsg`, `DispatchInsideBody`;
- a recycled client receives as a new one if and only if it was recycled between segments, because `client_reset` leaves
  `read` (`epollet/client.h:8-17`): `ClientPool.Accept`; `Client.ReadLeftOver` says what becomes of any other, and
  `RecycledInsideHead` and `HeadTooShort` are a run of it;
- erasing from the heap, because `heap_adjust` compares pointers (`c-stl/heap.h:24`): `Heap.Erase`,
  `Heap.ErasesWellWhen`, `EraseBreaksOrder`;
- a pass over the timers ends if and only if every endless timer that is due has a period; a negative one makes the
  unsigned key wrap: `CheckPass`, `Spin`;
- a queue of one slot, which half as many more leave at one: `Queue.Push`, `Queue.PushTwo`;
- the shared `size` of the queue between two threads: `SafeIffFinds`, `SafeIffNotAhead`, `CountRightIffExclusive`,
  `LostUpdate`.

## Model

| member | source | states |
|---|---|---|
| GapRing.Buffer.constructor | common/buffer.c:10-24 | a new buffer is empty and in the linear shape |
| GapRing.Buffer.Reset | common/buffer.h:67-75 | all indices return to 0 and nothing with bytes in it may be held; memory and size stay |
| GapRing.Buffer.Realloc | common/buffer.c:27-51 | growing, with the overlapping slide of the upper half if wrapped, keeps every held segment and closes the gap |
| Sliding.SlideUp | common/buffer.c:37-39 | the backward copy moves the range to the end of the block intact although the two may overlap, and leaves what is before it |
| GapRing.StoredSlid | common/buffer.c:35-43 | after the slide both halves still hold the same segments |
| GapRing.StoredEnlarged | common/buffer.c:31-32 | a larger block with the same bytes in front holds the same segments |
| GapRing.Buffer.FitsMeansFreeRun | common/buffer.c:61-90 | the tests of the branches amount to this: somewhere outside unread data and gap there are that many contiguous bytes |
| GapRing.Buffer.Rectify | common/buffer.c:53-93 | a zero request fails and changes nothing; otherwise that many contiguous bytes are reserved without losing data, growing by the stated amount exactly when there is no such room, moving `write` to 0 exactly on the two branches that say so, and moving `seek` only on a reset |
| GapRing.Buffer.StartOver | common/buffer.c:77-84 | leaving a gap and continuing at index 0 keeps every segment |
| GapRing.Buffer.Store | common/buffer.c:104 | copying into reserved space changes those bytes only and keeps all held data |
| GapRing.StoredPush | common/buffer.h:50-57 | bytes counted behind the open segment extend it, and complete it when the reservation is used up, in either shape |
| GapRing.Buffer.SeekWrite | common/buffer.h:50-57 | the counted bytes join the open segment or complete it; `write` turns over to 0 only at the very end of the block |
| GapRing.Buffer.Fill | common/buffer.c:104-105 | a copy followed by `seek_write`, in any number of parts, within what is left of the reservation |
| GapRing.Buffer.Terminate | common/buffer.c:107-108 | the terminator lands on a free byte and is not counted in the segment |
| GapRing.Buffer.Write | common/buffer.c:95-111 | exactly one segment is appended, whatever wrap, reset or growth it takes, and the terminator behind it never hits unread data |
| GapRing.Buffer.WriteInt | common/buffer.c:113-132 | the same for the four bytes of a 32-bit integer |
| GapRing.StoredTake | common/buffer.h:32-47 | after a read the rest is stored from the segment's end on, as one piece from index 0 once the upper piece is used up |
| GapRing.Buffer.SeekRead | common/buffer.h:32-47 | the oldest segment is gone, the others stay, and the open segment and its reservation survive the return from the wrapped to the linear shape |
| GapRing.Buffer.Read | common/buffer.h:59-64 | the returned pointer is where the oldest segment lies contiguously, byte for byte |
| GapRing.Buffer.Oldest | common/buffer.h:17-18 | `read_ptr` points at the oldest unread segment, which lies contiguously |
| GapRing.Buffer.OpenIsContiguous | common/buffer.h:8-14 | the segment being written lies contiguously before `write` |
| GapRing.Buffer.LengthIsExact | common/buffer.h:24-29 | `len` is the number of bytes of all segments held and of the open one |
| RingRuns.Apply | common/buffer.h:8-14 | each operation acts on the buffer as on a queue of segments with no memory layout |
| RingRuns.Run | common/buffer.h:8-14 | over every run of reservations, fills, writes and whole reads the outputs and the final content are those of that queue |
| RingRuns.NothingLost | common/buffer.h:8-14 | over every run, bytes out followed by bytes held equal bytes held at the start followed by bytes written |
| Bytes.LittleEndianRoundTrip | proto/proto.h:20-26 | a number that fits its field is read back from its bytes |
| Bytes.LittleEndianBytes | proto/proto.h:20-26 | a field of two or four bytes is the sum of its bytes times 1, 256, 65536 and 16777216 |
| Bytes.LittleEndianExact | proto/proto.h:20-26 | the bytes of a field are determined by the number read from them |
| Frames.HeadRoundTrip | proto/proto.h:20-26 | the eight bytes of a head give back size, command and version |
| Frames.HeadFields | proto/proto.h:20-26 | size, command and version are the numbers in the bytes 0 to 3, 4 to 5 and 6 to 7 of a head |
| Frames.ParseBounds | proto/proto.c:37-53 | something is always wanted, never more than 65000 bytes, and a rejection lies within the stream |
| Frames.FirstHead | proto/proto.c:40-61 | a stream is rejected at its first head exactly if the first four bytes make more than 65000, and otherwise that many bytes are awaited next, or another head if they make 0 |
| Frames.RejectedForGood | proto/proto.c:41-46 | a rejected stream stays rejected at the same offset whatever follows |
| Frames.AdvanceIsParse | proto/proto.c:26-73 | after every receive of at most the wanted bytes the guide's state is that of the one-shot parser |
| Frames.FeedIsParse | epollet/epollet.c:411-416 | receiving any run of bytes segment by segment leads to the one-shot parser's state |
| Frames.ChunkingIndependent | epollet/epollet.c:347-398 | for every split of the stream into receives the completed segments, the state and the offset of a rejection depend only on the bytes |
| Frames.ParsePaired | proto/proto.c:48-67 | completed segments are heads followed by the bodies they announce, and an awaited body has the announced length |
| Frames.PairedHead | proto/proto.c:38-61 | a head arriving between frames completes a frame exactly if it announces no data |
| Frames.PairedBody | proto/proto.c:62-67 | a body completes the frame of the head received last |
| Frames.BatchStops | proto/proto.c:144-161 | one dispatch handles everything up to and including the first frame with a command of at most 15, and everything if all commands are above 15 |
| Frames.RoundTrip | proto/proto.h:20-26 | the bytes sent for any frames parse into their segments, and those give back the frames |
| Frames.FramesSurviveChunking | epollet/epollet.c:347-398 | however the bytes of some frames are cut, exactly those frames come out and nothing is left over |
| Frames.PrefixFrames | proto/proto.c:26-73 | a prefix of what was sent is never rejected and yields exactly the frames that lie in it whole, all of them at the end |
| Frames.ParseExact | proto/proto.c:26-73 | every byte of any stream is in a completed segment or in the one being read, and a rejection comes right behind the first head that announces too much |
| Frames.CompleteExact | proto/proto.c:48-67 | encoding the complete frames again gives the bytes they came in |
| Frames.Lossless | proto/proto.c:26-73 | the converse of the round trip: any stream not rejected is the encoding of its frames, then the pending head and the open segment |
| Receives.Drain | epollet/epollet.c:277-304 | a receive never exceeds the bytes asked for or available, and uses up an outcome if it got any |
| Receives.EagerDrain | epollet/epollet.c:277-302 | without errors a receive stops short only when there is nothing more, whatever the partial results and interruptions |
| Receives.DrainThrough | epollet/epollet.c:277-304 | outcomes that bring fewer bytes than are wanted and available, none empty or an error, are gone through, and the bytes add up |
| Receives.DrainUntil | epollet/epollet.c:277-304 | after such outcomes a failure ends the receive as an error, `EAGAIN` and an empty result end it quietly, and one that brings the rest ends it with all it asked for; nothing else is used up |
| Receives.DrainShort | epollet/epollet.c:277-304 | with no further outcome the receive ends with the bytes so far |
| Receives.PlentyDrain | epollet/epollet.c:277-302 | with results enough a receive gets all it asked for, or all there is |
| Receives.PlentyReadAll | epollet/epollet.c:411-416 | with results enough the loop of `tcp_read` gets the whole stream, unless it is told to stop |
| Receives.EagerReadAll | epollet/epollet.c:411-416 | without errors and empty results it never fails, and gets the whole stream if it is not told to stop and there are outcomes left |
| Receives.ReadThrough | epollet/epollet.c:411-416 | it goes on over outcomes that neither fail nor come with empty hands, whatever segments they end in, and what follows decides the rest |
| Receives.ReadUntil | epollet/epollet.c:411-427 | the first failure ends it as an error and the first empty outcome quietly, in the middle of the stream with exactly the bytes that came before, while an interruption is passed over |
| Receives.CircleRecv | epollet/epollet.c:262-305 | the bytes received are the next of the stream, stored in the reserved space in order; how many, and error or not, is what the outcomes of `recv` determine: after outcomes that bring bytes but not all, a failure makes it fail, and an empty kernel buffer or an empty result makes it return the bytes so far |
| Framing.Client.constructor | epollet/client.c:11-33 | a new client is cleared and nothing of a segment has been read |
| Framing.Client.Reset | epollet/client.h:7-17 | resetting clears a client but for `read` and `is_ok` |
| Framing.Client.Accept | epollet/epollet.c:460-482 | a cleared client given a connection is in step with the parser if and only if `read` is 0 |
| Framing.Client.ReadLeftOver | epollet/epollet.c:347-398 | if `read` was left over, either the client is closed at once, or its guide decides on a size, taken from the first bytes there are, while the parser is still inside the first head |
| Framing.Client.Prepare | epollet/epollet.c:358-370 | at the start of a segment room for all of it is reserved and what waits is untouched; a head strays from now on exactly if the guard of the branch that starts over at index 0 held |
| Framing.Client.Deposit | epollet/epollet.c:382-385 | the received bytes are counted; a completed head is contiguous at `seek`, or, if it strayed, `seek` is less than a head from the end of the buffer |
| Framing.Client.Guide | proto/proto.c:26-73 | taking the size of a head from the four bytes at `seek`, the guide does what the parser does if and only if the head is there, or those bytes give its size, or both sizes are too large; it reads past the buffer exactly if a strayed head leaves fewer than four bytes there; if it does as the parser, the client is kicked out exactly if the first four bytes of the head make more than 65000 |
| Framing.ToldBefore | common/buffer.c:77-84 | what is received of a strayed head does not touch the bytes its size is looked for in, so how it is found is known before the receive but for the head itself |
| Framing.KeptAdvance | proto/proto.c:26-73 | a receive leaves the one-shot parser's state for the longer stream and adds at most one frame to those waiting, losing none |
| Framing.Client.ReadSegment | epollet/epollet.c:347-398 | one segment's worth of receiving takes the parser's step and appends the segment it completes, and goes astray exactly if it completes a head whose size is not found |
| Framing.Client.ReadData | epollet/epollet.c:341-398 | the client stays in step with the parser; the result is positive, zero, -1 on rejection or -4 on a network error exactly as the bytes and outcomes say: a failure after some bytes closes the client with -4, and an empty kernel buffer leaves it open with 0, having received those bytes; it goes astray if and only if it completes a head whose size is not found, which is decided by `WillStray`, `seek` and the old bytes before the call and the head received, and records that |
| Framing.Client.TcpRead | epollet/epollet.c:411-427 | the loop ends in step with the parser, closed or astray, having lost no byte: -1 exactly on rejection, astray exactly if the size of a head was not found, and otherwise it got as many bytes, used up as many outcomes and failed or not as `ReadAll` says; with results enough it returns 0 only when all was received; and where all fits behind `write` no head strays, and whether the next will is said in closed form |
| Framing.Client.Verify | proto/proto.c:90-121 | the three verdicts from `len` and the oldest head, and the overwriting of `need` when only the head is there |
| Framing.LengthTells | proto/proto.c:97-118 | comparing lengths tells exactly whether the oldest frame has arrived |
| Framing.Client.TakeFrame | proto/proto.c:140-142 | the two reads return the oldest head and its body, and take just those segments; command and version are the numbers in the bytes 4 to 5 and 6 to 7 behind `read` |
| Framing.Client.DealOne | proto/proto.c:138-159 | the frame handled is the first that waits, and the others keep waiting in order |
| Framing.Client.DealLoop | proto/proto.c:137-161 | the frames handled are those up to and including the first kernel frame, or all; `need` survives exactly if a kernel frame ended the loop or a head is being received |
| Framing.Client.DealTcpMsg | proto/proto.c:123-167 | the frames handled are those up to and including the first with a command of at most 15, or all if every command is above 15; also when `need` is off already: the client is in step afterwards exactly if it was and a head was being received or a kernel frame was waiting, and otherwise only `need` is off, by the size of a head |
| Servers.KeptFrames | proto/proto.c:123-167 | frames handled and waiting are always a prefix of those sent, and all of them once all bytes have come |
| Servers.ServeReadable | epollet/epollet.c:400-427 | a readable event receives what `ReadAll` says, all there is if results are enough, and closes the client exactly if that failed; it keeps the account of the frames sent, and goes astray exactly if the size of a head was not found |
| Servers.ServeDispatch | proto/proto.c:123-167 | a dispatch hands over the next batch of the frames that lie whole in the bytes received and were not handled yet, and says when `need` is overwritten |
| Servers.PlayInOrder | proto/proto.c:123-167 | whatever the works, the frames handled are the first of those sent, and have arrived |
| Servers.PlayReceives | epollet/epollet.c:411-416 | a readable event with results enough brings all bytes there are |
| Servers.PlayHandles | proto/proto.c:137-161 | once all was received, all frames are handled or at least as many as there were dispatches since |
| Servers.PlayEnds | proto/proto.c:123-167 | a readable event with results enough, and as many dispatches after it as there are frames, among any other works: all frames are handled |
| Servers.Serve | proto/proto.c:123-167 | for any schedule of receiving and dispatching the frames handed over are the batches due at each dispatch done, and with those waiting they are the frames sent that have arrived; the bytes received, the outcomes left and whether the client is closed are what the works done come to; it ends early only when the connection ends, the size of a head is not found, or a receive meets an overwritten `need`; and if some readable event had results enough and as many dispatches followed as there are frames, all were handed over, unless one of those three happened |
| Servers.Deliver | proto/proto.c:123-167 | once all bytes were received, dispatching until nothing is handled hands over exactly the rest of the frames sent |
| FramingLimits.Arrive | epollet/epollet.c:347-398 | a frame with room behind `write` is received there whole, and it is known whether the next head will stray |
| FramingLimits.TwoFrames | common/buffer.c:77-84 | after frames of 8 + 92 and 8 + 145 bytes on a new client, the first dispatched, the next head will stray |
| FramingLimits.HeadStrays | proto/proto.c:40-42 | when the third frame comes its size is looked for past the end of the buffer |
| FramingLimits.DispatchInsideBody | proto/proto.c:114-118 | a run on which dispatching turns a `need` of 1 into 9 |
| Heaps.UpStep | c-stl/heap.c:97-112 | one exchange upwards moves the only disorder up a level |
| Heaps.DownStep | c-stl/heap.c:127-144 | one exchange with the smaller child moves the only disorder down a level |
| Heaps.RootIsLeast | c-stl/heap.h:13 | the top of an ordered heap has the least key |
| Heaps.Heap.Swap | c-stl/heap.c:9-17 | two slots change places and every node still knows its slot |
| Heaps.Heap.HeapUp | c-stl/heap.c:87-115 | sifting up restores order exactly if the node was not too large for its children |
| Heaps.Heap.HeapDown | c-stl/heap.c:117-147 | sifting down restores order exactly if the node was not too small for its parent |
| Heaps.Heap.Push | c-stl/heap.c:40-69 | order, slot numbers and exactly one more node, growing by half when full; a node no smaller than any stays behind the others |
| Heaps.Heap.Pop | c-stl/heap.c:71-85 | a node with the least key is taken and nothing else; none from an empty heap |
| Heaps.Heap.HeapAdjust | c-stl/heap.h:21-28 | comparing addresses, it restores order exactly if the sift it picks is the one needed |
| Heaps.Heap.Erase | c-stl/heap.c:149-165 | exactly the node in the slot is taken; the heap is ordered afterwards exactly under the stated comparison of the last node with its new neighbours |
| Heaps.Heap.ErasesWellWhen | c-stl/heap.c:149-165 | that holds at the root, at the last slot, and wherever addresses compare as keys do |
| Heaps.EraseBreaksOrder | c-stl/heap.h:24 | five nodes from which erasing slot 2 leaves no heap |
| Timers.RunExact | src/timer.c:94-113 | in closed form, for every period and repeat count with which the pass ends: the number of firings, their deadlines and what is left of a timer; with a negative period the key goes down past zero and wraps |
| Timers.Turn | src/timer.c:88-113 | one turn of the loop fires the earliest timer and does to it what its repeats say, whatever its period, and nothing to the others |
| Timers.Spin | src/timer.c:88-99 | with a due endless timer without a period something is still due after any number of turns |
| Timers.AddTimer | src/timer.c:38-58 | the new timer is in the heap with its deadline, an unsigned sum, the others unchanged |
| Timers.DelTimer | src/timer.c:60-74 | exactly that timer leaves; order holds exactly as for erasing |
| Timers.FireTop | src/timer.c:88-113 | a turn takes the first planned firing of its timer while all other plans stay |
| Timers.RemainingDrops | src/timer.c:88-114 | each firing lowers the number of planned firings, so the loop ends |
| Timers.AccountedStep | src/timer.c:88-114 | fired and planned together remain what was planned at the start |
| Timers.CheckPass | src/timer.c:85-114 | if every due endless timer has a period the pass ends: it fires for every timer exactly its planned deadlines in order, leaves exactly the timers with repeats left, with nothing due, and in the order of deadlines if no due timer has a negative period |
| Scheduler.Pigeonhole | coroutine/coroutine.c:102-116 | fewer live slots than slots means a free one, none live means all free |
| Scheduler.Schedule.constructor | coroutine/coroutine.c:60-69 | sixteen free slots and nothing running |
| Scheduler.Schedule.FreeSlot | coroutine/coroutine.c:104-117 | the rotated probe finds the first free slot in its order, and the assertion after it is out of reach |
| Scheduler.Schedule.Double | coroutine/coroutine.c:92-98 | doubling moves nobody and adds free slots |
| Scheduler.Schedule.CoroutineNew | coroutine/coroutine.c:85-119 | exactly one new coroutine, in a slot that was free, first in probing order or first of the added ones; live ids are not moved and the count is exact |
| Scheduler.Schedule.SaveStack | coroutine/coroutine.c:165-176 | the part of the shared stack in use is saved, in a block that is large enough |
| Scheduler.Schedule.CoroutineYield | coroutine/coroutine.c:178-188 | the yielding coroutine is suspended with its stack saved and nothing runs |
| Scheduler.Schedule.RestoreStack | coroutine/coroutine.c:155 | the shared stack gets back what was saved |
| Scheduler.Schedule.Retire | coroutine/coroutine.c:121-132 | the finished coroutine's slot, and no other, becomes free |
| Scheduler.Schedule.RunOp | coroutine/coroutine.c:121-132 | the running body does its next step and no other, with the effect that step has on the shared stack, on those created and on what is saved, or retires at its end; other coroutines are not written to |
| Scheduler.Schedule.Perform | coroutine/coroutine.c:121-132 | the step done is the next of the script, with its effect |
| Scheduler.TouchedAt | coroutine/coroutine.c:140-158 | after some steps every byte of the shared stack is as the last step that wrote there left it, or as it was |
| Scheduler.CarryOn | coroutine/coroutine.c:121-132 | a slice of which all steps were carried out stays one with one more step carried out |
| Scheduler.NewsCounted | coroutine/coroutine.c:85-119 | a script is to be created as often as steps ask for it |
| Scheduler.BodiesCounted | coroutine/coroutine.c:85-119 | and is created by somebody as often as the account of creations has it |
| Scheduler.AllCounted | coroutine/coroutine.c:85-119 | and there are as many coroutines with it |
| Scheduler.Census | coroutine/coroutine.c:204-215 | if everybody has created what its script asks for, the scripts of all are those created from outside and those asked for by any script of them |
| Scheduler.Schedule.RunSlice | coroutine/coroutine.c:121-132 | a body runs up to its first yield, and is then suspended in its slot, or to its end, and has then left it; every step on the way was carried out: the shared stack is what its writes, in order, made of the one it started on, each creation added one coroutine with that script, and a yield saved the part in use of that stack |
| Scheduler.Schedule.Enter | coroutine/coroutine.c:140-158 | a suspended coroutine finds what it saved put back at the end of the shared stack, and a new one finds that stack as it is |
| Scheduler.Schedule.Resume | coroutine/coroutine.c:134-163 | on every resume after a yield the coroutine finds the stack it left, whatever ran in between, and carries out its steps, starting on that stack, up to its next yield or its end; no other coroutine is written to; the second assertion is out of reach |
| Scheduler.Schedule.Sweep | coroutine/coroutine.c:209-213 | each coroutine live at the start of a sweep is resumed in its own slot, no coroutine is resumed twice, and slots come in increasing order, even if the table doubles meanwhile |
| Scheduler.Schedule.Run | coroutine/coroutine.c:204-215 | the loop ends with no coroutine left and every body ever created run completely and in order; each has created exactly the coroutines its script asks for, so the scripts of all there were are those created from outside and, through all scripts, those of every creation |
| Queues.Queue.constructor | c-stl/queue.c:8-30 | an empty queue of the given capacity, if that is not 0 |
| Queues.Queue.SizeIsDistance | c-stl/queue.h:12-19 | `size` is the distance from head to tail around the table |
| Queues.Queue.Push | c-stl/queue.c:32-75 | the item is appended, with half as many slots again exactly when the queue is full; it is still a queue if and only if it had more than one slot |
| Queues.Queue.PushTwo | c-stl/queue.c:32-75 | in a queue of one slot the second item takes the place of the first |
| Queues.Queue.Grow | c-stl/queue.c:42-68 | growing keeps all items in order, sliding the wrapped half to the new end |
| Queues.Queue.PushFixed | c-stl/queue.c:77-98 | the item is appended, or refused exactly when all slots but one are used |
| Queues.Queue.Pop | c-stl/queue.c:100-116 | the oldest item is returned and its slot cleared; none from an empty queue |
| TwoThreads.StepKeepsInv | c-stl/queue.c:87-115 | every single memory access of either thread keeps the protocol's invariant unless it overwrites a decrement of `size` |
| TwoThreads.SafeIffFinds | c-stl/queue.c:77-116 | for every schedule, however the changes of `size` overlap: what was taken is always a prefix of what was sent, a slot is written before it is read and the threads never touch the same slot, if and only if every check of `size` that let the taking thread go on did so with `tail` ahead of `head` |
| TwoThreads.SafeAlways | c-stl/queue.c:77-116 | that is so in every schedule in which no decrement of `size` is overwritten; overwritten increments only leave items untaken |
| TwoThreads.SafeIffNotAhead | c-stl/queue.c:101-113 | with both threads at rest, all that can follow is safe if and only if `size` is between 0 and the number of items |
| TwoThreads.OverRead | c-stl/queue.c:101-113 | otherwise popping goes on after the last item was taken |
| TwoThreads.NotFull | c-stl/queue.c:87-91 | at every step the full test holds exactly when only one slot is unused |
| TwoThreads.WholePush | c-stl/queue.c:77-98 | the steps of a push that nothing interrupts append the item, or refuse it exactly when only one slot is unused |
| TwoThreads.WholePop | c-stl/queue.c:100-116 | the steps of a pop that nothing interrupts take the oldest item, or nothing if `size` is 0 |
| TwoThreads.OverlapStep | c-stl/queue.c:95-113 | an overlap of two changes of `size` lasts until an increment is lost, and only an overlap loses one |
| TwoThreads.CountRightIffExclusive | c-stl/queue.c:95-113 | over whole runs in which no decrement is overwritten, `size` is exact at rest if and only if no two changes of it overlapped |
| TwoThreads.LostUpdate | c-stl/queue.c:95-113 | a schedule with overlapping changes on which a slot is read that nothing was written to |
| Database.IntRoundTrip | src/database.c:41-44 | the command read from memory is the one written |
| Database.Compose | src/database.c:124-128 | from a recycled buffer the two writes never wrap: the message is one piece from its start |
| Database.Extract | src/database.c:41-52 | command and payload come out as written and the buffer is ready for reuse |
| Database.PostDbMsg | src/database.c:118-131 | the message is queued, or refused exactly when the queue is full |
| Database.IssueDbMsg | src/database.c:23-53 | the oldest message is delivered, the others keep waiting |
| TwoThreads.SentIsAccepted | c-stl/queue.c:87-93 | what is written to slots are the items of the pushes that the full test let pass, in order |
| Database.MailArrives | src/database.c:23-53 | between the two threads the messages delivered are a prefix of those posted, in order, in every schedule in which no decrement of `size` is overwritten |
| Lists.RingInserted | c-stl/list.c:40-45 | four pointers put an item between two neighbours of a ring |
| Lists.RingRemoved | c-stl/list.c:132-134 | two pointers take an item out of a ring |
| Lists.List.InsertBefore | c-stl/list.c:33-55 | the sequence with the item before the position; head, tail and size exact |
| Lists.List.InsertAfter | c-stl/list.c:57-79 | the sequence with the item after the position; head, tail and size exact |
| Lists.List.PushFront | c-stl/list.c:92-102 | the item in front of the sequence |
| Lists.List.PushBack | c-stl/list.c:104-114 | the item at the end of the sequence |
| Lists.List.Erase | c-stl/list.c:116-155 | the sequence without that item, whose links are cleared |
| Lists.List.PopFront | c-stl/list.h:75-76 | the first item, and the sequence without it |
| Lists.KeptExactly | c-stl/list.c:157-178 | what a traversal leaves is exactly the items its visitor did not erase |
| Lists.List.ForEach | c-stl/list.c:157-178 | every item is visited once and in order even if the visitor erases the one it is given |
| Lists.List.Foreach | c-stl/list.h:84-88 | the same for the macro |
| Lists.List.Clear | c-stl/list.c:15-31 | the list ends empty, every item having been released once |
| Pools.ClientPool.Extract | epollet/client.c:64-84 | a client that is not handed out, the one freed longest ago or a new one with the next id; it is reset, and as new exactly if nothing is left in the fields `client_reset` passes over |
| Pools.ClientPool.Recycle | epollet/client.c:86-94 | the client is reset and free again, last in line, and keeps its place in the table |
| Pools.ClientPool.Accept | epollet/epollet.c:460-482 | the client a connection gets receives in step if and only if nothing was left in `read` of the one at the head of the free list |
| Pools.ClientPool.Receive | epollet/epollet.c:411-427 | receiving on a client that is not free keeps the pool in order |
| Pools.RecycledInsideHead | epollet/client.h:8-17 | after a connection that ended three bytes into a head, the next one is out of step before its first byte |
| Pools.HeadTooShort | epollet/epollet.c:359-391 | five bytes later its guide has decided on a size while the parser is still inside the head |
| Pools.ClientPool.GetClient | epollet/client.c:96-103 | the client with that id, or none past the end of the table |
| Pools.ClientPool.FoundUnderId | epollet/client.c:80-81 | free or not, a client is found under its own id |
| Pools.Store.Extract | common/store.c:24-49 | a block not handed out: the one recycled longest ago, or a new one of zeros |
| Pools.Store.Recycle | common/store.h:30-34 | the block is free again, and every block is either free or handed out |
| HashMaps.HashMap.constructor | c-stl/map.c:52-71 | an empty map with at least the default number of buckets |
| HashMaps.HashMap.InItsChain | c-stl/map.c:153-168 | a key of the map is found in the chain of its bucket, and only there |
| HashMaps.HashMap.PutStr | c-stl/map.c:100-144 | fails exactly on a key already there, and then only the offered entry is written to; else the map gains that entry, last in its chain, and the counters are exact |
| HashMaps.HashMap.GetStr | c-stl/map.c:146-170 | the entry of the key, or none |
| HashMaps.HashMap.Remove | c-stl/map.c:212-253 | the map without the key, whose entry is returned unlinked, or unchanged and none |
| HashMaps.ChainedRemoved | c-stl/map.c:239-249 | one pointer takes an entry out of a chain |
| HashMaps.HashMap.Clear | c-stl/map.c:193-210 | the map is empty, the counters are 0, and no former entry points to another |
| HashMaps.HashMap.Put | c-stl/map.c:73-82 | with integer keys: fails exactly on a key already there, and no other integer key is affected |
| HashMaps.HashMap.Get | c-stl/map.c:84-93 | the entry of the integer key, or none |
| HashMaps.PrintedInjective | c-stl/map.c:76-79 | no two 32-bit integers are printed alike, and none is cut short by the room for it |

## Left out

- Framing.Client.ReadData: receiving with a `need` that a dispatch has overwritten is not followed; `Servers.Serve` stops before it and says so.
- Framing.Client.Guide: what a guide makes of bytes it finds past the end of the buffer is not modelled, nor what follows once it has taken a wrong size; the run ends there with `ASTRAY`.
- Framing.Client.TcpRead: closing a socket is a flag; an event that reports an error and closes the client before the loop, the ready list, which is guarded by the never-cleared `is_ok`, and the early return for a client that needs nothing are not part of it.
- Framing.Client.TakeFrame: the handler gets copies of head and body; looking up and calling handlers is not modelled.
- Scheduler.Schedule.RunOp: contexts are not switched; a body is a script, and a body that resumes a coroutine itself, which the code forbids by assertion, is not among its steps.
- Heaps.Heap.Erase: addresses of nodes are arbitrary numbers chosen when a node is made.
- Timers.CheckPass: callbacks leave the heap alone; a clock that advances during the pass, and the endless outer loop, are not part of it.
- TwoThreads.SafeIffFinds: memory is sequentially consistent and each access is one step.
- Database.MailArrives: the content of a buffer is part of the item that travels; the memory of the buffers and the pool they come from are in `Database.PostDbMsg` and `Database.IssueDbMsg`, for one thread at a time.
- Timers.AddTimer: the clock gives a time between 0 and 2^63.
- Database.PostDbMsg: a buffer refused by a full queue is not returned to the pool, as in the code; the pool itself is used by both threads there and is not modelled as shared.
- Database.IssueDbMsg: one round of the endless loop, without the sleep and the yield on an empty queue.
- Pools.ClientPool.Recycle: the caller must own the client; closing a client twice, and the one link shared by the free, alive and ready lists, are not modelled, nor is the buffer for sending.
- HashMaps.HashMap.PutStr: an entry already in the map must not be put again, since its link is cleared first; null values and negative key sizes, which are refused, are not representable.
- HashMaps.HashMap.constructor: any hash function is allowed; the particular one, the conflict ratio and the two ways of freeing a map are left out.
- Heaps.Heap.constructor: with fewer than two slots the first push writes outside the table; that is not modelled.
- Queues.Queue.Push: null items, which are refused, are not representable, and neither are the ways of freeing a queue.
- Sockets, epoll registration, accepting, sending, UDP, keep-alive, logging and the MySQL plugin: foreign calls around the parts modelled.
- Registering of message handlers, `c-stl/stack.c`, `c-stl/array.c` beyond a growing table, and `src/moment.c`: easy members.
