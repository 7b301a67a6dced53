# my_sylar in Dafny

A model of the hard core of the my_sylar coroutine server framework, with proofs.

- **The reactor.** Fibers run on N worker threads that pick tasks from one queue (`Scheduler`,
  `SchedulerSafety`, `SchedulerRuns`, `SchedulerHistory`, `SchedulerTasks`). Waiters are parked in
  per-descriptor event contexts that have to agree with the kernel's epoll interest and a pending
  count (`EventTable`, `IOManager`). An ordered timer set decides how long a poller sleeps (`Timers`,
  `TimerRuns`, `ClockSteps`). The hooked `do_io` wait is built from both (`DoIo`, `DoIoHistory`, and
  on the real event table and timer set in `Reactor`), and stopping depends on three counters that
  are not read at once (`StopCheck`). Each of these is a state with atomic steps; the results are
  about every run, and the two history modules say in terms of the steps taken what the states are.
- **ByteArray.** A linked list of fixed-size blocks with a cursor (`Blocks`, `ByteArray`), its
  typed codecs (`Codec`, `TypedAccess`, `RoundTrip`) and its scatter/gather views as the socket
  stream uses them (`SocketStream`). The classes live on the heap; a ghost flat byte string says
  what they hold.
- **Text and streams.** The percent codec (`PercentCodec`), the query parser that consumes it
  (`QueryParams`) and HTTP chunked body reassembly (`ChunkLines`, `ChunkGrammar`, `ChunkedBody`).

`Options` holds the option type, `Words` the machine words and their conversions. Clock readings,
epoll_ctl outcomes, what the kernel delivers or accepts, timer addresses and fresh identities are
arguments of the steps and methods.

`dafny verify dfyconfig.toml` checks everything.

## What the code does that one might not expect

Each of these is proved, with the condition under which the code does what one would expect:

- `ByteArray::read` of zero bytes at the very end of the capacity goes through a null cursor. A list
  of typed writes reads back unless its last value is an empty string and the encoding fills whole
  blocks (`RoundTrip.WriteThenRead`).
- The const `read` at a position starts from the cursor's block, so it reads elsewhere unless the
  position lies in that block (`ByteArrays.ByteArray.ReadAt`).
- Two wakes for one suspension make `swapIn` assert (`SchedulerRuns.DoubleWakeBreaks`); a task
  scheduled from outside after every worker is on its way out is never run
  (`SchedulerRuns.TooLate`).
- `addEvent` reports success without registering for a descriptor above `MAX_FD` or below zero, and
  indexes past the vector at `MAX_FD` itself (`EventTable.AddEventExact`).
- Handling a readiness report asserts when it names one event that is waited for and one that no
  longer is (`EventTable.ReadyExact`, `EventTable.StaleReportAborts`).
- `readFixSize` returns its length as an int, so a complete read of 2^31 bytes, or of any multiple of
  2^32, is taken for a failure (`SocketStreams.ReadFixSize`, `ChunkedBody.RecvFixed`,
  `ChunkedBody.ServedExact`). Chunk sizes are converted the same way: a chunk is taken right exactly
  up to 2^31 - 3 bytes (`ChunkedBody.ChunkExact`), and what is taken otherwise is the converted
  number of bytes (`ChunkedBody.WhatIsTaken`, `ChunkedBody.WrappedSizeEnds`).
- `IOManager::stopping` can pass over a fiber that registers between its two reads
  (`StopCheck.StopExact`, `StopCheck.PassedOver`).
- With a second worker, the timer of a `do_io` call can fire before the call has registered, and the
  call then parks with nothing left to wake it (`DoIo.ParkExact`, `DoIo.TwoWorkersUncovered`). With
  any number of workers the same happens when epoll_ctl refuses the callback's cancelEvent
  (`DoIo.LostExact`, `DoIo.RefusedUncovers`).
- An expiry re-arms recurring timers without waking anyone. As long as the clock ran forward until
  then, a poller asleep is in time for them however far the clock stepped back
  (`ClockSteps.StepBackFromStart`). After a rollover the condition is that its delay is no more than
  any recurring period (`ClockSteps.RolloverExact`), and an earlier step back breaks it
  (`ClockSteps.TwoStepsBackLate`). A delay with bit 31 set becomes a negative epoll timeout
  (`TimerRuns.WaitsInTime`).
- A chunk-size line that arrives in pieces is read right exactly when every piece before the last is
  an unfinished line and the last is by itself a line of the same size (`ChunkLines.LineExact`). For
  a line of digits alone that means that only leading zeros were cut off (`ChunkLines.HeadExact`,
  `ChunkLines.TenReadsAsZero`); with an extension more can go right
  (`ChunkLines.ExtensionReadsRight`).
- The table of unreserved bytes lets '=' through, although the comment above `UrlEncode` does not
  list it; the model follows the table (`PercentCodec.Unreserved`).

## Model

| member | source | states |
|---|---|---|
| ByteArrays.ByteArray.constructor | sylar/bytearray.cpp:32-40 | a fresh array is one block, empty, at position 0, big-endian, and satisfies the block-list invariant |
| ByteArrays.GrownCapacity | sylar/bytearray.cpp:498-527 | growth never shrinks, always makes room, and adds less than one block more than needed |
| ByteArrays.ByteArray.AddCapacity | sylar/bytearray.cpp:498-527 | capacity grows by whole blocks to the least that fits; stored bytes, position and size are untouched; a null cursor moves onto the first new block (part of Valid) |
| ByteArrays.ByteArray.AppendBlocks | sylar/bytearray.cpp:514-523 | the new blocks are linked in order behind the old ones and the first of them is returned |
| ByteArrays.ByteArray.FindLast | sylar/bytearray.cpp:509-512 | the walk ends at the last block of the list |
| ByteArrays.ByteArray.Clear | sylar/bytearray.cpp:331-342 | one block is left, position and size are 0, the first block's bytes remain |
| ByteArrays.ByteArray.Write | sylar/bytearray.cpp:344-377 | exactly the bytes [pos, pos + n) of the flat string change, to the argument, whatever the block size; size is the high-water mark |
| ByteArrays.ByteArray.Read | sylar/bytearray.cpp:379-406 | returns exactly the slice at the position and moves past it; throws exactly when too few bytes are readable; meets the null cursor exactly for zero bytes at capacity |
| ByteArrays.ByteArray.SetPosition | sylar/bytearray.cpp:438-454 | succeeds exactly within the capacity, raises size to the position, and leaves the cursor at block position / base, or null exactly at capacity (Valid) |
| ByteArrays.ByteArray.ReadAt | sylar/bytearray.cpp:408-436 | which bytes the const read really returns, and that they are the ones asked for exactly when the position shares the cursor's block |
| ByteArrays.ByteArray.ToString | sylar/bytearray.cpp:529-537 | returns exactly the readable bytes and moves nothing |
| ByteArrays.ByteArray.GetReadBuffers | sylar/bytearray.cpp:555-584 | the fragments concatenate to exactly the next readable bytes, at most the length asked for |
| ByteArrays.ByteArray.GetWriteBuffers | sylar/bytearray.cpp:623-651 | the fragments are the blocks' ranges covering the next len bytes, in order; contents, position and size are unchanged |
| ByteArrays.ByteArray.Scatter | sylar/bytearray.cpp:623-651 | filling those fragments in order stores the data contiguously at the position |
| SocketStreams.ReadInto | sylar/socket_stream.cpp:30-41 | receiving n bytes through the scatter view and moving the position leaves the same contents, position and size as a write of those bytes; a failure changes none of them |
| SocketStreams.WriteFrom | sylar/socket_stream.cpp:50-61 | what is sent is the next readable bytes and the position moves past exactly those |
| SocketStreams.ReadFixSize | sylar/stream.cpp:19-29 | however the stream cuts the bytes, the array receives one contiguous write and size is the high-water mark; the int that comes back is positive exactly when everything came and the low 32 bits of the length are a positive int; from 2^63 on nothing is read |
| Codec.FixedPortable | sylar/bytearray.cpp:70-110 | swapping when the orders differ gives the same wire bytes on a host of either byte order, and reading them back gives the value on a host of either byte order |
| Codec.WireAt | sylar/bytearray.cpp:63-110 | on the wire byte i is the digit of weight 256^i in a little-endian array and of weight 256^(width - 1 - i) in a big-endian one |
| Codec.BigEndianWord | sylar/bytearray.cpp:70-77 | 0x0102 is 01 02 in a big-endian array and 02 01 in a little-endian one |
| Codec.TwosComplement | sylar/bytearray.cpp:63-110 | a signed value is written as the unsigned one congruent to it, and reads back |
| Codec.VarintRoundTrip | sylar/bytearray.cpp:141-165 | at most 5 or 10 bytes are written; the reader takes exactly those whatever follows and returns the value |
| Codec.VarintShortest | sylar/bytearray.cpp:141-165 | no byte string that the reader takes for the value is shorter |
| Codec.VarintAt | sylar/bytearray.cpp:141-165 | byte i of a varint is the digit of weight 128^i, plus 128 in every byte but the last |
| Codec.ReadVarExact | sylar/bytearray.cpp:253-283 | for any bytes: the reader stops at the first byte below 128 or after five or ten, the value has their low seven bits as digits, and it is short exactly when it can do neither |
| Codec.ReadVar | sylar/bytearray.cpp:253-283 | a reader uses at most max bytes, and what it returns fits the bytes it used |
| Codec.ZigzagBijection | sylar/bytearray.cpp:112-135 | zigzag is a bijection between all signed and all unsigned values of a width, the writer's wrap-around included |
| Codec.ZigzagValues | sylar/bytearray.cpp:112-125 | 0, -1, 1, -2, ... are written as 0, 1, 2, 3, ... |
| TypedAccess.DecodeEncode | sylar/bytearray.cpp:63-329 | decoding the encoding of any value of any accessor, followed by anything, gives the value and uses exactly its bytes |
| TypedAccess.EncodeAt | sylar/bytearray.cpp:63-201 | what every write accessor puts on the wire, byte by byte, length prefixes included |
| TypedAccess.DecodeFixedExact | sylar/bytearray.cpp:203-247 | what the fixed-width reads make of any bytes: the value with the first bytes as its digits in the array's order, two's complement for the signed ones; they fail exactly when there are too few |
| TypedAccess.DecodeStrFExact | sylar/bytearray.cpp:299-321 | what the reads of strings with a fixed-width length make of any bytes: the bytes that follow the length, in the array's order; they fail exactly when either is not all there |
| TypedAccess.DecodeStrVExact | sylar/bytearray.cpp:323-329 | the same for a varint length of at most ten bytes, cut off at 64 bits |
| TypedAccess.Ranges | sylar/bytearray.h:64-180 | the values the round trips hold for, in numbers: all of each C++ type, and strings whose length fits the prefix |
| TypedAccess.DecodeVarExact | sylar/bytearray.cpp:249-283 | what the varint reads make of any bytes, non-canonical ones included: the digits they stand for, cut off at 32 or 64 bits, zigzag undone for the signed ones |
| TypedAccess.WriteFixed | sylar/bytearray.cpp:63-110 | the array receives the wire bytes of the value in the array's order, on either host |
| TypedAccess.WriteVarint | sylar/bytearray.cpp:141-165 | the loop writes exactly the varint of the value |
| TypedAccess.WriteStringF | sylar/bytearray.cpp:179-192 | prefix and body are one contiguous store |
| TypedAccess.WriteStringV | sylar/bytearray.cpp:194-197 | prefix and body are one contiguous store |
| TypedAccess.WriteItem | sylar/bytearray.cpp:63-201 | every write accessor stores exactly the encoding of its value |
| TypedAccess.ReadFixed | sylar/bytearray.cpp:203-247 | returns the value on the wire on either host and moves past its bytes, or fails when too few are readable |
| TypedAccess.ReadVarint | sylar/bytearray.cpp:253-283 | the loop agrees with the reader function, truncation to the width included |
| TypedAccess.ReadItem | sylar/bytearray.cpp:203-329 | every read accessor returns what decoding the readable bytes gives, and the error cases are exactly too few bytes and the null cursor |
| RoundTrip.WriteAll | tests/testByteArray.cpp:5-40 | a list of writes is one store of the concatenated encodings |
| RoundTrip.WriteThenRead | tests/testByteArray.cpp:5-40 | every list of mixed values written to a fresh array of any base size reads back from position 0 with nothing left over, if and only if it does not end in an empty string at a block boundary |
| RoundTrip.EmptyStringMeetsNull | sylar/bytearray.cpp:379-406 | a concrete list for which it fails |
| Scheduler.Scan | sylar/scheduler.cpp:158-183 | the scan takes the first entry the worker may run, keeps the rest in order, and asks to wake others exactly when entries remain behind it or pinned ones were skipped |
| Scheduler.FirstEligible | sylar/scheduler.cpp:161-181 | nothing before the chosen entry may be run by the worker, and the entry itself may |
| SchedulerSafety.CoreKept | sylar/scheduler.cpp:153-238 | every step keeps: an executing fiber is on exactly one worker, a fiber has at most one outstanding wake, cached callback fibers are finished and known to no one else; a plain fiber may end with a stale wake queued |
| SchedulerSafety.CountKept | sylar/scheduler.cpp:176-223 | every step, on all three branches, keeps the active count equal to the number of workers between a pick and its decrement |
| SchedulerSafety.DrainKept | sylar/scheduler.cpp:153-259 | every step keeps: once all workers are on their way out no unpinned entry is queued |
| SchedulerSafety.IdleKept | sylar/scheduler.cpp:225-236 | every step keeps the idle fiber's state in step with its worker |
| SchedulerRuns.RunInv | sylar/scheduler.cpp:137-259 | every state of every run, any number of workers and fibers, satisfies all the invariants |
| SchedulerRuns.RunSafe | sylar/fiber.cpp:114-162 | over every run the asserts of swapIn and reset hold at the next resume, a fiber executes on at most one worker and is EXEC exactly when it does, and the active count is exact |
| SchedulerRuns.LeftAfterStop | sylar/scheduler.cpp:225-259 | a worker whose idle fiber ended saw stopping() pass in it, earlier in the run |
| SchedulerRuns.LeftEmptyHanded | sylar/scheduler.cpp:220-228 | a worker leaves run() right after a scan that found nothing, its idle fiber ended before |
| SchedulerTasks.AllRunAtEnd | sylar/scheduler.cpp:153-259 | when all workers have left, every unpinned task ever scheduled was acted on in exactly one step of the run: its fiber or a callback fiber was entered and ran there until it parked, yielded or finished, or an earlier step had ended its fiber's function |
| SchedulerTasks.TakenOnce | sylar/scheduler.cpp:158-183 | when all workers have left, every unpinned task was handed to a worker exactly once |
| SchedulerTasks.TakenHandled | sylar/scheduler.cpp:176-223 | over every run, an entry that was picked is still in that worker's hands or was acted on by that worker |
| SchedulerTasks.SpentAfter | sylar/scheduler.cpp:176-223 | over every run, an entry that was acted on is never queued, held or acted on again |
| SchedulerTasks.HandledRan | sylar/scheduler.cpp:189-220 | acting on an entry enters its fiber, or a callback fiber, unless an earlier step ended that fiber's function, and what was entered runs on that worker until it yields or finishes |
| SchedulerTasks.RunsUntilItYields | sylar/scheduler.cpp:189-220 | a fiber that was entered stays on its worker until a step in which it holds, becomes ready or finishes |
| SchedulerHistory.FiberExact | sylar/fiber.cpp:114-262 | over every run, a fiber is EXEC exactly while a worker is in it, HOLD or READY exactly when it last left by that yield, TERM or EXCEPT exactly when it last left by ending so, and INIT exactly when it was never entered or is a callback fiber that was reset |
| SchedulerHistory.EndedExact | sylar/fiber.cpp:237-262 | over every run, a fiber is in TERM or EXCEPT exactly when an earlier step ended its function: no yield ends a fiber and nothing revives one |
| SchedulerHistory.FibersStay | sylar/scheduler.cpp:201-208 | a fiber comes to exist only by being created or entered for a callback, and none is forgotten |
| SchedulerHistory.PickExact | sylar/scheduler.cpp:158-183 | over every run, a pick takes the first entry that is neither pinned to another thread nor for a fiber that executes, keeps the rest in order, and finds nothing exactly when there is no such entry |
| SchedulerHistory.QueueExact | sylar/scheduler.h:138-146 | scheduling appends exactly the task, pinned as asked; a fiber that yielded READY is appended unpinned; nothing else enters the queue and only a pick takes from it |
| SchedulerHistory.RunReady | sylar/scheduler.cpp:194-212 | over every run, a READY fiber is queued for any worker or in the hands of one that will queue or enter it |
| SchedulerHistory.SettledAtEnd | sylar/scheduler.cpp:189-259 | when all workers have left, every fiber was never entered, is parked in HOLD, or has ended |
| SchedulerHistory.CacheExact | sylar/scheduler.cpp:201-219 | over every run, a worker keeps a callback fiber exactly when its last callback ended in that fiber; one that yields is given away |
| SchedulerHistory.CallbackEnters | sylar/scheduler.cpp:201-219 | over every run, a callback runs in the fiber its worker kept, or, exactly when it kept none, in one that never ran before |
| SchedulerHistory.IdleExact | sylar/scheduler.cpp:248-259 | over every run, the idle fiber ends exactly when stop() was called before, nothing is queued and no worker is between a pick and the end of what it runs; otherwise it yields |
| SchedulerHistory.LeaveExact | sylar/scheduler.cpp:225-236 | with nothing to run, a worker leaves exactly when its idle fiber has ended, and idles otherwise |
| SchedulerHistory.LeavesNothing | sylar/scheduler.cpp:153-259 | a worker that left run() saw all quiet in its idle fiber, and a later pick of its own found nothing but entries pinned elsewhere or for executing fibers |
| SchedulerRuns.LogKept | sylar/scheduler.h:138-146 | scheduled tasks are conserved: each is queued or was handed out, counted with multiplicity |
| SchedulerRuns.PinKept | sylar/scheduler.cpp:163-168 | an entry pinned to a thread is only ever picked by that thread |
| SchedulerRuns.TooLate | sylar/scheduler.cpp:225-252 | once every worker is on its way out nothing is picked again whatever happens, so the duty of outside callers is exact |
| SchedulerRuns.NeverOvertaken | sylar/scheduler.cpp:158-183 | the number of entries ahead of a queued task never grows |
| SchedulerRuns.OneWorkerFifo | sylar/scheduler.cpp:158-183 | with one worker and no pins, tasks are taken strictly in the order they were scheduled, over every run |
| SchedulerRuns.DoubleWakeBreaks | sylar/fiber.cpp:153-162 | two queued wakes of one fiber lead, from every such state, to a failing assert in swapIn |
| EventTable.CtlAgrees | sylar/iomanager.cpp:139-152 | the ADD, MOD or DEL that is chosen is always one the kernel accepts, and the new interest is the new bits |
| EventTable.AddEventExact | sylar/iomanager.cpp:110-172 | all views agree afterwards whatever is returned; exactly when a registration is made, and what is returned in every other case |
| EventTable.RemoveExact | sylar/iomanager.cpp:174-250 | exactly when delEvent drops and cancelEvent queues the one waiter; otherwise nothing changes; all views agree afterwards |
| EventTable.CancelAllExact | sylar/iomanager.cpp:252-297 | exactly when every waiter of the descriptor is queued and its bits cleared; otherwise nothing changes |
| EventTable.ReadyExact | sylar/iomanager.cpp:438-485 | the asserts fail exactly when a report mixes waited-for and other events and epoll_ctl succeeds; otherwise exactly the reported waiters are queued |
| EventTable.ContextExact | sylar/iomanager.cpp:154-172 | an event context holds the scheduler and the fiber, or the callback, of the one registration that waits for the event, and nothing at all when nobody does |
| EventTable.ReportWakes | sylar/iomanager.cpp:438-485 | in terms of the report: a waiting registration is queued exactly when its event is named, or the report has an error or hang-up, and epoll_ctl succeeds; every other registration is untouched; an assert fails exactly when such a waiter meets a named event that nobody waits for |
| EventTable.ReaderFirst | sylar/iomanager.cpp:272-297 | when a reader and a writer of a descriptor are queued together, the reader comes right before the writer, at the end of the queue |
| EventTable.KernelExact | sylar/iomanager.cpp:139-152 | the kernel watches a descriptor for reading exactly when a reader waits and for writing exactly when a writer does, and not at all otherwise |
| EventTable.StaleReportAborts | sylar/iomanager.cpp:438-485 | a report that was right when made fails an assert once one of its events has been removed |
| EventTable.ResizeKeeps | sylar/iomanager.cpp:349-366 | growing the vector keeps all views, to half as much again as the descriptor and at most 65535 contexts; the descriptor has a context afterwards exactly below 65535 |
| EventTable.RegisterKeeps | sylar/iomanager.cpp:154-172 | registering keeps bits, contexts, pending count and the record of registrations in agreement |
| EventTable.DropKeeps | sylar/iomanager.cpp:207-212 | dropping one waiter keeps them, and settles exactly that registration |
| EventTable.TriggerKeeps | sylar/iomanager.cpp:326-347 | triggering keeps them, and queues exactly the registration that waited |
| EventTable.RunAgrees | sylar/iomanager.cpp:110-347 | over every run of all operations, epoll_ctl failures included: bits = filled contexts = kernel interest, pending = set bits = waiting registrations, and every registration waits, is queued at one place, or was dropped, for good |
| EventTable.RunFromStart | sylar/iomanager.cpp:68-347 | the same from construction on |
| EventTable.QueuedOnce | sylar/iomanager.cpp:326-347 | no waiter is queued twice, and none that waits or was dropped is queued; what is queued is the task that was registered |
| EventTable.StartAgrees | sylar/iomanager.cpp:68-91 | a new manager with 32 contexts starts in agreement |
| IOManagers.IOManager.constructor | sylar/iomanager.cpp:68-91 | starts in agreement with nothing registered |
| IOManagers.IOManager.ContextResize | sylar/iomanager.cpp:349-366 | the vector is cut or extended with empty contexts to the size, at most MAX_FD |
| IOManagers.IOManager.AddEventAt | sylar/iomanager.cpp:110-172 | the in-place code computes the state and result that AddEventExact describes; the assert on the empty context never fails |
| IOManagers.IOManager.RemoveEvent | sylar/iomanager.cpp:174-250 | the in-place code of delEvent and cancelEvent computes the state and result that RemoveExact describes |
| IOManagers.IOManager.CancelAllOf | sylar/iomanager.cpp:252-297 | the in-place code computes the state and result that CancelAllExact describes; its final assert never fails |
| IOManagers.IOManager.TriggerEvent | sylar/iomanager.cpp:326-347 | the waiter is moved out of its context and onto the queue of its scheduler |
| IOManagers.IOManager.HandleReport | sylar/iomanager.cpp:444-485 | the loop body computes the state that ReadyExact describes, and fails an assert exactly when it says |
| StopCheck.InvKept | sylar/iomanager.cpp:154-347 | every single counter update keeps pending, queue length and active count equal to what they count |
| StopCheck.Covered | sylar/iomanager.cpp:326-347 | at every intermediate step a waiter shows in the pending count, the queue or the active count |
| StopCheck.StaysAlive | sylar/iomanager.cpp:174-212 | a waiter disappears only by returning with nothing registered or by delEvent |
| StopCheck.StopExact | sylar/iomanager.cpp:378-391 | who is left when the two-read check passes: exactly the waiters announced between the reads and not woken or taken back since; if nobody was announced, nobody |
| StopCheck.StopFromStart | sylar/iomanager.cpp:378-391 | the same for every run from the empty reactor to the first read and on to the second |
| StopCheck.WaitingExact | sylar/iomanager.cpp:154-347 | who waits after a run: exactly whoever waited before or was announced in it, and was not woken or taken back since |
| StopCheck.PassedOver | sylar/iomanager.cpp:378-391 | from every state with one active fiber there is a run in which it is passed over |
| StopCheck.OneWorkerExact | sylar/iomanager.cpp:378-391 | with one worker, and no other thread registering, the check is exact |
| Timers.LowerBound | sylar/timer.cpp:9-28 | everything before the result is below the key, the result is not |
| Timers.InsertOrdered | sylar/timer.cpp:106-119 | inserting keeps the strict order and adds exactly the timer |
| Timers.FindExact | sylar/timer.cpp:146-157 | a search by the timer's present key finds it exactly when it is in the set |
| Timers.EraseExact | sylar/timer.cpp:146-157 | deleting keeps the order and removes exactly the timer, present or not |
| Timers.AddValid | sylar/timer.cpp:106-128 | the new timer is due one period from now, no other timer changes, and onTimerInsertedAtFront is raised exactly when it is ahead of all others and nothing was raised since the last getNextTimer |
| Timers.CancelValid | sylar/timer.cpp:46-55 | the timer is out of the set and has no callback, its key untouched while it was in |
| Timers.RefreshValid | sylar/timer.cpp:57-69 | the timer is due one period from now, or out of the set when it has no callback |
| Timers.ResetValid | sylar/timer.cpp:71-95 | new period and deadline, uint64_t wrap-around included, and the timer is in the set even without a callback; a reset to the same period not from now changes nothing |
| Timers.DueCountUnique | sylar/timer.cpp:195-206 | a prefix of due timers ending at one that is not due is all of the due prefix |
| Timers.NextTimerExact | sylar/timer.cpp:159-178 | the first member of the set has the earliest deadline of all, so the delay computed from it is the delay to the earliest |
| Timers.ListExpiredExact | sylar/timer.cpp:180-241 | taken out are exactly the due timers, or all after a rollover, in deadline order; afterwards the set is the rest plus the recurring ones at now + period, strictly ordered, and every other timer is untouched |
| Timers.ExpiryExact | sylar/timer.cpp:180-241 | an expiry in plain numbers: taken out, in order of deadline and address, are the timers with a deadline up to now, or all when the clock went back by more than 3600000 ms, wrap-around of that subtraction included; recurring ones are due one period from now, one-shot ones lose their callback, nothing else changes; an empty set does not note the clock |
| Timers.EarlyExact | sylar/timer.cpp:231-241 | a timer is taken out before its deadline exactly when the clock went back by more than an hour, or at all from a reading below an hour |
| Timers.TimerManager.constructor | sylar/timer.cpp:97-100 | starts empty, not tickled, at the present time |
| Timers.TimerManager.AddTimer | sylar/timer.cpp:106-128 | the in-place code computes the state that AddValid describes; onTimerInsertedAtFront is raised exactly when the timer is first and nothing was raised since the last getNextTimer |
| Timers.TimerManager.DeleteTimer | sylar/timer.cpp:146-157 | the in-place code computes the state that EraseExact describes, and the answer is whether the timer was in the set |
| Timers.TimerManager.CancelTimer | sylar/timer.cpp:46-55 | the in-place code computes the state that CancelValid describes, with or without a callback before |
| Timers.TimerManager.RefreshTimer | sylar/timer.cpp:57-69 | the in-place code computes the state that RefreshValid describes, and the answer is whether there was a callback |
| Timers.TimerManager.ResetTimer | sylar/timer.cpp:71-95 | the in-place code computes the state that ResetValid describes |
| Timers.TimerManager.GetNextTimer | sylar/timer.cpp:159-178 | the delay is 0 exactly when some timer is due, otherwise no more than what is left until any deadline and equal to what is left until one of them; the largest number without timers; the flag is cleared and nothing else changes |
| Timers.TimerManager.EndOfDue | sylar/timer.cpp:200-205 | search plus loop end at the last due timer whatever the probe's address |
| Timers.TimerManager.ListExpiredCb | sylar/timer.cpp:180-229 | the in-place code computes the state that ListExpiredExact describes, whatever the probe's address, and hands out exactly the callbacks of the timers taken, in order |
| TimerRuns.NextKeeps | sylar/timer.cpp:46-241 | every operation keeps the set strictly ordered by present keys, and a callback given up is never restored |
| TimerRuns.NothingAfterCancel | sylar/timer.cpp:46-55 | over every run, a timer without a callback is never again handed out with one |
| TimerRuns.OnceOnly | sylar/timer.cpp:210-228 | over every run, whatever the clock does, a one-shot timer's callback is handed out at most once |
| TimerRuns.PeriodApart | sylar/timer.cpp:210-228 | over every run with a non-decreasing clock, hand-outs of an untouched recurring timer are at least its period apart and not before its deadline |
| TimerRuns.NextCovers | sylar/timer.cpp:106-178 | every operation keeps every poller covered: raised since its last getNextTimer, or no timer before its deadline |
| TimerRuns.NoMissedWake | sylar/iomanager.cpp:402-432 | no missed wake-up over every run, for any number of pollers, without rollover or wrap |
| TimerRuns.NoMissedWakeFromStart | sylar/timer.cpp:97-241 | the same from a new manager, whoever polls it when |
| TimerRuns.ExpireExact | sylar/timer.cpp:209-228 | a comparison of clock readings: an expiry puts no timer before the reading a poller sleeps to exactly when no re-armed deadline is before it |
| ClockSteps.RolloverExact | sylar/timer.cpp:231-241 | after a rollover, a poller with its whole delay left is in time for every timer exactly when the delay is no more than any recurring period |
| ClockSteps.TimelyKept | sylar/timer.cpp:46-241 | with a clock that does not run back and no wrap, every operation keeps: every timer was armed at a reading not after the last one |
| ClockSteps.LeftAtPoll | sylar/timer.cpp:159-178 | what a poller has left to sleep at its poll is the delay it was given |
| ClockSteps.StepBackInTime | sylar/iomanager.cpp:402-432 | after a step back of the clock by any amount and an expiry, what a poller has left to sleep is no more than what is left, on the new clock, until any timer |
| ClockSteps.StepBackFromStart | sylar/iomanager.cpp:402-432 | the same for every poller at the end of every run of a new manager whose clock ran forward |
| ClockSteps.TwoStepsBackLate | sylar/iomanager.cpp:410-419 | for every step back before the poll and every rollover after it, a run from a new manager in which epoll_wait ends after the re-armed timer is due and nobody was woken |
| TimerRuns.WaitsInTime | sylar/iomanager.cpp:410-419 | the computed epoll timeout wakes the poller by the earliest deadline exactly when bit 31 of the delay is clear |
| TimerRuns.WaitTimeExact | sylar/iomanager.cpp:410-419 | the epoll timeout in numbers: 3000 without timers, the low 32 bits of the delay but at most 3000 when bit 31 is clear, negative otherwise |
| TimerRuns.LongTimerSleepsForEver | sylar/iomanager.cpp:410-419 | one timer of 2^31 milliseconds in a new manager makes the timeout negative |
| DoIo.NextKept | sylar/hook.cpp:110-157 | every step, epoll_ctl refusing a registration or a callback's cancelEvent included, keeps: a parked call is registered or queued, once and not both; parks and wakes match; ETIMEDOUT only after a timer of the call expired; covered exactly when queued or neither late nor refused |
| DoIo.RunKept | sylar/hook.cpp:84-157 | the same over every run, with any number of workers and calls, sharing descriptors or not |
| DoIoHistory.CallHistory | sylar/hook.cpp:84-135 | over every run, a call under way has the descriptor, event and timeout it began with, and its flag is set exactly when a timer callback of it has run |
| DoIoHistory.CallbackHistory | sylar/hook.cpp:124-133 | over every run, a callback of a call runs only after a timer of that call expired |
| DoIoHistory.CallbacksMatched | sylar/timer.cpp:210-228 | over every run, every expiry of a timer of a call is matched by exactly one callback of it, run or still queued |
| DoIoHistory.ExpiredExact | sylar/hook.cpp:124-133 | over every run, the record that a timer of the call has expired says exactly that an expiry step of one of its timers came before |
| DoIoHistory.TimeoutExact | sylar/hook.cpp:135-157 | over every run, a resumed call ends with ETIMEDOUT exactly when a timer callback of it ran before and goes on otherwise; a call that returns or that epoll_ctl refuses ends without; no other step ends a call |
| DoIoHistory.TimedOutHistory | sylar/hook.cpp:110-157 | over every run, a call that ended with ETIMEDOUT began with a timeout, added a timer, the timer expired, its callback ran and the call was resumed, in this order |
| DoIoHistory.YieldsMatched | sylar/hook.cpp:135-153 | over every run, a call has been resumed as often as it has yielded, or once less while it is parked |
| DoIo.ParkExact | sylar/hook.cpp:115-139 | a call with a timeout parks covered exactly when its flag is still clear |
| DoIo.OneWorkerCovered | sylar/hook.cpp:110-157 | over every run of one worker, a call parked with a timeout has a live timer, a queued callback of one, or its own queue entry, exactly unless epoll_ctl refused its callback |
| DoIo.LostExact | sylar/iomanager.cpp:238-245 | a call is lost in one kind of step only: its callback finds it registered and unflagged, and epoll_ctl refuses |
| DoIo.OneWorkerFromStart | sylar/hook.cpp:110-157 | from the empty reactor, with one worker and no callback refused, every call parked with a timeout is covered at the end of every run, and every ETIMEDOUT had an expired timer |
| DoIo.RefusedUncovers | sylar/hook.cpp:125-132 | from every state with a blocking call there is a one-worker run with a refused callback after which it is parked with nothing to wake it |
| DoIo.TwoWorkersUncovered | sylar/hook.cpp:118-139 | from every state with a blocking call there is a two-worker run after which it is parked with nothing to wake it |
| DoIo.StuckStays | sylar/hook.cpp:118-139 | such a call stays parked until its own event is reported or another call for the same event interferes |
| Reactors.BitIffSlot | sylar/iomanager.cpp:110-347 | an event bit is set exactly when a do_io call waits for that event |
| Reactors.StepLinks | sylar/hook.cpp:84-157 | every step of the reactor on the real event table and timer set is a run of the do_io machine and keeps the two sides linked: waiting registrations are the slots, timers in the set are the live timers with their callbacks |
| Reactors.RunProjects | sylar/hook.cpp:84-157 | every run of the reactor is a run of the do_io machine to the same state |
| Reactors.TimerStands | sylar/timer.cpp:159-178 | a live timer of a call is in the set with the call's callback, and no poller is told to sleep past it |
| Reactors.TableHolds | sylar/iomanager.cpp:154-172 | a registered call's fiber waits in the event context of its descriptor |
| Reactors.ReactorCovered | sylar/hook.cpp:110-157 | over every run of one worker from the start with no callback refused: a call parked with a timeout has its fiber queued, its timer callback queued, or a timer in the set that no poller is told to sleep past; and unless queued it waits in its event context |
| PercentCodec.UrlEncode | sylar/util.cpp:191-220 | the lazily copying loop equals the per-byte definition |
| PercentCodec.UrlDecode | sylar/util.cpp:222-251 | the lazily copying loop with its skip equals the per-byte definition |
| PercentCodec.HexOf | sylar/util.cpp:145-185 | the digit written for a nibble is a hexadecimal digit that reads back as the nibble |
| PercentCodec.HexExact | sylar/util.cpp:145-189 | a hexadecimal digit of either case stands for its place in 0123456789abcdef |
| PercentCodec.EncodeExact | sylar/util.cpp:191-220 | what is written for one byte, in characters: itself when it is a letter, a digit or one of the few that are let through, a plus sign for a space, or a percent sign and two upper-case digits |
| PercentCodec.DecodeExact | sylar/util.cpp:222-251 | what is read at one place, in characters: a space for a plus sign, the byte of two digits after a percent sign, or the byte itself |
| PercentCodec.DecodeByte | sylar/util.cpp:191-251 | what decoding makes of one encoded byte, whatever follows |
| PercentCodec.DecodeEncode | sylar/util.cpp:191-251 | the exact result of decoding an encoding, for each combination of flags |
| PercentCodec.RoundTrip | sylar/util.cpp:191-251 | decoding undoes encoding for every byte string if and only if the decoder turns plus signs back or there was no space to write one for |
| PercentCodec.EncodeAlphabet | sylar/util.cpp:145-220 | only unreserved bytes, percent and plus signs are written |
| QueryParams.ParseParams | sylar/http/http.cpp:217-233 | the loop inserts exactly the pairs of the string, in order, an existing entry winning |
| QueryParams.PairsShift | sylar/http/http.cpp:217-233 | parsing from a position equals parsing the rest of the string |
| QueryParams.PairsExact | sylar/http/http.cpp:217-233 | a key up to the first equals sign, a value up to the next ampersand or the end, decoded with plus signs for spaces, then the pairs of the rest |
| QueryParams.NoEquals | sylar/http/http.cpp:217-233 | without an equals sign there are no pairs |
| QueryParams.PairsJoin | sylar/http/http.cpp:217-233 | pairs joined with '&' and parsed come back exactly, if and only if no key contains '=' |
| QueryParams.ValueComesBack | sylar/http/http.cpp:79-85 | with keys distinct ignoring case every value is found again |
| QueryParams.LookupFirst | sylar/http/http.cpp:79-85 | a lookup answers with what was there before, else with the first pair under the key, letters of either case alike, else with the default |
| QueryParams.SameEntry | sylar/http/http.cpp:53-56 | neither of two keys is less than the other exactly when they agree up to the first NUL with letters of either case alike |
| QueryParams.FoldExact | sylar/http/http.cpp:53-56 | two keys are one entry exactly when they are equally long before the first NUL and differ there at most in the case of letters |
| QueryParams.LessTransitive | sylar/http/http.cpp:53-56 | the comparison is transitive, also where one side is only not greater, so the map's order is strict and consistent |
| QueryParams.QueryBeatsBody | sylar/http/http.cpp:79-85 | a key in the query is never answered from the body |
| QueryParams.Request.InitQueryParam | sylar/http/http.cpp:212-237 | the query is parsed once |
| QueryParams.Request.InitBodyParam | sylar/http/http.cpp:239-250 | the body is parsed once and only for form content |
| QueryParams.Request.GetParam | sylar/http/http.cpp:79-85 | everything unparsed is parsed, query first; the answer is the first match, of a new request the first in the query, else the first in the form body, else the default; further calls change nothing |
| ChunkLines.ScanPrefix | sylar/http/httpclient_parser.rl:150-156 | a line that is decided, by its end or an error, is decided the same whatever follows; a finished one, extensions included, is used to its end |
| ChunkGrammar.GrammarExact | sylar/http/httpclient_parser.rl:150-156 | the machine accepts exactly the lines of the grammar: hexadecimal digits, extensions that each have a name and perhaps a value, both tokens, and a line end; the size is what the digits stand for |
| ChunkGrammar.GrammarLine | sylar/http/httpclient_parser.rl:150-156 | every such text is a line of that size |
| ChunkGrammar.TokenExact | sylar/http/httpclient_parser.rl:122-126 | which characters a token is made of |
| ChunkLines.ReadHeadLoop | sylar/http/http_connection.cpp:63-87 | the inner loop, restarted parser included, equals its recursive definition and terminates on every stream |
| ChunkedBody.ReadLeft | sylar/http/http_connection.cpp:98-107 | the loop appends exactly the missing bytes, in however many reads, or fails when the peer sends fewer |
| ChunkedBody.ReadPayload | sylar/http/http_connection.cpp:90-110 | payload and line end are taken exactly, from the buffer, the stream or both |
| ChunkedBody.ReadPayloadLoop | sylar/http/http_connection.cpp:90-110 | the two branches append exactly the payload to the body |
| ChunkedBody.RecvChunked | sylar/http/http_connection.cpp:60-111 | the nested loops, the conversion of the size to an int and every negative one included, equal the recursive definition and terminate on every finite stream |
| ChunkedBody.ContentLen | sylar/http/httpclient_parser.rl:94-97 | content_len is the size that was written exactly when that is below 2^31 |
| ChunkedBody.Reassembles | sylar/http/http_connection.cpp:60-111 | for every list of chunks up to 2^31 - 3 bytes, every leftover and every split of payload bytes across reads, the body is the concatenation of the payloads, provided each size line is in the buffer whole when first parsed |
| ChunkedBody.ChunkExact | sylar/http/http_connection.cpp:88-111 | one chunk whose line comes whole is taken right, and leaves exactly what follows it, if and only if it has at most 2^31 - 3 bytes |
| ChunkedBody.WhatIsTaken | sylar/http/http_connection.cpp:88-111 | what is taken for a chunk of any announced size: the converted number of bytes and two more, or an overflow, an exception or a closed connection, exactly when |
| ChunkedBody.WrappedSizeEnds | sylar/http/httpclient_parser.rl:94-104 | a chunk of a multiple of 2^32 bytes is taken for the last one and the body ends before it |
| ChunkedBody.SameBody | sylar/http/http_connection.cpp:60-111 | two deliveries of one message split in any two ways give the same body |
| ChunkLines.DigitsAreLine | sylar/http/httpclient_parser.rl:150-156 | any hexadecimal digits, of either case, with leading zeros, and either line end, give the number they stand for |
| ChunkLines.PrefixForgotten | sylar/http/http_parser.cpp:245-253 | a call that sees only a part of any line, extensions included, uses it up and answers nothing |
| ChunkLines.ScanFeed | sylar/http/httpclient_parser.rl:150-156 | a line feed always decides, and nothing but a line feed finishes a line |
| ChunkLines.LineReads | sylar/http/http_connection.cpp:63-87 | what the loop makes of any bytes up to a line feed in any pieces: it finishes exactly when every piece before the last is an unfinished line and the last is a line by itself, and gives that line's size |
| ChunkLines.LineExact | sylar/http/http_parser.cpp:245-253 | any line, extensions included, is read right if and only if every piece before the last is an unfinished line and the last is by itself a line of the same size |
| ChunkLines.ExtensionReadsRight | sylar/http/http_parser.cpp:245-253 | a line with an extension that is read right although more than leading zeros was cut off |
| ChunkLines.HeadExact | sylar/http/http_parser.cpp:245-253 | for lines without extensions: a size is read right if and only if nothing but leading zeros was used up before the rest of its line came whole; without leading zeros, if and only if the line was whole at the first parse |
| ChunkLines.HeadReads | sylar/http/http_parser.cpp:245-253 | what the loop makes of a line of digits that comes in any pieces: the number of the digits left when the rest came whole, or an error when no digit was left |
| ChunkLines.SuffixValue | sylar/http/httpclient_parser.rl:94-104 | cutting digits off the front of a number keeps it exactly when they are zeros |
| ChunkLines.TenReadsAsZero | sylar/http/http_parser.cpp:245-253 | a 10 split after the 1 is read as 0 |
| ChunkedBody.RecvFixed | sylar/http/http_connection.cpp:112-133 | the branch succeeds exactly when the leftover is enough, or the rest comes and its length, as the int that readFixSize returns, is positive; the body is then exactly the first content-length bytes |
| ChunkedBody.ServedExact | sylar/http/http_connection.cpp:125-131 | below 2^31 missing bytes success is just whether they come; at 2^31, and at every multiple of 2^32, it fails although they do |
| ChunkedBody.ReadFixSize | sylar/stream.cpp:5-17 | the int returned is the truncated length when everything came and not positive otherwise; the bytes are appended exactly |

## Left out

- Context switching, stacks, pthread wrappers and thread-local pointers: a switch is a step of the state machines.
- The gap between setting HOLD and saving the context in `Fiber::YieldToHold`, and the gap between the two lock sections of `listExpiredCb`: each is one atomic step here.
- `Scheduler` and `Fiber` as objects: the scheduler is a state machine over the steps of `run()`, because what is claimed is about interleavings of several workers; `call`/`back` of the root fiber and `switchTo` are not modelled.
- The event contexts and timers are values in a sequence and a map held by the manager object, so aliasing of context pointers held by the kernel is not modelled; a descriptor closed without cancelAll is not either.
- IOManagers.IOManager.HandleReport: models one report; the idle loop around it is the runs of EventTable.
- StopCheck.StopExact: covers waiters; a timer callback between listExpiredCb and its schedule is held by a worker that has not left and is not counted.
- DoIo.RunKept: descriptors above MAX_FD, for which addEvent registers nothing, and a second waiter for the same event, for which addEvent asserts, are outside its steps. A report whose epoll_ctl fails in the idle loop is a step not taken.
- ByteArrays.ByteArray.GetReadBuffers: the overload with an explicit position is not modelled; it clamps against the wrong offset.
- TypedAccess.WriteItem: string lengths that do not fit their prefix are excluded; `writeToFile`, `readFromFile` and `toHexString` are not modelled.
- ChunkedBody.RecvChunked: the received bytes are a sequence, not an array updated in place; what the program does after an int overflow is not described.
- ChunkLines.ScanPrefix: a line that starts like a status line is an error at once; the generated machine would go on to parse a response there.
- ChunkedBody.RecvFixed: running out of memory for the body is not modelled.
- SocketStreams.ReadInto: one recv brings less than 2^31 bytes, as the kernel guarantees.
- Header parsing across reads, trailers after the last chunk, and content decoding with zlib.
- QueryParams.Request.InitBodyParam: the content-type test is an argument; cookies, which trim their keys, are not modelled.
- TimerRuns.NextCovers: being woken means that onTimerInsertedAtFront was raised; that one byte in the pipe reaches every sleeping poller is not modelled.
- TimerRuns.NoMissedWake: compares clock readings, for clocks without rollover and additions without wrap; a forward jump of the clock, after which a poller's delay is longer than what is left on the new clock, is not covered. Steps back are in ClockSteps.
- Reactors.ReactorCovered: all registrations and timers are those of do_io calls, and the order of the run queue is not modelled there.
- Addresses, sockets, servers, servlets, connection pools, logging and configuration.
