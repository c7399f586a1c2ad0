# Reference counting, looper, log ring, Unicode, parcels and vectors

This project models five components of the repository and proves what each is for.

* **Reference counting** (`RefBase`, `RefBaseCalls`, `RefBaseWitness`, `SmartPointers`). `RefBase` is a machine of any number of
  threads whose steps are the atomic accesses of `RefBase.cpp`: every `fetch_add`, `fetch_sub`,
  load and `compare_exchange_weak`, with its spurious failures, is one step. Clients keep the
  discipline of `RefBase.MayBegin`: a strong reference is copied by a holder, or first made by the
  creator through the raw pointer; a creator that relies on that pointer keeps a weak reference
  once it has published one, and nobody else promotes meanwhile; a creator that gives the pointer
  up leaves any number of threads to race in `attemptIncStrong`. Fewer than 2^28 strong units
  exist at once. Theorems are about every state of every run; `RefBaseCalls` follows whole calls
  through a run, from the first access to the return; `RefBaseWitness` has a run that leaks. `SmartPointers` has the same calls as methods of an object, run to their end, and `sp`
  and `wp` on top.
* **The looper** (`Looper`, `LooperHistory`, `LooperQueue`, `LooperStorage`, `LooperWitness`, `Timers`). `Looper` interleaves one poll thread and any
  number of senders at every lock, unlock, clock reading, eventfd access and wait; `LooperHistory`
  ties what a run does to what its callers asked for. `LooperQueue`
  has the queue as the fields of an object with the two loops over it. Both take messages off an
  ideal sequence. The source takes them off a `Vector<MessageEnvelope>`, which is not one:
  `LooperStorage` does every step of a run to a vector of `VectorStorage` and proves when the two
  agree, and `LooperWitness` has runs in which they do not, or in which a message is slept on.
* **The log ring** (`Ring`, `LogRuns`, `FixedUpRuns`, `Logger`). `Ring` is the byte arithmetic around the wrap,
  `LogRuns` whole runs with many readers, `Logger` the device with its buffer changed in place.
  The driver does not call `fix_up_readers` (it is commented out at
  common/drivers/staging/log/logger.c:327), so runs must not lap a reader; the function is
  proved by itself, and `FixedUpRuns` shows what runs with the call would give readers that may be
  lapped. The driver does not compare a record with the size of the ring either (its rings are as
  small as 1024 bytes, payloads as large as 4096): `Logger` writes every payload that stays inside
  the buffer, even over its own record, and runs keep to records smaller than the ring.
* **Unicode** (`Unicode`, `UnicodeStrings`, `UnicodeConverters`, `UnicodeWalk`). Code points and
  whole strings as functions on bit-vectors, with the laws; the loops of the converters proved
  against them; and the second UTF-8 decoder.
* **Growable storage** (`ParcelData`, `ParcelStorage`, `ParcelProcess`; `VectorData`,
  `VectorStorage`, `SortedVector`). Buffers changed in place, proved to be the sequences that they
  stand for across every reallocation, with the global count of parcel memory (`Sums` adds up
  shares) and the lifetimes of vector elements.

`Chains` is the induction along a run that several modules share.

Memory that an allocation, a lock, a clock, a virtual method, a copy from or to user space, or
another thread may answer differently is a parameter or an action of the model. Preconditions that
the source states only in `LOGF_ASSERT`, which logs and goes on, are `requires` clauses.

## What the code does not do

* The looper loses messages. Taking the head off its vector goes wrong exactly if three or more
  messages are queued and the rest is not less than half the capacity
  (`LooperStorage.HeadRemoval`), which in a run is: exactly if three or more are queued
  (`LooperStorage.RemovalsGoWell`, `LooperStorage.Replay`). Of three, the second is lost,
  and behind the third a dead copy of it is queued (`LooperStorage.ThirdOverSecond`); `LooperWitness.TakesFromThree` is a run
  that gets there. `EveryMessageOnce`, `PriorMessagesFirst` and the contracts of `LooperQueue` hold
  of an ideal queue.
* The reason is the right-shifting move loop, which goes wrong for a destination at or below an
  overlapping source (`VectorData.MoveLoopWorks`). `_shrink` calls it so when more elements follow
  than are removed and the storage is kept (`VectorStorage.Vector.Shrink` and `RemoveItemsAt` have
  the exact condition), `_grow` when no items are inserted (`Grow` and `InsertAt`). Elements that
  are trivially destroyed survive it only if they repeat at the distance moved
  (`VectorData.TrivialLoopWorks`).
* A payload overruns the log ring exactly if it is longer than 2 * size - w', w' being the offset
  after the header (`Ring.PayloadBound`); 4096 bytes overrun even an empty ring of
  1024 (`Ring.SmallRingOverruns`).
* `Parcel::write` reports success without writing when growing would pass INT32_MAX
  (`ParcelData.SilentFailure` gives the exact condition, `ParcelData.SilentFailureHappens` an input).
* A parcel whose position is beyond its size is grown by its size alone, and may be written outside
  its buffer (`ParcelData.InBoundsExactly` gives the exact condition, `ParcelData.OutOfBoundsHappens`
  an input).
* `ipcSetDataReference` without a release function counts the buffer as the parcel's own without
  adding it to the global size (`ParcelProcess.Process.Do`).
* `VectorImpl::insertAt` answers NO_MEMORY for an insertion of no items at the end of full storage
  (`VectorStorage.Vector.InsertAt`, `VectorStorage.NothingInserted`).
* A head more than INT_MAX - 1 milliseconds away leaves an unbounded poll unbounded
  (`Looper.FarHeadSleepsForever`, `LooperWitness.SleepsOnFarHead`).
* A strong-lifetime object that was only ever weakly referenced is leaked (`RefBase.NothingLeaks`,
  `RefBaseWitness.LeakHappens`).
* `copy_type` copies n bytes, not n elements, for trivially copied types
  (system/core/include/utils/TypeHelpers.h:105-110). `_do_copy` does not call it for those.
* The header of the Unicode functions says that `utf8_to_utf16_length` never reads past the string
  and that `utf32_to_utf8` writes no terminator; with `overreadIsFatal` the code logs and reads on,
  and it does write a terminator. The model follows the code.
* For the leading bytes 0xFE and 0xFF the last shift of `utf32_at_internal` exceeds the width of its
  operand, which C++ leaves undefined; they are excluded there.

## Model

| member | source | states |
|---|---|---|
| RefBase.MemorySafety | system/core/libutils/RefBase.cpp:31-252 | in every run of any number of threads no access, those of `extendObjectLifetime` included, touches the `weakref_impl` after it was freed, or the object after it ended |
| RefBase.AtMostOnce | system/core/libutils/RefBase.cpp:37-66 | in every run the bias is removed, `onFirstRef` is called, the object ends and the impl is freed each at most once |
| RefBase.CountersCountReferences | system/core/libutils/RefBase.cpp:120-134 | in every reachable state `mWeak` is the number of references and calls in flight that own a weak unit, `mStrong` is the strong units plus the bias (2^28 until it is removed), and neither leaves its `int32_t` |
| RefBase.FreshIffNeverTaken | system/core/libutils/RefBase.cpp:37-46 | `mStrong` has its initial value exactly as long as no strong reference was ever taken, so a released count is never mistaken for a fresh one |
| RefBase.StrongModeLifetime | system/core/libutils/RefBase.cpp:58-68 | in the strong lifetime the object starts to end exactly when the last strong unit goes, and the impl is freed strictly after that, with no weak unit left |
| RefBase.WeakModeLifetime | system/core/libutils/RefBase.cpp:151-157 | in the weak lifetime object and impl start to go together and, once the creator no longer relies on the raw pointer, exactly when `mWeak` is 0 |
| RefBase.NothingLeaks | system/core/libutils/RefBase.cpp:137-157 | when every reference is gone and every call has returned both allocations are gone, except exactly for a strong-lifetime object that was never strongly referenced |
| RefBaseWitness.LeakHappens | system/core/libutils/RefBase.cpp:137-150 | that exception happens: a run of one creator ends with nothing referring to the object, every call returned, and neither allocation freed |
| RefBase.PromotionOutcome | system/core/libutils/RefBase.cpp:160-230 | every access that ends an `attemptIncStrong` ends it with one more strong reference on an object that is not ending, or with a refusal by the object (weak lifetime), or with the count seen at zero (strong lifetime); for what the whole call did before see `RefBaseCalls.PromotionCall` |
| RefBaseCalls.PromotionCall | system/core/libutils/RefBase.cpp:160-230 | in every run, a whole call returns true exactly if it won an exchange from a count that others kept positive, or in the strong lifetime from the initial one, or in the weak lifetime was answered true by the object; exactly then it added a strong reference, and otherwise it never changed `mStrong`; it removes the bias exactly if it added the first, calls `onLastStrongRef` exactly if, after the object agreed, the count had others, and never calls `onFirstRef` |
| RefBaseCalls.DeclinedPromotion | system/core/libutils/RefBase.cpp:206-209 | an attempt whose question is answered false fails, and none of its accesses changes `mStrong` or the client's strong references, whatever other threads do |
| RefBaseCalls.ExchangeIsExact | system/core/libutils/RefBase.cpp:168-248 | each of the exchange loops adds one exactly if the count is the one it read and the exchange does not fail spuriously, and otherwise goes on with the count as it is, while that is positive |
| RefBaseCalls.IncStrongCalls | system/core/libutils/RefBase.cpp:31-49 | a whole `incStrong` adds a strong reference, and calls `onFirstRef` and removes the bias exactly if it was the first |
| RefBaseCalls.DecStrongCalls | system/core/libutils/RefBase.cpp:51-68 | a whole `decStrong` calls `onLastStrongRef` exactly if it took the count to 0, and ends the object exactly then (strong lifetime) or exactly if it took the weak count to 0, after `onLastWeakRef` (weak lifetime) |
| RefBaseCalls.DecWeakCalls | system/core/libutils/RefBase.cpp:128-158 | a whole `decWeak` calls `onLastWeakRef`, and ends the object, exactly if it took the weak count to 0 in the weak lifetime |
| RefBase.LostStaysLost | system/core/libutils/RefBase.cpp:178-200 | a strong-lifetime object whose count was seen at zero never comes back |
| RefBase.ProbeSucceeds | system/core/libutils/RefBase.cpp:232-252 | `attemptIncWeak` by a caller that holds a reference never fails, however often its exchange is beaten |
| RefBase.StepInv | system/core/libutils/RefBase.cpp:31-252 | every enabled step of every thread keeps the invariant that equates counters with units and gives each one-time duty to one thread |
| RefBase.PromoteCasFirstKeeps | system/core/libutils/RefBase.cpp:186-200 | the racing exchange from the initial value keeps the invariant: one thread gets the duty to remove the bias |
| SmartPointers.Counted.IncStrong | system/core/libutils/RefBase.cpp:31-49 | uninterrupted, adds a strong and a weak unit, removes the bias the first time, and calls `onFirstRef` exactly then |
| SmartPointers.Counted.DecStrong | system/core/libutils/RefBase.cpp:51-68 | gives back both units; the object then lives exactly if a reference that keeps it is left, by its lifetime mode |
| SmartPointers.Counted.DecWeak | system/core/libutils/RefBase.cpp:128-158 | gives back a weak unit; frees the impl, or the object with it, exactly with the last one, and never twice |
| SmartPointers.Counted.AttemptIncStrong | system/core/libutils/RefBase.cpp:160-230 | succeeds exactly if the object lives (strong lifetime), or has a strong reference or agrees to be revived (weak lifetime); a refusal leaves every count as it was |
| SmartPointers.PointingAfterUpdate | system/core/include/utils/StrongPointer.h:69-113 | reassigning one pointer takes one from the number of pointers to the old object and adds one to that of the new |
| SmartPointers.Pointers.LivesWhileHeld | system/core/include/utils/StrongPointer.h:41-113 | an object that some `sp` points to (or, in the weak lifetime, a `wp`) lives; a strongly referenced one of strong lifetime lives no longer than that |
| SmartPointers.Pointers.ConstructSp | system/core/include/utils/StrongPointer.h:41-59 | after construction every object is counted by exactly the pointers to it |
| SmartPointers.Pointers.AssignSp | system/core/include/utils/StrongPointer.h:85-113 | assignment keeps every count equal to the number of pointers, also from itself, and ends the old object exactly if nothing else holds it |
| SmartPointers.Pointers.ClearSp | system/core/include/utils/StrongPointer.h:61-78 | `clear` and the destructor end the object exactly if nothing else holds it |
| SmartPointers.Pointers.ConstructWp | system/core/include/utils/RefBase.h:120-135 | a `wp` from an object adds one weak reference to it |
| SmartPointers.Pointers.CopyWp | system/core/include/utils/RefBase.h:126-130 | copying a `wp` is safe even if the object is gone |
| SmartPointers.Pointers.DestroyWp | system/core/include/utils/RefBase.h:137-142 | the object ends with a `wp` exactly in the weak lifetime when nothing else points to it |
| SmartPointers.Pointers.Promote | system/core/include/utils/RefBase.h:144-151 | the result points to the object exactly if it lives or, in the weak lifetime, may be revived, any number of times; otherwise it is null and nothing changed |
| Looper.NoLostWakeUp | system/core/libutils/Looper.cpp:183-212 | in every interleaving, whenever the poll thread is at or in `epoll_wait`: a wake event is pending, or a sender that inserted at index 0 has yet to call `wake()`, or the cached uptime is that of the head |
| Looper.WakerDelivers | system/core/libutils/Looper.cpp:413-420 | a sender that owes a wake-up is never blocked and delivers it within two steps of its own |
| LooperHistory.WakeEndsWait | system/core/libutils/Looper.cpp:350-372 | after a call of `wake()` every wait can end, until a wait that an event ended is handled |
| LooperHistory.ConsumedByItsWait | system/core/libutils/Looper.cpp:206-245 | a wake event is taken exactly by handling a wait that an event ended; a wait that timed out or failed leaves it pending |
| LooperHistory.WakesForNewHead | system/core/libutils/Looper.cpp:402-420 | a sender goes on to wake the poll thread exactly if its message became the head and no handler is being called when it leaves the lock |
| Looper.EveryMessageOnce | system/core/libutils/Looper.cpp:268-293 | in every run, with the queue an ideal sequence that loses exactly its head, every message ever inserted is queued, in the hands of the poll thread, or handled: exactly one of them, once (`LooperHistory.SentAsAsked` says which messages those are, `LooperStorage.Replay` when the vector of the source is that sequence) |
| LooperHistory.SentAsAsked | system/core/libutils/Looper.cpp:394-411 | in every run the messages inserted are those that were sent: each has the uptime and the contents that a send of its own asked for, and every send whose sender has got past the insertion has one |
| LooperHistory.CalledAsAsked | system/core/libutils/Looper.cpp:269-284 | no handler is called before the uptime that an earlier send asked for, and it is called with what that send gave |
| LooperHistory.OneCallForEachSend | system/core/libutils/Looper.cpp:268-284 | different calls are for different sends |
| LooperHistory.EveryCallRecorded | system/core/libutils/Looper.cpp:283-284 | the handler calls of a run are, in order, those of the steps that make one, with the message in hand and the time of the step |
| Looper.NeverEarly | system/core/libutils/Looper.cpp:269-272 | no handler is called before the uptime of its message |
| Looper.PriorMessagesFirst | system/core/libutils/Looper.cpp:402-411 | with the queue that ideal sequence, when a message is handled every message inserted earlier and due no later was handled before (for the vector see `LooperStorage.Replay`) |
| Looper.SleepFindsHeadDue | system/core/libutils/Looper.cpp:183-202 | a sleep that runs out its message-derived timeout finds the head due |
| Looper.DueHeadIsTaken | system/core/libutils/Looper.cpp:268-278 | a due head stays due until the dispatch loop takes it, step by step |
| Looper.SleepLeadsToCall | system/core/libutils/Looper.cpp:194-285 | in every run, four steps of the poll thread after a sleep ran out its message-derived timeout, whatever others do meanwhile, it is about to call a message that is due |
| Looper.SleepEndsAtHead | system/core/libutils/Looper.cpp:183-192 | with nothing pending, the timeout of a wait ends less than a millisecond after the head is due, later than that by as much as the wait began after the timeout was computed; exactly for heads at most INT_MAX - 1 milliseconds away, beyond which the head has no influence; and never later than the caller asked |
| LooperHistory.SleepsForTheLeast | system/core/libutils/Looper.cpp:183-192 | in every run the timeout of a sleep is the smaller of what was asked and the milliseconds that cover the time to the cached uptime, a negative one being no bound; it is what was asked if no uptime is cached or the time is too long; so the wait lasts no longer than asked |
| LooperHistory.SleepsAsAsked | system/core/libutils/Looper.cpp:179-202 | the bound, the time and the cached uptime of a sleep are those of a call of `pollInner`, and its start is that of the wait |
| LooperHistory.WaitsEnd | system/core/libutils/Looper.cpp:201-234 | a wait can give up exactly when it has lasted for its timeout, at the latest after the time asked, and an error may end it at any time |
| Looper.FarHeadSleepsForever | system/core/libutils/Looper.cpp:187-190 | an unbounded wait stays unbounded exactly when the head is further away than that |
| LooperWitness.SleepsOnFarHead | system/core/libutils/Looper.cpp:183-202 | a run in which the poll thread sleeps without a timeout though a message with an uptime is queued, and nothing will wake it |
| Looper.InsertIndex | system/core/libutils/Looper.cpp:405-409 | the scan stops at the first message due later; all before it are due no later |
| Looper.InsertKeepsSorted | system/core/libutils/Looper.cpp:406-411 | insertion there keeps the queue ordered by uptime, then by order of insertion |
| Looper.StepKeepsProtocol | system/core/libutils/Looper.cpp:267-294 | every step of poll thread, senders and clock keeps the wake-up, lock and cache invariants |
| Looper.StepKeepsDelivery | system/core/libutils/Looper.cpp:268-293 | every step keeps the accounting and the order of messages, with the queue an ideal sequence (for the vector see `LooperStorage.Replay`) |
| LooperQueue.MessageLoop.SendMessageAtTime | system/core/libutils/Looper.cpp:394-421 | inserts behind every message due no later, and wakes exactly if the message became the head outside dispatching |
| LooperQueue.MessageLoop.DispatchDue | system/core/libutils/Looper.cpp:267-294 | with the queue an ideal sequence: what was queued or inserted meanwhile is called once or still queued, and what was inserted is what the handlers called send, in order; every call is at or after the uptime of its message, none before a prior one, nothing due is left, and the cached uptime is that of the head |
| LooperQueue.MessageLoop.DispatchHead | system/core/libutils/Looper.cpp:272-288 | one round of the loop, with the queue an ideal sequence: the head is called and gone from the queue, with everything its handler sent accounted for |
| LooperQueue.InsertionAccounted | system/core/libutils/Looper.cpp:410-411 | an insertion adds the message to what is accounted for and nothing else |
| LooperQueue.InsertionIsPriorToNone | system/core/libutils/Looper.cpp:402-411 | a message inserted later is never prior to one already called |
| LooperStorage.HeadRemoval | system/core/libutils/VectorImpl.cpp:266-328 | taking the head off the vector that holds the queue leaves the other messages exactly if at most two are queued, or the rest is less than half the capacity |
| LooperStorage.ThirdOverSecond | system/core/include/utils/TypeHelpers.h:153-171 | with three messages in the first storage the third is constructed over the living second: the second is lost, the third moved to the head, and what stays behind it is dead |
| LooperStorage.ThreeMessages | system/core/libutils/Looper.cpp:272-276 | so three messages pushed onto a new vector, the head taken: an object was constructed over a living one |
| LooperStorage.StorageIsSmall | system/core/libutils/VectorImpl.cpp:169-198 | while every removal went well the storage of the queue is never more than half as large again as the queue, or four |
| LooperStorage.RemovalsGoWell | system/core/include/utils/Looper.h:128-131 | so in every run all removals go well exactly if no message is taken while three or more are queued |
| LooperStorage.Replay | system/core/libutils/Looper.cpp:268-278 | in every run, with the source's calls on a real vector: it holds the ideal queue after them exactly if no message was taken while three or more were queued |
| LooperWitness.TakesFromThree | system/core/libutils/Looper.cpp:268-276 | a run that takes a message while three are queued: three messages sent before the poll thread wakes up |
| Timers.TimeoutCoversDelay | system/core/libutils/Timers.cpp:19-39 | the result is the delay rounded up to milliseconds, 0 exactly when it is over, and -1 exactly beyond INT_MAX - 1 milliseconds, without overflow |
| Timers.NonNegativeTimesFit | system/core/libutils/Timers.cpp:22-24 | the subtraction does not overflow for times that are not negative |
| Ring.MaskIsMod | common/drivers/staging/log/logger.c:71-73 | `n & (size - 1)` is `n` modulo the size, for a size that is a power of two |
| Ring.PutAppends | common/drivers/staging/log/logger.c:329-351 | a write that does not reach a reader's offset appends exactly its bytes to what that reader can read, wherever it wraps |
| Ring.PutPastEnd | common/drivers/staging/log/logger.c:343-350 | bytes stored past a write offset that does not move are not readable |
| Ring.PayloadBound | common/drivers/staging/log/logger.c:337-345 | with the payload starting at `start` both of its copies stay inside the buffer exactly if it has at most 2 * size - start bytes |
| Ring.SmallRingOverruns | common/drivers/staging/log/logger.c:337-345 | so the longest payload, 4096 bytes, runs over an empty ring of 1024 bytes |
| Ring.PouredIsPut | common/drivers/staging/log/logger.c:337-345 | a payload no longer than the buffer is stored around the wrap |
| Ring.PouredAt | common/drivers/staging/log/logger.c:337-345 | wherever both copies stay inside, each byte of the buffer is the last of those stored there, or stays |
| Ring.GetTakes | common/drivers/staging/log/logger.c:146-163 | reading `n` bytes leaves exactly the rest to read |
| Ring.FirstEntry | common/drivers/staging/log/logger.c:79-93 | the entry at a reader's offset is the first of the whole records it can read, in size and in bytes, even if its header wraps |
| Ring.SkipDrops | common/drivers/staging/log/logger.c:240-250 | `get_next_entry` drops the fewest whole records that make up `len` bytes, and no more than there are |
| Ring.BetweenIsAround | common/drivers/staging/log/logger.c:260-272 | `is_between` tells whether `c` is met after `a` no later than `b` going round; always if `a` is `b` |
| Ring.FixUpIsSafe | common/drivers/staging/log/logger.c:274-287 | records up to half the ring: after `fix_up_readers` and the write, the head and each reader have the surviving records and then the new one to read, whole; nothing was dropped that the write would not reach, and then the fewest records that make up its length |
| LogRuns.Fifo | common/drivers/staging/log/logger.c:133-166 | in every run of writes, opens, closes and reads in which no reader is lapped, each reader was given the first of the accepted records, in order and byte for byte, and all of them exactly when it has nothing left to read |
| LogRuns.ReaderGetsData | common/drivers/staging/log/logger.c:133-351 | in every such run each reader was given the data of the first of the writes that had some and whose copies worked, cut at 4096 bytes, in order, and all of it exactly when it has nothing left to read |
| LogRuns.ReadGivesNext | common/drivers/staging/log/logger.c:202-217 | in every such run a read gives the next record, or -EINVAL for a shorter buffer, or -EFAULT for a failed copy, or -EINTR exactly if every accepted record was given |
| LogRuns.CloseFrees | common/drivers/staging/log/logger.c:427-438 | after a close the reader no longer stands in the way of a write, and log and other readers are as they were |
| LogRuns.OpensUntilFull | common/drivers/staging/log/logger.c:382-424 | in every such run the log can be opened at least until its writes have gone once round the ring |
| LogRuns.FailedWriteIsInvisible | common/drivers/staging/log/logger.c:343-350 | a write whose copy fails leaves every offset and everything readable as it was |
| LogRuns.StepKeepsInv | common/drivers/staging/log/logger.c:133-351 | every write, open, close and read keeps each reader's records and readable bytes equal to what was sent |
| LogRuns.WriteKeepsInStep | common/drivers/staging/log/logger.c:322-351 | a write, failed or not, keeps a reader that is not lapped in step with what was sent |
| LogRuns.WriteKeepsStanding | common/drivers/staging/log/logger.c:322-351 | a record that does not lap an offset leaves whatever can be read there readable, followed by the record |
| FixedUpRuns.NoTornRecords | common/drivers/staging/log/logger.c:240-287 | in every run in which each write, of records up to half the ring, is preceded by `fix_up_readers`, a reader however slow is given accepted records only, whole, in order and none twice |
| FixedUpRuns.WriteKeepsUp | common/drivers/staging/log/logger.c:274-351 | a write preceded by `fix_up_readers` keeps each reader at the start of a record, after those it was given |
| FixedUpRuns.RunInv | common/drivers/staging/log/logger.c:274-351 | so do whole runs, for the head and every reader, with the accepted records the sequence that they read from |
| LogRuns.Frame | common/drivers/staging/log/logger.c:304-320 | a record is 32 bytes of header that announce the payload, which is the data cut at 4096 bytes, and the payload |
| LogRuns.WriteAppends | common/drivers/staging/log/logger.c:302-351 | a write whose copies work appends to what is readable, from any offset it does not reach, a record that carries its data, cut at 4096 bytes, and moves the write offset past it |
| LogRuns.WriteStays | common/drivers/staging/log/logger.c:321-345 | a write of nothing changes nothing, and one whose copies fail moves no offset |
| Ring.Header | common/drivers/staging/log/logger.c:310-320 | the two length fields of a header hold the payload length and 32 in little-endian order, and the other fields follow |
| Logger.LogDevice.LoggerOffset | common/drivers/staging/log/logger.c:71-73 | the mask is the remainder |
| Logger.LogDevice.GetEntryHeader | common/drivers/staging/log/logger.c:79-93 | in place or put together from both ends, the header is the 32 bytes around the wrap |
| Logger.LogDevice.LoggerWriteIter | common/drivers/staging/log/logger.c:291-368 | for every payload whose copies stay inside the buffer: a header that announces the first 4096 bytes and as many of them as can be copied are stored, the second copy over the first if they are that long, and the write offset moves on exactly if all are; the result is 0, -EFAULT, or the length of the first copy; a record that fits the ring leaves what `AfterWrite` defines |
| Logger.LogDevice.DoReadLogToUser | common/drivers/staging/log/logger.c:133-166 | the user gets header and payload around the wrap and the reader moves past them, or -EFAULT and the reader stays |
| Logger.LogDevice.LoggerRead | common/drivers/staging/log/logger.c:169-228 | the outcome is that of `ReadAt`, and only a read that gives a record moves the reader |
| Logger.LogDevice.LoggerOpen | common/drivers/staging/log/logger.c:382-424 | a new reader stands at the head |
| Logger.LogDevice.LoggerRelease | common/drivers/staging/log/logger.c:427-438 | a closed reader leaves the list, and nothing else changes |
| Logger.LogDevice.GetNextEntry | common/drivers/staging/log/logger.c:240-250 | ends for any ring contents, at the entry boundary that `Skip` defines |
| Logger.LogDevice.FixUpReaders | common/drivers/staging/log/logger.c:274-287 | the head and every reader's offset become what `FixedUp` defines |
| Logger.PutTwice | common/drivers/staging/log/logger.c:329-345 | storing header and payload one after the other stores the record |
| Unicode.Utf8Length | system/core/libutils/Unicode.cpp:74-96 | 0 exactly for what is not a Unicode scalar value, and at most 4 |
| Unicode.CodepointLenIsLeadLen | system/core/libutils/Unicode.cpp:443-446 | the packed constant holds the lengths of all leading bytes |
| Unicode.EncodedDecodes | system/core/libutils/Unicode.cpp:100-113 | decoding the encoding of a scalar gives the scalar back |
| Unicode.CodepointOfOne | system/core/libutils/Unicode.cpp:460-461 | one byte, a lone continuation byte among them, decodes to itself |
| Unicode.CodepointOfTwoBytes | system/core/libutils/Unicode.cpp:462-465 | two bytes of any value decode to five and six of their bits |
| Unicode.CodepointOfThreeBytes | system/core/libutils/Unicode.cpp:466-470 | three to four, six and six |
| Unicode.CodepointOfFourBytes | system/core/libutils/Unicode.cpp:471-476 | four to three, six, six and six |
| Unicode.EncodedWellFormed | system/core/libutils/Unicode.cpp:100-113 | the encoding of a scalar is one UTF8-char of section 4 of RFC 3629, whose first byte announces its length |
| Unicode.Utf8CharEncodes | system/core/libutils/Unicode.cpp:454-482 | every UTF8-char decodes to a scalar of which it is the encoding, so no other byte sequence, longer or shorter, is |
| UnicodeStrings.PairScalarUnits | system/core/libutils/Unicode.cpp:338-342 | a surrogate pair stands for a supplementary scalar, whose units are the pair again (sections 2.1 and 2.2 of RFC 2781) |
| UnicodeStrings.PairScalarIs | system/core/libutils/Unicode.cpp:338-342 | the code point of a pair is that of section 2.2 of RFC 2781, as arithmetic |
| UnicodeStrings.UnitsPair | system/core/libutils/Unicode.cpp:552-560 | a supplementary scalar is written as a pair that stands for it |
| UnicodeStrings.SurrogateMasks | system/core/libutils/Unicode.cpp:338-339 | the masks pick out the two ranges of surrogates |
| UnicodeStrings.EncodeThenDecode | system/core/libutils/Unicode.cpp:326-354 | encoding any sequence of code points gives well-formed UTF-8, from which exactly its scalars are decoded, in order |
| UnicodeStrings.Utf16RoundTrip | system/core/libutils/Unicode.cpp:326-566 | UTF-16 to UTF-8 to UTF-16 drops exactly the unpaired surrogates, for every string of code units |
| UnicodeStrings.Utf8RoundTrip | system/core/libutils/Unicode.cpp:326-566 | UTF-8 to UTF-16 to UTF-8 is the identity on every well-formed string |
| UnicodeStrings.WellFormedDecodes | system/core/libutils/Unicode.cpp:484-566 | well-formed UTF-8 decodes to scalars whose encoding it is |
| UnicodeConverters.Utf32CodepointToUtf8 | system/core/libutils/Unicode.cpp:100-113 | the fall-through cases, writing backwards, store the encoding at its place and nothing else |
| UnicodeConverters.Utf16ToUtf8Length | system/core/libutils/Unicode.cpp:403-432 | the number of bytes that the filling loop writes; -1 exactly for no input or a length beyond SSIZE_MAX |
| UnicodeConverters.Utf16ToUtf8Fill | system/core/libutils/Unicode.cpp:326-354 | writes the conversion and a terminator, and nothing after it |
| UnicodeConverters.Utf32ToUtf8Length | system/core/libutils/Unicode.cpp:175-196 | the number of bytes that the filling loop writes; -1 exactly for no input or a length beyond SSIZE_MAX |
| UnicodeConverters.Utf32ToUtf8Fill | system/core/libutils/Unicode.cpp:198-216 | writes the encoding of the scalars and a terminator, and nothing after it |
| UnicodeConverters.Utf8ToUtf16Length | system/core/libutils/Unicode.cpp:484-522 | for any bytes: -1 exactly when the last sequence overruns, otherwise the number of units of the conversion; the answer does not depend on what lies beyond the string |
| UnicodeConverters.Utf8ToUtf16NoNullTerminator | system/core/libutils/Unicode.cpp:532-566 | for any room and any input with a measured length: the longest conversion of whole code points that fits, never half a pair; reads stay inside the input and writes inside the room |
| UnicodeConverters.Utf8ToUtf16Fill | system/core/libutils/Unicode.cpp:524-530 | the same in one unit less, then a terminator; with the measured length and one more unit of room it is the whole conversion |
| UnicodeConverters.FitEnds | system/core/libutils/Unicode.cpp:544-564 | stopping where the next code point does not fit leaves the longest prefix that does |
| UnicodeConverters.WholeFits | system/core/libutils/Unicode.cpp:532-566 | with room for the measured length nothing is cut |
| UnicodeWalk.Utf32AtInternal | system/core/libutils/Unicode.cpp:133-155 | the loop over masks computes the sum of all announced bytes without the ignored bits, for signed and unsigned `char` |
| UnicodeWalk.DecodersAgree | system/core/libutils/Unicode.cpp:133-155 | the mask loop and the switch read the same code point of the same length exactly for ASCII and for leading bytes 0xC0 to 0xF7, whatever follows |
| UnicodeWalk.DecodedOfOne | system/core/libutils/Unicode.cpp:133-155 | a lone continuation byte is read as its six bits, where the other decoder takes all eight |
| UnicodeWalk.Utf32FromUtf8At | system/core/libutils/Unicode.cpp:157-173 | -1 past the end; otherwise the code point, which is never negative, and the next index, which has moved on inside the text |
| UnicodeWalk.WalkRecoversScalars | system/core/libutils/Unicode.cpp:157-173 | the walk that such calls make over the encoder's output finds exactly the scalars that were encoded, in order |
| UnicodeWalk.WalkText | system/core/libutils/Unicode.cpp:157-173 | calls of `utf32_from_utf8_at`, each at the next index of the last, return the code points of well-formed text one after the other, as the other decoder finds them |
| UnicodeWalk.WalkEncoded | system/core/libutils/Unicode.cpp:157-173 | on the encoder's output such calls return exactly the scalars that were encoded |
| ParcelData.PadSizeRoundsUp | frameworks/native/libs/binder/Parcel.cpp:25-34 | the padded size is the next multiple of four |
| ParcelData.FitsExactly | frameworks/native/libs/binder/Parcel.cpp:208-210 | the test before a write compares the sum of position and length, or what is left of it when it wraps |
| ParcelData.GrowthSuffices | frameworks/native/libs/binder/Parcel.cpp:328-343 | at a position no further than the size, growing by half again makes the jump back in bounds, and does not overflow |
| ParcelData.MaskClearsPadding | frameworks/native/libs/binder/Parcel.cpp:213-227 | the table of masks clears exactly the padding bytes of the last word |
| ParcelData.Int32Value | frameworks/native/libs/binder/Parcel.cpp:238-240 | the bytes of a word are its value, the lowest first |
| ParcelData.WritesAreOneSplice | frameworks/native/libs/binder/Parcel.cpp:187-236 | any number of writes from one position, some of which may fail, is one splice of the padded data of those that did not, unless the padding takes one past INT32_MAX |
| ParcelData.WritesAdvance | frameworks/native/libs/binder/Parcel.cpp:187-236 | the position is past all of that data exactly if the padding takes none past INT32_MAX |
| ParcelData.PlacedWritesAreInBounds | frameworks/native/libs/binder/Parcel.cpp:208-236 | with the position no further than the size a write never leaves the buffer after growing, stays at its position, and keeps position <= size <= capacity |
| ParcelData.InBoundsExactly | frameworks/native/libs/binder/Parcel.cpp:328-343 | further on, exactly if it is beyond the size by at most half of what contents and write take, when the buffer is reallocated; always, at 0, when there was none; and when the parcel's own buffer is large enough for the grown size, exactly if the position is pulled back to it and the write fits behind it |
| ParcelData.OutOfBoundsHappens | frameworks/native/libs/binder/Parcel.cpp:633-650 | after a first `writeInt32`, one at position 100 stores at 100 in a buffer of 12 bytes |
| ParcelData.PaddedInPlace | frameworks/native/libs/binder/Parcel.cpp:208-230 | padding in place and moving the size on splices the data and its zeros in, whether it overwrites, extends, or lies past the contents |
| ParcelData.SilentFailure | frameworks/native/libs/binder/Parcel.cpp:187-200 | `write` reports success without having written exactly when the parcel has no earlier error and growing would pass INT32_MAX, or the sum of position and length wraps |
| ParcelData.SilentFailureHappens | frameworks/native/libs/binder/Parcel.cpp:187-236 | writing 1500000000 bytes to a new parcel writes nothing and reports success |
| ParcelData.WritableExactly | frameworks/native/libs/binder/Parcel.cpp:203-236 | a write of up to INT32_MAX - 3 bytes succeeds exactly if it fits where it is, or half again of contents and write is at most INT32_MAX and there is memory for it, or room already |
| ParcelData.GrowErrorIs | frameworks/native/libs/binder/Parcel.cpp:328-343 | for contents of a size that a parcel can make itself, growing returns BAD_VALUE exactly if half again is more than INT32_MAX, and NO_MEMORY exactly if memory is short |
| ParcelStorage.Parcel.Write | frameworks/native/libs/binder/Parcel.cpp:187-200 | wherever the write stays in the buffer: the data and zeros up to a multiple of four lie before the new position, every other byte of the contents stays, and a write in the contents starts at the old position (`Wrote`), across any reallocation; or nothing changes; the result and the error are as `WriteError` defines; the global size moves with this parcel's share |
| ParcelStorage.Parcel.WriteAll | frameworks/native/libs/binder/Parcel.cpp:187-200 | repeated calls of `write` leave what `WriteEach` defines, that is one splice of the padded data of those that did not fail |
| ParcelStorage.Parcel.WriteInplace | frameworks/native/libs/binder/Parcel.cpp:203-236 | gives a place exactly when there is room or growing works and the sum of position and length does not wrap; the padding after it is zero |
| ParcelStorage.Parcel.ClearPadding | frameworks/native/libs/binder/Parcel.cpp:211-227 | exactly the padding bytes become zero |
| ParcelStorage.Parcel.WriteInt32 | frameworks/native/libs/binder/Parcel.cpp:633-650 | four bytes, the lowest first, are written likewise, and unlike `write` every failure is reported, with the error of `growData`; a sum of position and length that wraps is not noticed, and leaves the buffer |
| ParcelStorage.Parcel.WriteAligned | frameworks/native/libs/binder/Parcel.cpp:633-650 | the same for any value of four bytes |
| ParcelStorage.Parcel.FinishWrite | frameworks/native/libs/binder/Parcel.cpp:308-325 | position and size move on together, unless the length is refused |
| ParcelStorage.Parcel.GrowData | frameworks/native/libs/binder/Parcel.cpp:328-343 | from any position: the error is BAD_VALUE or NO_MEMORY exactly as `GrowError` defines, nothing is lost, and no product overflows |
| ParcelStorage.Parcel.ContinueWrite | frameworks/native/libs/binder/Parcel.cpp:346-525 | in all branches (an owner's data, own data, none) keeps the contents up to the desired size, gives each referenced buffer back once, and moves the global size by this parcel's share; a failure changes only the error |
| ParcelStorage.Parcel.SetDataSize | frameworks/native/libs/binder/Parcel.cpp:153-167 | on success the size is the one asked for, what was there is kept up to it, and the position is cut to it exactly where no new buffer is needed |
| ParcelStorage.Parcel.IpcSetDataReference | frameworks/native/libs/binder/Parcel.cpp:258-306 | the parcel refers to the bytes it is given, and its own buffer left the global size or the earlier owner got its buffer back; without a release function the new buffer counts as its own from then on and is not added |
| ParcelStorage.Parcel.FreeDataNoInit | frameworks/native/libs/binder/Parcel.cpp:566-595 | the global size loses this parcel's share, or is clamped to 0 exactly if it is smaller |
| ParcelProcess.Process.Do | frameworks/native/libs/binder/Parcel.cpp:258-650 | any call on any parcel changes that parcel alone, as `After` and `Changed` define; it keeps the global size equal to the sum of the capacities of all buffers that parcels own, except exactly if it takes over some bytes without a release function; and it keeps all positions no further than the sizes exactly if it is `Tame` |
| ParcelProcess.PlacedExactly | frameworks/native/libs/binder/Parcel.cpp:169-177 | with the position no further than the size every write stays in the buffer, and every call keeps it there exactly if it is `Tame`; on a parcel without an owner only `setDataPosition` and `ipcSetDataReference` can fail that |
| ParcelProcess.PlacedThroughout | frameworks/native/libs/binder/Parcel.cpp:153-343 | in every run of calls on a parcel whose positions are set no further than the size, position <= size <= capacity holds throughout and every write stays in the buffer |
| Sums.SumOfUpdate | frameworks/native/libs/binder/Parcel.cpp:407-414 | changing one parcel's share changes the sum by as much, and no share exceeds it |
| ParcelProcess.Process.ClampIsNotTaken | frameworks/native/libs/binder/Parcel.cpp:575-586 | in every state so reached the clamp to 0 is not taken |
| VectorData.MoveLoopWorks | system/core/include/utils/TypeHelpers.h:153-171 | the right-shifting loop does what a move should exactly if the destination is above the source, or does not overlap it, or there is nothing to move, or the elements are trivially destroyed and repeat at the distance moved; otherwise it constructs an object over a living one or leaves elements where others should be |
| VectorData.TrivialLoopWorks | system/core/include/utils/TypeHelpers.h:153-171 | for trivially destroyed elements moved down the loop gives the right elements exactly if they repeat at the distance moved |
| VectorData.ForwardedWorks | system/core/include/utils/TypeHelpers.h:147-171 | by `memmove` or by the loop, the elements are moved with only living objects copied and destroyed, exactly when `MovesWell` |
| VectorData.MoveLoopMoves | system/core/include/utils/TypeHelpers.h:153-171 | in those cases every object ends at its destination, and the source outside it is left raw, none constructed or destroyed twice |
| VectorData.InsertedAt | system/core/libutils/VectorImpl.cpp:53-79 | an insertion puts the item at n indices from its own, and moves what followed by n |
| VectorData.RemovedAt | system/core/libutils/VectorImpl.cpp:89-99 | a removal moves what followed by n |
| VectorData.ShrinksAgain | system/core/libutils/VectorImpl.cpp:280-282 | storage that a removal made anew is twice as large as needed: it takes one more element, but removing one more allocates again |
| VectorData.PushesMoveAtMostThree | system/core/libutils/VectorImpl.cpp:179-198 | n pushes from empty move at most 3n elements in reallocations |
| VectorStorage.PushAll | system/core/libutils/VectorImpl.cpp:85-87 | n calls of `push` on a new vector leave the n items, in the capacity of that recurrence, with at most 3n elements moved |
| VectorStorage.Vector.MoveFromLast | system/core/include/utils/TypeHelpers.h:153-171 | the loop, wherever it leads: it leaves what `MoveLoop` defines, constructing only in raw slots and destroying only living ones exactly as long as that goes on |
| VectorStorage.Vector.Memmove | system/core/include/utils/TypeHelpers.h:147-152 | the trivial move moves overlapping ranges either way |
| VectorStorage.Vector.DoCopy | system/core/libutils/VectorImpl.cpp:346-353 | each object is copied to raw storage (`_do_copy` has its own memcpy; the trivial branch of `copy_type`, which would copy n bytes instead of n elements, is not reached from it) |
| VectorStorage.Vector.DoSplat | system/core/include/utils/TypeHelpers.h:124-138 | each slot gets a copy of the item, constructed only where none lives |
| VectorStorage.Vector.EditResize | system/core/libutils/SharedBuffer.cpp:32-56 | what fits is kept |
| VectorStorage.Vector.Grow | system/core/libutils/VectorImpl.cpp:169-264 | in all branches the elements are in place with a gap of free slots at `where`, exactly if `InsertsWell`; the capacity grows only when it must, by half again |
| VectorStorage.Vector.GapOpens | system/core/libutils/VectorImpl.cpp:250-261 | moving the elements from `where` up to open a gap leaves them in place exactly if there is a gap to open, or nothing to move, or `memmove` moves it, or destroying is trivial |
| VectorStorage.Vector.InsertAt | system/core/libutils/VectorImpl.cpp:53-79 | the elements are those of the inserted sequence and exactly the slots below the count hold objects, exactly if `InsertsWell`: otherwise no items were inserted before elements that the loop moves onto themselves; the result is the index, BAD_INDEX, or NO_MEMORY exactly for no items at the end of the storage; capacity stays within max(4, 2*size + 1) |
| VectorStorage.NothingInserted | system/core/libutils/VectorImpl.cpp:53-79 | inserting no items into a new vector is answered NO_MEMORY |
| VectorStorage.Vector.Push | system/core/libutils/VectorImpl.cpp:85-87 | appends, at the cost of `PushMoves` |
| VectorStorage.Vector.Shrink | system/core/libutils/VectorImpl.cpp:266-328 | in all branches the elements are those of the sequence without the removed ones exactly if `RemovesWell`: new storage is allocated, or no more elements follow than are removed, or `memmove` moves them, or they are trivially destroyed and repeat; the capacity stays within max(4, 2*size + 1) |
| VectorStorage.Vector.GapCloses | system/core/libutils/VectorImpl.cpp:316-325 | moving what follows down onto the removed elements leaves the right elements exactly under that condition |
| VectorStorage.Vector.RemoveItemsAt | system/core/libutils/VectorImpl.cpp:89-99 | removes, exactly if `RemovesWell`, or answers BAD_VALUE and changes nothing |
| VectorStorage.Vector.Clear | system/core/libutils/VectorImpl.cpp:101-103 | no elements are left, for every kind of element |
| SortedVector.IndexOrderOf | system/core/libutils/VectorImpl.cpp:373-401 | an element that compares equal and its index, or none exactly if none does, with the place where the item belongs |

## Left out

- RefBase: atomics are sequentially consistent steps; memory orders, and progress of a loop whose exchange keeps failing, are not modelled.
- RefBase: an explicit `delete` of an object, and assignment of `wp`, which the headers do not define.
- RefBase: runs are sequences of states, not methods, because the steps of many threads interleave; `SmartPointers.Counted` has the same calls in the source's own form, for one thread.
- LightRefBase: one counter with no races of its own; it would add only easy members.
- Looper: fd requests and responses (nothing adds an fd), rebuilding the epoll set, thread-local loopers, and the loops of `pollOnce` and `pollAll` around `pollInner`.
- Looper: handlers that poll re-entrantly, and the result code of `pollInner`.
- LooperQueue.MessageLoop.DispatchDue: handlers send what a script says; arbitrary senders at the same time are in module Looper.
- Logger: readers filtered by uid, waiting and signals in `logger_read`, the debug copy of a written payload, and the device registration.
- LogRuns.Fifo: opens are allowed only while everything written is still in the ring, because the head never moves in the live code.
- Unicode: `utf8_length`, whose result depends on whether `char` is signed, and the comparison and copy helpers for terminated strings; a null source counts as an empty one.
- UnicodeConverters.Utf8ToUtf16Fill: a destination of no units at all, for which the source subtracts one from zero.
- Looper.EveryMessageOnce: of an ideal queue; the vector of the source is one exactly as long as `LooperStorage.Replay` says, and after that nothing is proved of what it holds.
- Looper.PriorMessagesFirst: likewise.
- LooperQueue.MessageLoop.DispatchHead: likewise.
- ParcelStorage.Parcel.Write: requires that the bytes it stores lie inside the buffer, which the source does not check.
- Logger.LogDevice.LoggerWriteIter: requires the same of the ring.
- ParcelStorage.Parcel.IpcSetDataReference: the data is not null.
- ParcelStorage.Parcel.FreeDataNoInit: the count of allocations, which the source never lowers, is kept but nothing is stated of it.
- Parcel: binder objects and their references, file descriptors, and reading, which the source does not have.
- Vector: storage with several owners (nothing acquires it), failed allocations, insertion without an item, an item that lies in the vector itself, `setCapacity` and `editItemLocation`.
- Sizes in bytes: the products of capacity and element size in the vector are not compared with SIZE_MAX.
- The binder driver, service manager, zygote, JNI, launcher and logging client.
