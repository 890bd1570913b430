# Verified models of reactive-mutiny's concurrent core

`reactive-mutiny` moves events between producers and streams through lock-free rings, pool
allocators, reference-counted slots and a registry of streams that park and are woken. This
project models those parts and proves, for every interleaving, every run and every input, what
the library relies on. Verify it with `dafny verify dfyconfig.toml`.

## What is modelled

**The ring `AtomicMove`** appears twice. `RingMachine` is a step machine: each atomic access of a
thread is one step, any number of threads interleave in any order, weak compare-exchanges may
fail spuriously, and the "report full" and "report empty" callbacks may ask for a retry. The
protocol text (`RingMachine.Advance`, atomic_move.rs lines 178-336) is written once and runs over
two kinds of counters: the program's `u32` counters and unbounded ones. `RingInvariant` holds the
inductive ownership invariant, `RingTheorems` shows that the `u32` machine is the wrapped image of
the unbounded one, and `RingFifo` states the results: those on contents and slots on the `u32`
machine, those on who holds which id on the unbounded one, whose wrapped image it is. `RingProgress`
shows that no state is a deadlock. `IndexCalls` adds the
two calls that know a slot by its index, their loops interleaved exchange by exchange with
everything else, and `RingLimits` has the limits of the `u32` arithmetic together with runs that
reach them. The class in `AtomicMove.dfy` has the same operations as one thread sees them while
no other takes a step, in place on the four counters and the buffer array; `LoneCalls` works out an
undisturbed call of the machine, and the class shows that its methods are those calls. `Laps` is the arithmetic of ids,
indexes and laps that both share.

**What is built on the ring.** `TokenRing` and `SlotRing` treat a ring that carries slot ids: as
long as an id is in it at most once, a ring as large as the number of ids never refuses one. From
that follow `PoolMachine` (the allocator shared by any number of threads) and `ZeroCopyMachine` (an
allocator ring, an id ring and the payload slots, all steps interleaved). `FanOutMachine` has one
dispatcher ring per stream, reference counts, `OgreArc` and `OgreUnique` handles, and any number of
threads sending and consuming, all steps interleaved. A handle may be sent by several threads at
once or again before it is consumed, so its dispatchers are the rings of `CopyRing`, which may hold
several copies of an id and refuse one. `FanOutPanic` is about that refusal, `FanOutCounts` about
the `u32` counts, `FanOutDrain` about what becomes of a slot, and `FanOutPool` joins the channel to
the lock-free free list its slots come from. `PoolAllocator` is the sequential class over the ring
class, with the conversions between references and ids, and `OgreArc` has the handle classes over
it, one operation at a time, with the wrapping of their `u32` count.

**Streams.** `StreamsManager` is the registry as a class, with the in-place rebuild of
`used_streams`; `RegistryMachine` has creations and drops by any number of threads at once, the
list being rewritten entry by entry. `WakeUp` is the park and wake-up protocol of one stream of
the `FullSync` Multi channel as a step machine: producers, cancellers, the polling task, the waker
lock shared with other streams, a stream that moves between tasks, and drop and re-creation.
`FullSyncMulti` is the channel with its operations taken one at a time.

**Two self-contained pieces.** `IncrementalAverages` is the compare-exchange loop of the packed
counter and average; `LineFraming` is the incremental line splitter of the socket example.

Memory is sequentially consistent and slots are typed values. A thread's access to a buffer slot
is one step, which `RingFifo.SlotsAreExclusive` justifies: no two threads granted slots ever
address the same one. Rings have a power of two of slots, as the source demands, below 2^31, and
at most 2^31 + 1 threads take part; `RingLimits.SignedTestIsExact` shows that these are exactly
the sizes for which the signed "has elements" test is right in every run.

## Where code and comments differ

- `try_publish_leaked_internal_index` documents that it returns the elements available after the
  operation, but computes the number from the previous `tail`. The model follows the code;
  `AtomicMove.AtomicMove.TryPublishLeakedInternalIndex` states that the number is the length after
  publishing exactly when the queue was empty before.
- `create_stream_id` raises both of its counts before it finds out that no id is vacant and
  panics. `StreamsManager.StreamsManagerBase.RunningStreamsCount` states that `used_streams_count`
  is the number of used streams exactly as long as no creation failed that way.

## Where a promise holds under a condition

- `try_unleak_slot_index_internal` cancels the topmost reservation whenever that has the caller's
  index. It is the cancel by id if and only if the topmost id is not another one of the same index,
  so whenever at most a whole buffer of ids was reserved from the caller's own on
  (`IndexCalls.LoneCancelIsExact`, `IndexCalls.CancelByIndexIsOwn`). Producers that claimed an id
  and were not refused yet can push the counter further; then it answers `true`, retracts another
  thread's id and leaves a ring no run of calls by id reaches (`RingLimits.CancelCanStray`,
  `IndexCalls.StrayIsUnreachable`).
- The same function subtracts one from the counter it reloads. An undisturbed call underflows there
  if and only if the counter is zero at the call (`IndexCalls.UnderflowIsExact`). In an
  interleaving, where others may bring the counter to zero after the call, it does so if and only if
  an exchange of it fails on a counter of zero, as its first one always does there
  (`IndexCalls.UnderflowMeetsZero`). A run gets there with a live reservation
  (`RingLimits.ReservedAtTheWrap`). A build with overflow checks panics; the model takes the
  wrapping result of a release build.
- A `BUFFER_SIZE` of 2^31 passes the power-of-two check, and a full ring of that size reports that
  it is empty (`RingLimits.FullRingReadsEmpty`).
- A creation that failed leaves `running_streams_count` one too high, and every later send of the
  `OgreArc` channel then announces a copy it never makes; a send that panics loses the copies it had
  announced and not made. With unbounded counts, some run brings a slot whose send has begun, by one
  thread, back to the allocator if and only if none of its references was lost that way: if no send
  ever panicked, if and only if no creation had failed (`FanOutDrain.ReturnsUnlessLost`). With `u32`
  counts that holds of the runs in which none of several references is dropped at a count of one
  (`FanOutDrain.ReturnsOnU32UnlessLost`); a count that wraps can free such a slot too.
- The `panic!` of a full dispatcher is called impossible when pool and dispatchers have one size.
  From every reachable state with nobody inside a dispatcher, a copy published to it undisturbed is
  refused, which is the panic, if and only if its queue is full (`FanOutPanic.PanicIsExact`). That
  takes a copy passed to a stream that has yet to consume one of the same slot: no other run reaches
  the panic, in any interleaving (`FanOutPanic.PanicUnreachable`), and no run that sends each slot
  once does (`FanOutPanic.SentOnceDoesNotOverlap`). Without such a send a full queue has a copy of
  every slot of the pool (`FanOutPanic.FullOfEverySlot`). With such sends one handle fills a queue
  of any size, and sending it once more panics (`FanOutPanic.PanicIsReachable`).
- The `u32` reference count does what an unbounded one does if and only if no reference of several
  is dropped while the count reads one (`FanOutCounts.CountIsExact`, `OgreArc.InnerOgreArc.Drop`),
  so whenever there are at most 2^32 of them (`FanOutCounts.FewReferencesFit`). A user who announces
  2^32 - 1 copies and clones once gets there, and then dropping one handle deallocates the slot
  under another (`FanOutCounts.CountCanWrap`).

## Model

| member | source | states |
|---|---|---|
| RingTheorems.WrappingIsInvisible | src/ogre_std/ogre_queues/atomic/atomic_move.rs:167-336 | for a power-of-two size below 2^31, over any schedule and so across any number of wraps, the u32 ring is the wrapped image of a ring with unbounded counters and its callers observe the same outcomes |
| RingTheorems.NextWraps | src/ogre_std/ogre_queues/atomic/atomic_move.rs:184-187 | each single step agrees: the full test, the signed empty test, every compare-exchange and every buffer index |
| RingTheorems.WindowsFitThreads | src/ogre_std/ogre_queues/atomic/atomic_move.rs:180-198 | outstanding ids belong to distinct threads, so neither window of claims is wider than the number of threads |
| U32.IndexSurvivesWrap | src/ogre_std/ogre_queues/atomic/atomic_move.rs:167-168 | because the size divides 2^32, an id and its wrapped value have the same buffer index |
| RingLimits.SignedTestIsExact | src/ogre_std/ogre_queues/atomic/atomic_move.rs:300-303 | the signed empty test is right in every state of every run if and only if the size is below 2^31 and there are at most 2^31 + 1 threads; past either limit a run that goes wrong is given |
| RingLimits.FullRingReadsEmpty | src/ogre_std/ogre_queues/atomic/atomic_move.rs:300-311 | a size of 2^31 is accepted, and a ring of it that is full answers a consume that it is empty |
| RingLimits.UnsignedTestIsExact | src/ogre_std/ogre_queues/atomic/atomic_move.rs:183-186 | the unsigned full test is right in every state of every run if and only if size plus threads is at most 2^32; past that a run that goes wrong is given |
| IndexCalls.CallsByIndexRefineCallsById | src/ogre_std/ogre_queues/atomic/atomic_move.rs:230-285 | refinement in every interleaving: as long as no cancel by index succeeds with more than a buffer of ids reserved from the caller's own on, the ring is the one that the same calls by id reach |
| IndexCalls.SendByIndexIsOwn | src/ogre_std/ogre_queues/atomic/atomic_move.rs:234-250 | in every interleaving whose cancels by index did not stray, a publish by index that succeeds is of the caller's own id and does what the publish by id does, on any lap |
| IndexCalls.CancelByIndexIsOwn | src/ogre_std/ogre_queues/atomic/atomic_move.rs:270-285 | in every interleaving whose earlier cancels by index did not stray, a cancel by index that succeeds does what the cancel by id does if and only if at most a buffer of ids was reserved from the caller's own on |
| IndexCalls.LoneCancelIsExact | src/ogre_std/ogre_queues/atomic/atomic_move.rs:270-285 | from every state reached without a cancel that strayed, an undisturbed cancel by index does what the cancel by id does if and only if the topmost id is not another one of the caller's index |
| IndexCalls.StrayIsUnreachable | src/ogre_std/ogre_queues/atomic/atomic_move.rs:270-285 | where it does not, the ring it leaves is reached by no run of calls by id |
| IndexCalls.UnderflowIsExact | src/ogre_std/ogre_queues/atomic/atomic_move.rs:276-278 | some iteration of an undisturbed call subtracts one from zero if and only if the counter was zero at the call, however its exchanges fail |
| IndexCalls.UnderflowMeetsZero | src/ogre_std/ogre_queues/atomic/atomic_move.rs:270-285 | in every interleaving, strays included, an exchange of a cancel by index subtracts one from zero if and only if it meets a counter of zero and fails: spuriously, or because its local id is not the last one before the wrap, which a call never begins with |
| RingLimits.CancelCanStray | src/uni/channels/movable/atomic.rs:192-195 | a run in which a caller is told its reservation was cancelled while another thread's id was retracted and its own stays reserved with nobody holding it |
| RingLimits.ReservedAtTheWrap | src/ogre_std/ogre_queues/atomic/atomic_move.rs:270-285 | a run reaches enqueuer_tail zero with id 2^32 - 1 reserved at the last index; there the cancel by index underflows, and in wrapping arithmetic is right |
| RingInvariant.TraceKeepsInv | src/ogre_std/ogre_queues/atomic/atomic_move.rs:178-336 | every step of every thread keeps the ownership invariant: ids, windows, slot contents |
| RingInvariant.WriteIsPrivate | src/ogre_std/ogre_queues/atomic/atomic_move.rs:71 | a granted producer's slot shares its index with no other id from head to head plus size, so its write cannot overwrite a published value |
| RingFifo.EveryStepIsAQueueStep | src/ogre_std/ogre_queues/atomic/atomic_move.rs:68-77 | refinement step by step: a publish appends its item when its tail exchange succeeds, a consume removes and returns the oldest item when its head exchange succeeds, no other step changes the queue, its length never exceeds the size, and the length a publish reports lies between the one it leaves and the size |
| RingFifo.FirstInFirstOut | src/ogre_std/ogre_queues/atomic/atomic_move.rs:130-139 | over every schedule, what consumers took followed by what is in the ring is what producers gave, in order |
| RingFifo.SlotsAreExclusive | src/ogre_std/ogre_queues/atomic/atomic_move.rs:303-305 | no two threads that were granted slots, for writing or reading, address the same buffer index |
| RingFifo.OneOwnerPerId | src/ogre_std/ogre_queues/atomic/atomic_move.rs:180-198 | an id is held by a producer if and only if it lies in [tail, enqueuer_tail), by a consumer if and only if it lies in [head, dequeuer_head), and never by two |
| RingFifo.BackOutIsOwnTopmost | src/ogre_std/ogre_queues/atomic/atomic_move.rs:258-320 | a counter recedes only by the acting thread retracting its own id, and every other claim is below it |
| RingFifo.FullMeansReserved | src/ogre_std/ogre_queues/atomic/atomic_move.rs:183-190 | a producer takes the full branch if and only if its id is a whole buffer ahead of head, and then every unpublished id of the buffer is held by another producer |
| RingFifo.EmptyMeansClaimed | src/ogre_std/ogre_queues/atomic/atomic_move.rs:300-308 | a consumer takes the empty branch if and only if its id is not published, and then every published item is held by another consumer |
| RingFifo.QuietHasNoClaims | src/ogre_std/ogre_queues/atomic/atomic_move.rs:189-198 | once no thread is inside, no id is outstanding: refused and cancelled calls left no trace |
| RingProgress.NoDeadlock | src/ogre_std/ogre_queues/atomic/atomic_move.rs:178-336 | from every reachable state some steps, without retries or spurious failures and at most eight for each thread, bring every thread out and leave no id outstanding |
| LoneCalls.LonePublish | src/ogre_std/ogre_queues/atomic/atomic_move.rs:68-77 | an undisturbed publish succeeds exactly when there is room, with exactly the sequential effect and the length it reports, and otherwise returns the item and restores the ring |
| LoneCalls.LoneConsume | src/ogre_std/ogre_queues/atomic/atomic_move.rs:130-139 | an undisturbed consume hands out the item of the oldest slot exactly when the signed test finds one, and otherwise reports empty and restores the ring |
| LoneCalls.NewIsFullRing | src/ogre_std/ogre_alloc/ogre_array_pool_allocator.rs:50-56 | the constructor's loop of publishes turns a fresh ring into the one holding every id in order |
| AtomicMove.AtomicMove.constructor | src/ogre_std/ogre_queues/atomic/atomic_move.rs:47-59 | all counters zero, empty |
| AtomicMove.AtomicMove.LeakSlotInternal | src/ogre_std/ogre_queues/atomic/atomic_move.rs:178-200 | grants the next id and the count before it, or restores enqueuer_tail exactly when the next id is a whole buffer ahead of head, whatever others reserved or claimed |
| AtomicMove.AtomicMove.TryUnleakSlotInternal | src/ogre_std/ogre_queues/atomic/atomic_move.rs:258-265 | cancels a reservation if and only if it is the topmost |
| AtomicMove.AtomicMove.TryUnleakSlotIndexInternal | src/ogre_std/ogre_queues/atomic/atomic_move.rs:270-285 | cancels the topmost reservation exactly when it has the caller's index; agrees with the cancel by id if and only if that is not another id of the same index, in particular up to a buffer of ids above the caller's; underflows exactly at a counter of zero |
| AtomicMove.AtomicMove.TryPublishLeakedInternal | src/ogre_std/ogre_queues/atomic/atomic_move.rs:221-228 | publishes a reservation if and only if it is the oldest, appending its slot's value |
| AtomicMove.AtomicMove.TryPublishLeakedInternalIndex | src/ogre_std/ogre_queues/atomic/atomic_move.rs:234-250 | publishes a granted reservation known by its index if and only if it is the oldest, on any lap without u32 overflow, and the exact number answered |
| AtomicMove.FindOnLap | src/ogre_std/ogre_queues/atomic/atomic_move.rs:270-284 | the compare-exchange loop by index terminates, finds the counter's neighbour exactly when its index matches, and underflows exactly at a counter of zero |
| AtomicMove.AtomicMove.PublishMovable | src/ogre_std/ogre_queues/atomic/atomic_move.rs:68-77 | appends the item and returns the new length, or returns the item exactly when full |
| AtomicMove.AtomicMove.PublishIsLoneCall | src/ogre_std/ogre_queues/atomic/atomic_move.rs:68-77 | what the sequential publish promises is exactly what the machine's undisturbed call does to the counters and buffer and lets its caller see |
| AtomicMove.AtomicMove.ConsumeLeakingInternal | src/ogre_std/ogre_queues/atomic/atomic_move.rs:294-322 | claims the next id and the number of items left from it on, or restores dequeuer_head, exactly when all published ids are claimed |
| AtomicMove.AtomicMove.ReleaseLeakedInternal | src/ogre_std/ogre_queues/atomic/atomic_move.rs:327-336 | removes the oldest item |
| AtomicMove.AtomicMove.ConsumeMovable | src/ogre_std/ogre_queues/atomic/atomic_move.rs:130-139 | removes and returns the oldest item, or nothing exactly when empty |
| AtomicMove.AtomicMove.ConsumeIsLoneCall | src/ogre_std/ogre_queues/atomic/atomic_move.rs:130-139 | the same for the sequential consume |
| AtomicMove.AtomicMove.ContentsAgree | src/ogre_std/ogre_queues/atomic/atomic_move.rs:101-103 | the contents read off the u32 counters are the slots under the published ids |
| AtomicMove.AtomicMove.AvailableElementsCount | src/ogre_std/ogre_queues/atomic/atomic_move.rs:101-103 | the length, across wraps |
| AtomicMove.AtomicMove.PeekRemaining | src/ogre_std/ogre_queues/atomic/atomic_move.rs:141-159 | its two slices, one after the other, are the contents |
| AtomicMove.AtomicMove.ReserveManyPublishOne | src/ogre_std/ogre_queues/atomic/atomic_move.rs:252-285 | reserving n slots, publishing the first and cancelling the rest by index in reverse equals publishing one, ids included |
| TokenRing.HeldStep | src/ogre_std/ogre_queues/atomic/atomic_move.rs:68-139 | a ring of ids gains an id only when its publish is called and loses one only when a caller gets it |
| TokenRing.WindowFitsIds | src/ogre_std/ogre_alloc/ogre_array_pool_allocator.rs:100-109 | the window from head to enqueuer_tail, published or merely claimed, never exceeds the number of ids |
| TokenRing.NeverRefused | src/ogre_std/ogre_alloc/ogre_array_pool_allocator.rs:100-109 | with room for every id and each offered by its holder only, no publish is ever refused, in any interleaving |
| SlotRing.GoodStep | src/ogre_std/ogre_queues/atomic/atomic_move.rs:68-139 | the same on the u32 ring, together with its FIFO behaviour |
| PoolMachine.DeallocNeverRefused | src/ogre_std/ogre_alloc/ogre_array_pool_allocator.rs:100-109 | in no interleaving does the publish whose result dealloc ignores find the free list full |
| PoolMachine.SlotsAreConserved | src/ogre_std/ogre_alloc/ogre_array_pool_allocator.rs:50-109 | free ids, ids being deallocated and allocated ids are disjoint and total the pool size at every instant |
| PoolMachine.AllocIsExclusive | src/ogre_std/ogre_alloc/ogre_array_pool_allocator.rs:61-68 | an allocation only hands out an id below the size that nobody has |
| PoolAllocator.ConversionsInvert | src/ogre_std/ogre_alloc/ogre_array_pool_allocator.rs:112-123 | id_from_ref and ref_from_id are mutual inverses between ids and slots of the pool |
| PoolAllocator.OgreArrayPoolAllocator.constructor | src/ogre_std/ogre_alloc/ogre_array_pool_allocator.rs:43-58 | every id free, in order |
| PoolAllocator.OgreArrayPoolAllocator.AllocRef | src/ogre_std/ogre_alloc/ogre_array_pool_allocator.rs:61-68 | hands out an unused slot by id and reference, or nothing exactly when all are used |
| PoolAllocator.OgreArrayPoolAllocator.DeallocId | src/ogre_std/ogre_alloc/ogre_array_pool_allocator.rs:100-109 | the id is always back on the free list and no longer in use |
| PoolAllocator.OgreArrayPoolAllocator.DeallocRef | src/ogre_std/ogre_alloc/ogre_array_pool_allocator.rs:94-97 | by reference it has the effect of deallocating by id |
| OgreArc.InnerOgreArc.FromAllocatedWithClones | src/ogre_std/ogre_alloc/ogre_arc.rs:89-100 | the count is the number of handles made, wrapped |
| OgreArc.InnerOgreArc.IncrementReferences | src/ogre_std/ogre_alloc/ogre_arc.rs:108-112 | announces that many raw copies; the count stays live handles plus owed copies |
| OgreArc.InnerOgreArc.RawCopy | src/ogre_std/ogre_alloc/ogre_arc.rs:120-124 | turns one owed copy into a handle, the count untouched |
| OgreArc.InnerOgreArc.Clone | src/ogre_std/ogre_alloc/ogre_arc.rs:207-213 | one more handle, counted |
| OgreArc.InnerOgreArc.Drop | src/ogre_std/ogre_alloc/ogre_arc.rs:258-268 | gives the slot back exactly when the count reads one; that is right, at the last reference only, if and only if it is not one of several references whose number reads as one |
| OgreArc.OgreUnique.FromAllocatedId | src/ogre_std/ogre_alloc/ogre_unique.rs:36-48 | owns the slot of that id, by reference |
| OgreArc.OgreUnique.IntoOgreArc | src/ogre_std/ogre_alloc/ogre_unique.rs:50-54 | the same slot, recovered from its reference, passes to a single counted handle; nothing is deallocated |
| OgreArc.OgreUnique.Drop | src/ogre_std/ogre_alloc/ogre_unique.rs:149-152 | gives the slot it owned back to the allocator |
| ZeroCopyMachine.SlotsPartition | src/ogre_std/ogre_queues/atomic/atomic_zero_copy.rs:83-169 | over every schedule each slot is free, leaked, queued or being consumed, and never two of these |
| ZeroCopyMachine.NeverFull | src/ogre_std/ogre_queues/atomic/atomic_zero_copy.rs:93-105 | neither publish_leaked_id nor the release of a slot ever finds its ring full |
| ZeroCopyMachine.PayloadsInOrder | src/ogre_std/ogre_queues/atomic/atomic_zero_copy.rs:61-158 | payloads come out in the order their publishes took effect, each as it was when its publish was called |
| ZeroCopyMachine.PayloadsUnmodified | src/ogre_std/ogre_queues/atomic/atomic_zero_copy.rs:140-168 | from the call of its publish to its release a slot shows the same payload |
| FanOutPanic.PanicUnreachable | src/multi/channels/ogre_arc/atomic.rs:187-211 | with pool and dispatchers of one size, in every interleaving of a run that passes no copy to a stream that has yet to consume one of the same slot, the full-dispatcher panic is not reached and no queue holds a slot twice |
| FanOutPanic.SentOnceDoesNotOverlap | src/multi/channels/ogre_arc/atomic.rs:150-159 | every run that sends each slot at most once between its allocation and its deallocation meets that condition |
| FanOutPanic.PanicIsExact | src/multi/channels/ogre_arc/atomic.rs:195-206 | from every reachable state with nobody inside a dispatcher, after overlapping sends and panics too, a copy published to it undisturbed is refused, which is the panic, if and only if its queue is full |
| FanOutPanic.FullOfEverySlot | src/multi/channels/ogre_arc/atomic.rs:195-206 | after a run that passed no copy to a stream that had yet to consume one of the same slot, a queue is full if and only if every slot of the pool has a copy in it |
| FanOutPanic.PanicIsReachable | src/multi/channels/ogre_arc/atomic.rs:187-206 | for every size a run reaches the panic, by sending the one handle of a slot once more often than a queue has room for |
| FanOutMachine.ServedInOrder | src/multi/channels/ogre_arc/atomic.rs:191-209 | while a thread's send is under way, exactly one copy of that thread arrived in the queue of each stream it has served, those are the first ones in use, and no other stream got any of it, whoever else sends the same slot |
| FanOutMachine.OneCopyPerStream | src/multi/channels/ogre_arc/atomic.rs:187-211 | whenever a send that did not panic finishes, exactly one copy of its thread arrived in the queue of every stream in use and none anywhere else |
| FanOutDrain.ReturnsUnlessLost | src/multi/channels/ogre_arc/atomic.rs:188-198 | with unbounded counts, right after the count was raised for a slot that one thread sends, some run brings it back to the allocator if and only if none of its references was lost to a failed creation or a panicked send; without an earlier panic, if and only if no stream creation had failed |
| FanOutDrain.ReturnsOnU32UnlessLost | src/multi/channels/ogre_arc/atomic.rs:188-198 | the same with u32 counts, over the runs in which no event frees early, for a slot of at most 2^32 references |
| FanOutMachine.QueuesStayBounded | src/multi/channels/ogre_arc/atomic.rs:201-206 | no stream's queue ever exceeds the buffer size |
| FanOutMachine.ReferencesBalance | src/ogre_std/ogre_alloc/ogre_arc.rs:89-124 | over every run, overlapping sends and panics included, a live slot's references_count is the number of its copies in dispatchers, several in one counted each, plus its users' handles plus owed and lost copies plus what each of its senders accounts for; other slots have no copy and no sender |
| FanOutCounts.EventWraps | src/ogre_std/ogre_alloc/ogre_arc.rs:258-268 | one event does the same to u32 counts as to unbounded ones if and only if it does not drop one of several references at a count that reads one |
| FanOutCounts.CountIsExact | src/ogre_std/ogre_alloc/ogre_arc.rs:108-112 | the channel with u32 counts goes through what the one with unbounded counts does if and only if no event of the run frees a slot early that way |
| FanOutCounts.CountCanWrap | src/ogre_std/ogre_alloc/ogre_arc.rs:108-124 | a run of four events after which dropping one handle deallocates the slot under another |
| FanOutMachine.LastDropDeallocates | src/ogre_std/ogre_alloc/ogre_arc.rs:258-268 | over every run, with unbounded counts, a slot is deallocated by exactly the drops of its very last reference |
| FanOutMachine.SlotEventOk | src/ogre_std/ogre_alloc/ogre_unique.rs:51-54 | reservation, conversion into an OgreArc without a drop, cloning, announcing and making raw copies, and dropping keep the balance of the slot concerned |
| FanOutMachine.SenderEventOk | src/multi/channels/ogre_arc/atomic.rs:187-211 | and so does each step of a sender: beginning with its own or a user's handle, raising the count, dropping the refused copy, finishing |
| FanOutPool.DeallocationsAreAllowed | src/ogre_std/ogre_alloc/ogre_arc.rs:258-268 | with the channel and the lock-free free list interleaved: whoever frees a slot is one the allocator lets deallocate it, and the free list is never full |
| FanOutPool.SlotsAreSomewhere | src/ogre_std/ogre_alloc/ogre_array_pool_allocator.rs:61-109 | at every instant each slot is free, being deallocated or in use by the channel, never two of these |
| FanOutPool.DeallocatedOnce | src/ogre_std/ogre_alloc/ogre_arc.rs:258-268 | in every run each slot was deallocated once for every time it was allocated, but for the time it is in use |
| FanOutPool.HalvesAreRuns | src/multi/channels/ogre_arc/atomic.rs:151-231 | each half of the joint run is a run of its own machine, so what is proved of either holds of both together |
| WakeUp.NoLostWakeUp | src/mutiny_stream.rs:56-69 | in every interleaving, a parked stream with a non-empty queue or a cancellation has its task notified or a signaler on its way to wake it |
| WakeUp.SleepsOnlyWhenIdle | src/multi/channels/arc/full_sync.rs:169-194 | once no signaler is at work, an unnotified parked stream has an empty queue and was not cancelled |
| WakeUp.OwedWakeUpArrives | src/streams_manager.rs:99-112 | whoever owes a parked stream a wake-up notifies its task within three of its own steps, the lock being free or its own |
| WakeUp.SignalKeepsMinded | src/streams_manager.rs:97-153 | a step of a producer or canceller gives up its duty to wake only by notifying the owner or when the stream will look anyway, and takes that duty on with every first event and every cancel |
| WakeUp.PollKeepsMinded | src/streams_manager.rs:168-195 | a step of the polling task, registration and self-wake included, abandons its watch only by finding the queue empty |
| StreamsManager.ComplementIsExact | src/streams_manager.rs:225-255 | the list rebuilt is ascending and holds exactly the ids that are not vacant |
| StreamsManager.PaddedPrefix | src/streams_manager.rs:218-223 | reading the list up to the first sentinel gives exactly those ids |
| StreamsManager.StreamsManagerBase.SyncVacantAndUsedStreams | src/streams_manager.rs:227-255 | the rebuild loop terminates and leaves the ascending complement of the vacant ids followed by sentinels only, for distinct vacant ids in any order |
| StreamsManager.StreamsManagerBase.constructor | src/streams_manager.rs:56-75 | every id vacant, in order, none used |
| StreamsManager.StreamsManagerBase.CreateStreamId | src/streams_manager.rs:83-95 | moves the longest-vacant id into use, or fails exactly when all are used; ids stay partitioned and counts exact |
| StreamsManager.StreamsManagerBase.ReportStreamDropped | src/streams_manager.rs:207-216 | the id is always vacant again, its waker cleared; ids stay partitioned and counts exact |
| StreamsManager.StreamsManagerBase.RunningStreamsCount | src/streams_manager.rs:321-324 | the count is created minus finished and equals the length before the first sentinel exactly as long as no creation failed |
| StreamsManager.StreamsManagerBase.RegisterStreamWaker | src/streams_manager.rs:168-195 | the waker is registered, and woken at once unless it was the one known already |
| StreamsManager.StreamsManagerBase.CancelStream | src/streams_manager.rs:149-153 | clears the running flag of the stream and wakes its task |
| StreamsManager.StreamsManagerBase.CancelAllStreams | src/streams_manager.rs:157-165 | clears the running flag of every used stream and of no other, and wakes the tasks of exactly those, in list order |
| RegistryMachine.QuietRegistryIsExact | src/streams_manager.rs:83-95 | in every interleaving of creations and drops, once none is under way the list is the ascending sequence of the live ids followed by sentinels, and the count is created less finished, which is the number of live ids if and only if no creation failed |
| RegistryMachine.IdsAreExclusive | src/streams_manager.rs:207-216 | in every interleaving a creation takes an id nobody uses, and the publish of a dropped id always has room |
| FullSyncMulti.FullSync.SendDerived | src/multi/channels/arc/full_sync.rs:169-194 | the event reaches each used stream exactly once, in list order up to the first full queue, and wakes exactly those whose queue was empty, and the full one |
| FullSyncMulti.FullSync.Consume | src/multi/channels/arc/full_sync.rs:220-223 | a stream id consumes, in order, exactly the events sent while it was in use |
| FullSyncMulti.FullSync.CreateStreamForNewEvents | src/multi/channels/arc/full_sync.rs:114-117 | a new stream changes no history and no queue |
| FullSyncMulti.FullSync.DropResources | src/multi/channels/arc/full_sync.rs:236-238 | the id goes out of use; history and queues stay |
| IncrementalAverages.PackingIsExact | src/incremental_averages.rs:101-109 | packing and unpacking undo each other, both ways, at the bit level, with the counter in the lower half |
| IncrementalAverages.FoldIsMean | src/incremental_averages.rs:53-65 | after up to 2^32 - 1 measurements the counter is their number and the average their exact mean |
| IncrementalAverages.FoldCounter | src/incremental_averages.rs:55-61 | the counter after any number of measurements, resets included |
| IncrementalAverages.FoldWithinBounds | src/incremental_averages.rs:53-65 | across resets the average stays within the least and greatest measurement |
| IncrementalAverages.NoUpdateIsLost | src/incremental_averages.rs:114-127 | in every interleaving the word is the fold of the completed measurements, and every call begun is completed once or still under way |
| IncrementalAverages.ConcurrentMean | src/incremental_averages.rs:114-127 | in every interleaving of up to 2^32 - 1 completed calls the word holds their number and exact mean |
| IncrementalAverages.ConcurrentBounds | src/incremental_averages.rs:114-127 | in every interleaving of any number of calls the average stays within the measurements |
| LineFraming.SplitIsUnique | examples/socket-server/frontend/socket_server/connection.rs:193-215 | lines and rest are the only way to cut a stream into newline-free lines, each ended by a newline, and a newline-free rest |
| LineFraming.ChunkingIsInvisible | examples/socket-server/frontend/socket_server/connection.rs:184-219 | for every stream and every way of cutting it into reads, the lines delivered and the bytes left over are those of the whole stream |
| LineFraming.Connection.DeliverLines | examples/socket-server/frontend/socket_server/connection.rs:191-218 | the inner loop terminates, delivers every complete line of the buffer once and keeps the rest |
| LineFraming.Connection.Receive | examples/socket-server/frontend/socket_server/connection.rs:184-219 | after each read, what was delivered and what is buffered are the lines and the rest of everything received |
| LineFraming.Connection.ReceiveAll | examples/socket-server/frontend/socket_server/connection.rs:182-219 | the loop of reads delivers and keeps what reading chunk by chunk gives, which is the lines and the rest of the whole stream |

## Left out

- Weak-memory effects of the Relaxed and Acquire orderings, and the undefined behaviour of raw pointers and uninitialised slots.
- Linearizability of the ring's refusals: a call may find the ring full or empty because of a claim that is later retracted; only what such an outcome means at the check is stated.
- AtomicMove.AtomicMove.PublishMovable: requires that no other reservation is outstanding, because with one the original spins until another thread publishes it; the interleaved case is in RingFifo.
- AtomicMove.FindOnLap: tries the exchange on the counter's value, which is the same as on the field while no other thread takes a step; the interleaved loop is in IndexCalls.
- IndexCalls.CallsByIndexRefineCallsById: says nothing about a run after a cancel that strayed, and nothing about the number an interleaved publish by index answers, which it computes from a `head` read later.
- FanOutMachine.ReferencesBalance: counts are unbounded; FanOutCounts.CountIsExact states exactly which runs it carries over to the u32 count.
- FanOutPanic.PanicUnreachable: the stream set is stable while anything is being dispatched; a creation or drop of a stream that overlaps a send is not part of it.
- FanOutPanic.PanicIsExact: is about a dispatcher nobody is inside and an undisturbed publish; with other threads inside, RingFifo.FullMeansReserved says when a copy is refused.
- FanOutDrain.ReturnsUnlessLost: is about a slot that only one thread is sending when the count is raised, and does not model a `running_streams_count` above `MAX_STREAMS`, with which the loop of `send_derived` reads past the list.
- FanOutMachine.LastDropDeallocates: the decrement and the call of the deallocation are one event, because no shared access lies between them; the deallocation's own steps interleave in FanOutPool.
- RegistryMachine.QuietRegistryIsExact: peeking at the vacant ids is one step, counts are unbounded, and senders that read the list while it is rewritten are not part of it.
- WakeUp.NoLostWakeUp: covers the channel whose queue is atomic; for the channels over AtomicMove the length is sampled at reservation, so the same test does not give it.
- The body of `FullSyncMove`: it is used through the contract of `MovePublisher`, an atomic bounded FIFO that answers the length just after publishing.
- The setter form of `publish`, asynchronous setters and `create_stream_for_old_events`: variants of what is modelled, or panics.
- FullSyncMulti.FullSync.SendDerived: stops and reports where the original sleeps and tries a full queue again; the retry itself is a step of WakeUp.
- Values dropped in place by deallocation, and the drop of unconsumed items with the ring.
- Time-based operations: `flush`, `end_stream`, `end_all_streams`, and the executors with their timeouts and logs.
- The Crossbeam and mmap-log channels, the stacks, `Uni`/`Multi` plumbing, instruments and benchmarks.
- Rounding of `f32` averages: the mean is over real numbers, and packing is about 32-bit patterns.
- The rest of the socket example: networking, message decoding, configuration and the runtime registry.
