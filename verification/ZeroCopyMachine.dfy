/**
 `AtomicZeroCopy` shared by any number of threads: an allocator whose free list is a lock-free
 ring, a second lock-free ring of the same size that queues the ids of published slots, and
 the payload slots themselves. Every call on either ring is a sequence of atomic steps, and
 all of them interleave freely.
 */
module ZeroCopyMachine {
  import opened Counting
  import opened RingMachine
  import opened RingTheorems
  import opened RingFifo
  import opened SlotRing

  /**
   `leaked` are the ids handed out by `leak_slot`, `consuming` those handed out by
   `consume_leaking`. Three fields only record history: `pinned` is the payload an id had when
   its publish was called, `given` the payloads so pinned in the order the publishes took
   effect, and `taken` the payloads found in the slots in the order the consumes took effect.
   */
  datatype ZeroCopy<T> = ZeroCopy(
    freeList: Ring<nat>, queue: Ring<nat>, payloads: seq<T>,
    leaked: set<nat>, consuming: set<nat>,
    pinned: map<nat, T>, given: seq<T>, taken: seq<T>)

  datatype Call<T> =
    | Allocator(step: Action<nat>)           // leak_slot, unleak_slot_id, release_leaked_id
    | Queue(step: Action<nat>)               // publish_leaked_id, consume_leaking
    | Write(id: nat, payload: T)             // the owner of a leaked slot fills it in

  function New<T>(payloads: seq<T>, threads: nat): ZeroCopy<T> {
    ZeroCopy(FullRing(|payloads|, threads), Fresh(Iota(|payloads|), threads), payloads, {}, {}, map[], [], [])
  }

  /** Only the holder of an id passes it on. */
  predicate Permitted<T>(z: ZeroCopy<T>, c: Call<T>) {
    match c
    case Allocator(CallPublish(_, id)) => id in z.leaked || id in z.consuming
    case Queue(CallPublish(_, id)) => id in z.leaked
    case Write(id, _) => id in z.leaked
    case _ => !c.step.Unleak?
  }

  function AllocatorStep<T>(z: ZeroCopy<T>, a: Action<nat>): ZeroCopy<T>
    requires |z.freeList.buffer| > 0
  {
    var o := Observe(Wrapping, z.freeList, a);
    var z' := z.(freeList := Next(Wrapping, z.freeList, a));
    if Offering(z.freeList, a) then z'.(leaked := z.leaked - {a.item}, consuming := z.consuming - {a.item})
    else if o.Consumed? then z'.(leaked := z.leaked + {o.item})
    else z'
  }

  function QueueCall<T>(z: ZeroCopy<T>, a: Action<nat>): ZeroCopy<T>
    requires |z.queue.buffer| > 0
  {
    var o := Observe(Wrapping, z.queue, a);
    var z' := z.(queue := Next(Wrapping, z.queue, a));
    if Offering(z.queue, a) && a.item < |z.payloads| then
      z'.(leaked := z.leaked - {a.item}, pinned := z.pinned[a.item := z.payloads[a.item]])
    else if o.Published? && o.item in z.pinned then z'.(given := z.given + [z.pinned[o.item]])
    else if o.Consumed? && o.item < |z.payloads| then
      z'.(consuming := z.consuming + {o.item}, taken := z.taken + [z.payloads[o.item]])
    else z'
  }

  function ZeroCopyNext<T>(z: ZeroCopy<T>, c: Call<T>): (z': ZeroCopy<T>)
    requires |z.freeList.buffer| > 0 && |z.queue.buffer| > 0
    ensures |z'.freeList.buffer| > 0 && |z'.queue.buffer| > 0 && |z'.payloads| == |z.payloads|
  {
    if !Permitted(z, c) then z else
    match c
    case Allocator(a) => NextKeepsShape(Wrapping, z.freeList, a); AllocatorStep(z, a)
    case Queue(a) => NextKeepsShape(Wrapping, z.queue, a); QueueCall(z, a)
    case Write(id, payload) => if id < |z.payloads| then z.(payloads := z.payloads[id := payload]) else z
  }

  /** In how many of the four sets `id` is. */
  function Places(id: nat, a: set<nat>, b: set<nat>, c: set<nat>, d: set<nat>): nat {
    (if id in a then 1 else 0) + (if id in b then 1 else 0) + (if id in c then 1 else 0) + (if id in d then 1 else 0)
  }

  /** Each id below `size` is in exactly one of the four sets, and no other id is in any. */
  ghost predicate FourWay(a: set<nat>, b: set<nat>, c: set<nat>, d: set<nat>, size: nat) {
    forall id: nat :: Places(id, a, b, c, d) == if id < size then 1 else 0
  }

  /** Free, leaked, queued and being-consumed ids partition the slots. */
  ghost predicate Partitioned<T>(z: ZeroCopy<T>)
    requires |z.freeList.buffer| > 0 && |z.queue.buffer| > 0
  {
    FourWay(Holds(z.freeList), z.leaked, Holds(z.queue), z.consuming, |z.payloads|)
  }

  /** The payloads of the queued ids, in queue order. */
  function QueuedPayloads<T>(queue: seq<nat>, payloads: seq<T>): seq<T>
    requires forall i | 0 <= i < |queue| :: queue[i] < |payloads|
  {
    seq(|queue|, i requires 0 <= i < |queue| => payloads[queue[i]])
  }

  /** A slot keeps the payload it was published with until it is released. */
  ghost predicate PayloadsPinned<T>(z: ZeroCopy<T>)
    requires |z.queue.buffer| > 0
  {
    forall id | id in Holds(z.queue) || id in z.consuming ::
      id < |z.payloads| && id in z.pinned && z.pinned[id] == z.payloads[id]
  }

  ghost predicate ZeroCopyInv<T>(z: ZeroCopy<T>) {
    && Good(z.freeList, |z.payloads|) && |z.freeList.buffer| > 0
    && Good(z.queue, |z.payloads|) && |z.queue.buffer| > 0
    && Partitioned(z)
    && PayloadsPinned(z)
    && (forall i | 0 <= i < |Contents(z.queue)| :: Contents(z.queue)[i] < |z.payloads|)
    && z.given == z.taken + QueuedPayloads(Contents(z.queue), z.payloads)
  }

  // ---------------------------------------------------------------------------------------

  /** What an allocator step does to the four sets, for the id it moves. */
  lemma AllocatorMovesId(free: set<nat>, leaked: set<nat>, queued: set<nat>, consuming: set<nat>,
                         id: nat, freed: bool, handedOut: bool, size: nat)
    requires FourWay(free, leaked, queued, consuming, size)
    requires freed ==> id in leaked || id in consuming
    requires handedOut ==> id in free
    ensures FourWay(if freed then free + {id} else if handedOut then free - {id} else free,
                    if freed then leaked - {id} else if handedOut then leaked + {id} else leaked,
                    queued,
                    if freed then consuming - {id} else consuming, size)
  {
    var free' := if freed then free + {id} else if handedOut then free - {id} else free;
    var leaked' := if freed then leaked - {id} else if handedOut then leaked + {id} else leaked;
    var consuming' := if freed then consuming - {id} else consuming;
    forall x: nat
      ensures Places(x, free', leaked', queued, consuming') == if x < size then 1 else 0
    {
      assert Places(x, free, leaked, queued, consuming) == if x < size then 1 else 0;
    }
  }

  /** What a queue step does to the four sets, for the id it moves. */
  lemma QueueMovesId(free: set<nat>, leaked: set<nat>, queued: set<nat>, consuming: set<nat>,
                     id: nat, published: bool, handedOut: bool, size: nat)
    requires FourWay(free, leaked, queued, consuming, size)
    requires published ==> id in leaked
    requires handedOut ==> id in queued
    ensures FourWay(free,
                    if published then leaked - {id} else leaked,
                    if published then queued + {id} else if handedOut then queued - {id} else queued,
                    if !published && handedOut then consuming + {id} else consuming, size)
  {
    var leaked' := if published then leaked - {id} else leaked;
    var queued' := if published then queued + {id} else if handedOut then queued - {id} else queued;
    var consuming' := if !published && handedOut then consuming + {id} else consuming;
    forall x: nat
      ensures Places(x, free, leaked', queued', consuming') == if x < size then 1 else 0
    {
      assert Places(x, free, leaked, queued, consuming) == if x < size then 1 else 0;
    }
  }

  lemma PayloadsAppend<T>(queue: seq<nat>, id: nat, payloads: seq<T>)
    requires forall i | 0 <= i < |queue| :: queue[i] < |payloads|
    requires id < |payloads|
    ensures QueuedPayloads(queue + [id], payloads) == QueuedPayloads(queue, payloads) + [payloads[id]]
  {
  }

  lemma PayloadsPop<T>(queue: seq<nat>, id: nat, payloads: seq<T>)
    requires forall i | 0 <= i < |queue| :: queue[i] < |payloads|
    requires id < |payloads|
    ensures QueuedPayloads([id] + queue, payloads) == [payloads[id]] + QueuedPayloads(queue, payloads)
  {
  }

  lemma PayloadsUntouched<T>(queue: seq<nat>, id: nat, payload: T, payloads: seq<T>)
    requires forall i | 0 <= i < |queue| :: queue[i] < |payloads|
    requires id < |payloads| && id !in queue
    ensures QueuedPayloads(queue, payloads[id := payload]) == QueuedPayloads(queue, payloads)
  {
  }

  /** An id the caller holds is in neither ring. */
  lemma CallerHolds<T>(z: ZeroCopy<T>, id: nat)
    requires ZeroCopyInv(z)
    ensures id in z.leaked || id in z.consuming ==>
              id < |z.payloads| && id !in Holds(z.freeList) && id !in Holds(z.queue)
    ensures id in Holds(z.queue) ==> id < |z.payloads| && id in z.pinned && z.pinned[id] == z.payloads[id]
    ensures id in z.leaked ==> id !in z.consuming
  {
    assert Places(id, Holds(z.freeList), z.leaked, Holds(z.queue), z.consuming) <= 1;
  }

  lemma AllocatorStepPartitions<T>(z: ZeroCopy<T>, a: Action<nat>)
    requires ZeroCopyInv(z) && Permitted(z, Allocator(a))
    ensures |AllocatorStep(z, a).freeList.buffer| > 0 && Good(AllocatorStep(z, a).freeList, |z.payloads|)
    ensures Partitioned(AllocatorStep(z, a))
    ensures !Observe(Wrapping, z.freeList, a).Refused?
  {
    var (z', o, size) := (AllocatorStep(z, a), Observe(Wrapping, z.freeList, a), |z.payloads|);
    if Offering(z.freeList, a) { CallerHolds(z, a.item); }
    GoodStep(z.freeList, a, size);
    var id := if Offering(z.freeList, a) then a.item else if o.Consumed? then o.item else size;
    AllocatorMovesId(Holds(z.freeList), z.leaked, Holds(z.queue), z.consuming,
                     id, Offering(z.freeList, a), o.Consumed?, size);
  }

  lemma AllocatorLeavesPayloads<T>(z: ZeroCopy<T>, a: Action<nat>)
    requires |z.freeList.buffer| > 0 && |z.queue.buffer| > 0 && PayloadsPinned(z)
    ensures var z' := AllocatorStep(z, a);
      && z'.queue == z.queue && z'.payloads == z.payloads && z'.given == z.given && z'.taken == z.taken
      && PayloadsPinned(z')
  {
  }

  lemma AllocatorStepKeeps<T>(z: ZeroCopy<T>, a: Action<nat>)
    requires ZeroCopyInv(z) && Permitted(z, Allocator(a))
    ensures ZeroCopyInv(AllocatorStep(z, a))
    ensures !Observe(Wrapping, z.freeList, a).Refused?
  {
    AllocatorStepPartitions(z, a);
    AllocatorLeavesPayloads(z, a);
  }

  lemma WriteKeeps<T>(z: ZeroCopy<T>, id: nat, payload: T)
    requires ZeroCopyInv(z) && id in z.leaked
    ensures ZeroCopyInv(ZeroCopyNext(z, Write(id, payload)))
  {
    CallerHolds(z, id);
    PayloadsUntouched(Contents(z.queue), id, payload, z.payloads);
  }

  /** What one queue operation does to the payload history. */
  ghost predicate HistoryMove<T>(z: ZeroCopy<T>, o: Outcome<nat>, z': ZeroCopy<T>) {
    && z'.payloads == z.payloads
    && (if o.Published? then
          && o.item < |z.payloads| && o.item in z.pinned && z.pinned[o.item] == z.payloads[o.item]
          && z'.given == z.given + [z.pinned[o.item]] && z'.taken == z.taken
        else if o.Consumed? then
          o.item < |z.payloads| && z'.given == z.given && z'.taken == z.taken + [z.payloads[o.item]]
        else z'.given == z.given && z'.taken == z.taken)
  }

  lemma HistoryFollows<T>(z: ZeroCopy<T>, queue: seq<nat>, o: Outcome<nat>, z': ZeroCopy<T>, queue': seq<nat>)
    requires QueueStep(queue, o, queue', |z.payloads|) && HistoryMove(z, o, z')
    requires forall i | 0 <= i < |queue| :: queue[i] < |z.payloads|
    requires z.given == z.taken + QueuedPayloads(queue, z.payloads)
    ensures forall i | 0 <= i < |queue'| :: queue'[i] < |z.payloads|
    ensures z'.given == z'.taken + QueuedPayloads(queue', z.payloads)
  {
    if o.Published? {
      PayloadsAppend(queue, o.item, z.payloads);
    } else if o.Consumed? {
      QueueTail(queue, o.item, queue');
      PayloadsPop(queue', o.item, z.payloads);
    }
  }

  lemma QueueTail(queue: seq<nat>, id: nat, queue': seq<nat>)
    requires queue == [id] + queue'
    ensures forall i | 0 <= i < |queue'| :: queue'[i] == queue[i + 1]
  {
  }

  lemma QueueCallPartitions<T>(z: ZeroCopy<T>, a: Action<nat>)
    requires ZeroCopyInv(z) && Permitted(z, Queue(a))
    ensures |QueueCall(z, a).queue.buffer| > 0 && Good(QueueCall(z, a).queue, |z.payloads|)
    ensures Partitioned(QueueCall(z, a))
    ensures !Observe(Wrapping, z.queue, a).Refused?
  {
    var (z', o, size) := (QueueCall(z, a), Observe(Wrapping, z.queue, a), |z.payloads|);
    if Offering(z.queue, a) { CallerHolds(z, a.item); }
    GoodStep(z.queue, a, size);
    if o.Consumed? { CallerHolds(z, o.item); }
    var id := if Offering(z.queue, a) then a.item else if o.Consumed? then o.item else size;
    QueueMovesId(Holds(z.freeList), z.leaked, Holds(z.queue), z.consuming,
                 id, Offering(z.queue, a), o.Consumed?, size);
  }

  /** `PayloadsPinned` of the ids queued and being consumed. */
  ghost predicate Pinned<T>(ids: set<nat>, pinned: map<nat, T>, payloads: seq<T>) {
    forall id | id in ids :: id < |payloads| && id in pinned && pinned[id] == payloads[id]
  }

  lemma PinsFollow<T>(queued: set<nat>, consuming: set<nat>, pinned: map<nat, T>, payloads: seq<T>, id: nat)
    requires Pinned(queued + consuming, pinned, payloads)
    ensures id < |payloads| ==> Pinned(queued + {id} + consuming, pinned[id := payloads[id]], payloads)
    ensures id in queued ==> Pinned(queued - {id} + (consuming + {id}), pinned, payloads)
  {
  }

  /** Where a queue operation moves its id, if it moves one. */
  lemma QueueCallMoves<T>(z: ZeroCopy<T>, a: Action<nat>)
    requires ZeroCopyInv(z) && Permitted(z, Queue(a))
    ensures var (z', o) := (QueueCall(z, a), Observe(Wrapping, z.queue, a));
      && |z'.queue.buffer| > 0 && z'.payloads == z.payloads
      && QueueStep(Contents(z.queue), o, Contents(z'.queue), |z.payloads|)
      && (if Offering(z.queue, a) then
            && a.item < |z.payloads| && Holds(z'.queue) == Holds(z.queue) + {a.item}
            && z'.consuming == z.consuming && z'.pinned == z.pinned[a.item := z.payloads[a.item]]
          else if o.Consumed? then
            && o.item in Holds(z.queue) && Holds(z'.queue) == Holds(z.queue) - {o.item}
            && z'.consuming == z.consuming + {o.item} && z'.pinned == z.pinned
          else Holds(z'.queue) == Holds(z.queue) && z'.consuming == z.consuming && z'.pinned == z.pinned)
  {
    var o := Observe(Wrapping, z.queue, a);
    if Offering(z.queue, a) { CallerHolds(z, a.item); }
    GoodStep(z.queue, a, |z.payloads|);
    if o.Consumed? { CallerHolds(z, o.item); }
  }

  lemma QueueCallPins<T>(z: ZeroCopy<T>, a: Action<nat>)
    requires ZeroCopyInv(z) && Permitted(z, Queue(a))
    ensures |QueueCall(z, a).queue.buffer| > 0 && PayloadsPinned(QueueCall(z, a))
    ensures QueueStep(Contents(z.queue), Observe(Wrapping, z.queue, a), Contents(QueueCall(z, a).queue), |z.payloads|)
  {
    var (z', o) := (QueueCall(z, a), Observe(Wrapping, z.queue, a));
    QueueCallMoves(z, a);
    assert Pinned(Holds(z.queue) + z.consuming, z.pinned, z.payloads);
    PinsFollow(Holds(z.queue), z.consuming, z.pinned, z.payloads,
               if Offering(z.queue, a) then a.item else if o.Consumed? then o.item else 0);
    assert Pinned(Holds(z'.queue) + z'.consuming, z'.pinned, z'.payloads);
  }

  lemma QueueCallHistory<T>(z: ZeroCopy<T>, a: Action<nat>)
    requires ZeroCopyInv(z) && Permitted(z, Queue(a))
    ensures HistoryMove(z, Observe(Wrapping, z.queue, a), QueueCall(z, a))
  {
    var (o, size) := (Observe(Wrapping, z.queue, a), |z.payloads|);
    if Offering(z.queue, a) { CallerHolds(z, a.item); }
    GoodStep(z.queue, a, size);
    if o.Published? || o.Consumed? { CallerHolds(z, o.item); }
  }

  lemma QueueCallKeeps<T>(z: ZeroCopy<T>, a: Action<nat>)
    requires ZeroCopyInv(z) && Permitted(z, Queue(a))
    ensures ZeroCopyInv(QueueCall(z, a))
    ensures !Observe(Wrapping, z.queue, a).Refused?
  {
    var z' := QueueCall(z, a);
    QueueCallPartitions(z, a);
    QueueCallPins(z, a);
    QueueCallHistory(z, a);
    HistoryFollows(z, Contents(z.queue), Observe(Wrapping, z.queue, a), z', Contents(z'.queue));
  }

  lemma ZeroCopyNextKeeps<T>(z: ZeroCopy<T>, c: Call<T>)
    requires ZeroCopyInv(z)
    ensures ZeroCopyInv(ZeroCopyNext(z, c))
  {
    if Permitted(z, c) {
      match c
      case Allocator(a) => AllocatorStepKeeps(z, a);
      case Queue(a) => QueueCallKeeps(z, a);
      case Write(id, payload) => WriteKeeps(z, id, payload);
    }
  }

  lemma NewZeroCopy<T>(payloads: seq<T>, threads: nat)
    requires Supported(payloads, threads)
    ensures ZeroCopyInv(New(payloads, threads))
  {
    var z := New(payloads, threads);
    FullRingIsGood(|payloads|, threads);
    FreshIsGood(Iota(|payloads|), threads);
    assert Holds(z.freeList) == Below(|payloads|) && Holds(z.queue) == {};
    assert Contents(z.queue) == [];
  }

  /** The container after a whole schedule of calls and steps. */
  function Run<T>(payloads: seq<T>, threads: nat, schedule: seq<Call<T>>): (z: ZeroCopy<T>)
    requires |payloads| > 0
    ensures |z.freeList.buffer| > 0 && |z.queue.buffer| > 0 && |z.payloads| == |payloads|
  {
    if schedule == [] then New(payloads, threads)
    else ZeroCopyNext(Run(payloads, threads, schedule[..|schedule| - 1]), schedule[|schedule| - 1])
  }

  lemma {:induction false} RunKeepsZeroCopy<T>(payloads: seq<T>, threads: nat, schedule: seq<Call<T>>)
    requires Supported(payloads, threads)
    ensures |payloads| > 0 && ZeroCopyInv(Run(payloads, threads, schedule))
  {
    if schedule == [] {
      NewZeroCopy(payloads, threads);
    } else {
      RunKeepsZeroCopy(payloads, threads, schedule[..|schedule| - 1]);
      ZeroCopyNextKeeps(Run(payloads, threads, schedule[..|schedule| - 1]), schedule[|schedule| - 1]);
    }
  }

  // ---------------------------------------------------------------------------------------
  // The promises of the zero-copy container, over every schedule

  /** Each slot is free, leaked, queued or being consumed, and never two of these. */
  lemma SlotsPartition<T>(payloads: seq<T>, threads: nat, schedule: seq<Call<T>>, id: nat)
    requires Supported(payloads, threads)
    ensures |payloads| > 0
    ensures var z := Run(payloads, threads, schedule);
      Places(id, Holds(z.freeList), z.leaked, Holds(z.queue), z.consuming) == if id < |payloads| then 1 else 0
  {
    RunKeepsZeroCopy(payloads, threads, schedule);
  }

  /** Neither `publish_leaked_id` nor the release of a slot ever finds its ring full. */
  lemma NeverFull<T>(payloads: seq<T>, threads: nat, schedule: seq<Call<T>>, a: Action<nat>)
    requires Supported(payloads, threads)
    ensures |payloads| > 0
    ensures var z := Run(payloads, threads, schedule);
      && (Permitted(z, Queue(a)) ==> !Observe(Wrapping, z.queue, a).Refused?)
      && (Permitted(z, Allocator(a)) ==> !Observe(Wrapping, z.freeList, a).Refused?)
  {
    RunKeepsZeroCopy(payloads, threads, schedule);
    var z := Run(payloads, threads, schedule);
    if Permitted(z, Queue(a)) { QueueCallKeeps(z, a); }
    if Permitted(z, Allocator(a)) { AllocatorStepKeeps(z, a); }
  }

  /** What was taken is what was given first; the rest of it sits in the queued slots, in order. */
  ghost predicate InGivenOrder<T>(given: seq<T>, taken: seq<T>, queue: seq<nat>, payloads: seq<T>) {
    && taken <= given && |given| == |taken| + |queue|
    && forall i | 0 <= i < |queue| :: queue[i] < |payloads| && given[|taken| + i] == payloads[queue[i]]
  }

  lemma HistorySplits<T>(queue: seq<nat>, payloads: seq<T>, given: seq<T>, taken: seq<T>)
    requires forall i | 0 <= i < |queue| :: queue[i] < |payloads|
    requires given == taken + QueuedPayloads(queue, payloads)
    ensures InGivenOrder(given, taken, queue, payloads)
  {
  }

  /**
   Payloads come out in the order their publishes took effect, each as it was when its publish
   was called.
   */
  lemma PayloadsInOrder<T>(payloads: seq<T>, threads: nat, schedule: seq<Call<T>>)
    requires Supported(payloads, threads)
    ensures |payloads| > 0
    ensures var z := Run(payloads, threads, schedule);
      InGivenOrder(z.given, z.taken, Contents(z.queue), z.payloads)
  {
    RunKeepsZeroCopy(payloads, threads, schedule);
    var z := Run(payloads, threads, schedule);
    HistorySplits(Contents(z.queue), z.payloads, z.given, z.taken);
  }

  /** From the call of its publish to its release, a slot shows the payload it was published with. */
  lemma PayloadsUnmodified<T>(payloads: seq<T>, threads: nat, schedule: seq<Call<T>>, id: nat)
    requires Supported(payloads, threads)
    ensures |payloads| > 0
    ensures var z := Run(payloads, threads, schedule);
      id in Holds(z.queue) || id in z.consuming ==>
        id < |payloads| && id in z.pinned && z.payloads[id] == z.pinned[id]
  {
    RunKeepsZeroCopy(payloads, threads, schedule);
  }
}
