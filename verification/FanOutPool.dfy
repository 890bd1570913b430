/**
 The fan-out channel together with the free list its slots come from. Both are lock-free: every
 step of an allocation, of a deallocation and of a dispatcher interleaves with all others. A
 thread that drops the last reference, or gives a reservation up, calls the deallocation at once,
 without a shared access in between.
 */
module FanOutPool {
  import opened Counting
  import opened Wrappers
  import opened RingMachine
  import opened RingFifo
  import opened SlotRing
  import FanOut = FanOutMachine
  import Pool = PoolMachine
  import U32

  datatype System = System(pool: Pool.Pool, channel: FanOut.Channel)

  datatype Happening =
    | FreeList(a: Action<nat>)              // a step of an allocation or of a deallocation, or an allocation's call
    | Channel(e: FanOut.Event, t: nat)      // by thread `t`, which deallocates when its event frees the slot

  /** The event leaves the slot it concerns free. */
  ghost predicate Frees(c: FanOut.Channel, e: FanOut.Event) {
    && FanOut.Target(c, e).Some? && !c.slots[FanOut.Target(c, e).value].Free?
    && SlotAfter(c, e, FanOut.Target(c, e).value).Free?
  }

  ghost function SlotAfter(c: FanOut.Channel, e: FanOut.Event, id: nat): FanOut.Slot
    requires id < |c.slots|
  {
    FanOut.SlotNext(Unbounded, c.slots[id], FanOut.SenderOf(c, e), e, |c.used|, c.failed, FanOut.Lent(c.senders, id))
  }

  /** The slot it frees. */
  function Freed(c: FanOut.Channel, e: FanOut.Event): nat {
    match FanOut.Target(c, e)
    case Some(id) => id
    case None => 0
  }

  /** A thread deallocates one slot at a time. */
  predicate MayDeallocate(p: Pool.Pool, t: nat) {
    t < |p.freeList.threads| && p.freeList.threads[t].Idle?
  }

  ghost predicate Sound(s: System) {
    |s.pool.freeList.buffer| > 0 && FanOut.HasBuffers(s.channel)
  }

  /** The channel allocates nothing by itself, a sender acts for itself, and who frees a slot deallocates it. */
  ghost predicate Happens(s: System, e: FanOut.Event, t: nat)
    requires Sound(s)
  {
    && !e.Allocate? && (FanOut.BySender(e) ==> e.t == t)
    && (Frees(s.channel, e) ==> MayDeallocate(s.pool, t))
  }

  /** The step of the channel that goes with a happening; slots are allocated by the free list only. */
  ghost function ChannelPart(s: System, h: Happening): seq<FanOut.Event>
    requires Sound(s)
  {
    match h
    case FreeList(a) =>
      var o := Observe(Wrapping, s.pool.freeList, a);
      if !a.CallPublish? && Pool.Allowed(s.pool, a) && o.Consumed? then [FanOut.Allocate(o.item)] else []
    case Channel(e, t) => if Happens(s, e, t) then [e] else []
  }

  /** And that of the allocator. */
  ghost function PoolPart(s: System, h: Happening): seq<Action<nat>>
    requires Sound(s)
  {
    match h
    case FreeList(a) => if a.CallPublish? then [] else [a]
    case Channel(e, t) =>
      if Happens(s, e, t) && Frees(s.channel, e) then [CallPublish(t, Freed(s.channel, e))] else []
  }

  ghost function PoolAll(p: Pool.Pool, actions: seq<Action<nat>>): (p': Pool.Pool)
    requires |p.freeList.buffer| > 0 && |actions| <= 1
    ensures |p'.freeList.buffer| == |p.freeList.buffer|
  {
    if actions == [] then p else Pool.PoolNext(p, actions[0])
  }

  ghost function ChannelAll(c: FanOut.Channel, events: seq<FanOut.Event>): (c': FanOut.Channel)
    requires FanOut.HasBuffers(c) && |events| <= 1
    ensures FanOut.HasBuffers(c') && |c'.slots| == |c.slots|
  {
    if events == [] then c else
    FanOut.ChannelNextShape(Unbounded, c, events[0]);
    FanOut.ChannelNext(Unbounded, c, events[0])
  }

  ghost function SystemNext(s: System, h: Happening): (s': System)
    requires Sound(s)
    ensures Sound(s')
  {
    System(PoolAll(s.pool, PoolPart(s, h)), ChannelAll(s.channel, ChannelPart(s, h)))
  }

  ghost function New(size: nat, streams: nat, threads: nat): System {
    System(Pool.New(size, threads), FanOut.New(size, streams, threads))
  }

  ghost function Run(size: nat, streams: nat, threads: nat, happenings: seq<Happening>): (s: System)
    requires size > 0
    ensures Sound(s)
  {
    if happenings == [] then New(size, streams, threads)
    else SystemNext(Run(size, streams, threads, happenings[..|happenings| - 1]), happenings[|happenings| - 1])
  }

  /** The ids that are not free as far as the channel is concerned. */
  ghost function InUse(slots: seq<FanOut.Slot>): set<nat> {
    set id: nat | id < |slots| && !slots[id].Free?
  }

  /** What the allocator handed out is what the channel has in use. */
  ghost predicate SystemInv(s: System, size: nat) {
    && Pool.PoolInv(s.pool, size) && FanOut.ChannelInv(s.channel)
    && |s.channel.slots| == size && s.pool.users == InUse(s.channel.slots)
  }

  // ---------------------------------------------------------------------------------------

  lemma UseUnchanged(slots: seq<FanOut.Slot>, slots': seq<FanOut.Slot>)
    requires |slots'| == |slots| && forall id | 0 <= id < |slots| :: slots'[id].Free? <==> slots[id].Free?
    ensures InUse(slots') == InUse(slots)
  {
  }

  lemma UseChanges(slots: seq<FanOut.Slot>, id: nat, slot: FanOut.Slot)
    requires id < |slots|
    ensures InUse(slots[id := slot]) == if slot.Free? then InUse(slots) - {id} else InUse(slots) + {id}
  {
    forall x: nat | x < |slots|
      ensures x in InUse(slots[id := slot]) <==> (if x == id then !slot.Free? else x in InUse(slots))
    {
    }
  }

  /** Only allocation takes a free slot into use. */
  lemma FreeStaysFree(c: FanOut.Channel, e: FanOut.Event, id: nat)
    requires id < |c.slots| && c.slots[id].Free? && !e.Allocate?
    ensures SlotAfter(c, e, id).Free?
  {
  }

  lemma MovedUse(slots: seq<FanOut.Slot>, o: Outcome<nat>)
    ensures InUse(FanOut.SlotsMoved(slots, o)) == InUse(slots)
  {
    UseUnchanged(slots, FanOut.SlotsMoved(slots, o));
  }

  lemma TargetUse(c: FanOut.Channel, e: FanOut.Event, id: nat)
    requires !e.Allocate? && FanOut.Target(c, e) == Some(id)
    ensures InUse(FanOut.TargetNext(Unbounded, c, e, id).slots)
         == if Frees(c, e) then InUse(c.slots) - {id} else InUse(c.slots)
  {
    if c.slots[id].Free? { FreeStaysFree(c, e, id); }
    UseChanges(c.slots, id, SlotAfter(c, e, id));
  }

  /** What an event of the channel does to the ids in use. */
  lemma EventUse(c: FanOut.Channel, e: FanOut.Event)
    requires FanOut.HasBuffers(c) && !e.Allocate?
    ensures InUse(FanOut.ChannelNext(Unbounded, c, e).slots) ==
              if Frees(c, e) then InUse(c.slots) - {Freed(c, e)} else InUse(c.slots)
  {
    if e.Dispatcher? {
      if e.stream < |c.dispatchers| { MovedUse(c.slots, Observe(Wrapping, c.dispatchers[e.stream], e.step)); }
    } else if !e.ChangeStreams? && FanOut.Target(c, e).Some? {
      TargetUse(c, e, FanOut.Target(c, e).value);
    }
  }

  /** An id the allocator hands out is free, and then in use. */
  lemma AllocationUse(c: FanOut.Channel, id: nat)
    requires FanOut.HasBuffers(c) && id < |c.slots| && id !in InUse(c.slots)
    ensures c.slots[id].Free?
    ensures InUse(FanOut.ChannelNext(Unbounded, c, FanOut.Allocate(id)).slots) == InUse(c.slots) + {id}
  {
    UseChanges(c.slots, id, FanOut.Reserved);
  }

  lemma ChannelAllKeeps(c: FanOut.Channel, events: seq<FanOut.Event>)
    requires FanOut.ChannelInv(c) && |events| <= 1
    ensures FanOut.HasBuffers(c) && FanOut.ChannelInv(ChannelAll(c, events))
  {
    if events != [] { FanOut.ChannelNextKeeps(c, events[0]); }
  }

  /** Who deallocates had the slot, so the allocator may take it back, and takes it back without refusing. */
  lemma DeallocationAllowed(s: System, e: FanOut.Event, t: nat, size: nat)
    requires SystemInv(s, size) && Frees(s.channel, e) && MayDeallocate(s.pool, t)
    ensures var a := CallPublish(t, Freed(s.channel, e));
      && Pool.Allowed(s.pool, a) && Pool.PoolInv(Pool.PoolNext(s.pool, a), size)
      && Pool.PoolNext(s.pool, a).users == s.pool.users - {Freed(s.channel, e)}
  {
    var id := Freed(s.channel, e);
    assert id in InUse(s.channel.slots);
    GivenBack(s.pool, t, id, size);
  }

  lemma GivenBack(p: Pool.Pool, t: nat, id: nat, size: nat)
    requires Pool.PoolInv(p, size) && id in p.users && MayDeallocate(p, t)
    ensures var p' := Pool.PoolNext(p, CallPublish(t, id));
      Pool.Allowed(p, CallPublish(t, id)) && Pool.PoolInv(p', size) && p'.users == p.users - {id}
  {
    Pool.NextKeepsPool(p, CallPublish(t, id), size);
  }

  lemma ChannelKeepsSystem(s: System, e: FanOut.Event, t: nat, size: nat)
    requires SystemInv(s, size)
    ensures SystemInv(SystemNext(s, Channel(e, t)), size)
  {
    ChannelAllKeeps(s.channel, ChannelPart(s, Channel(e, t)));
    if Happens(s, e, t) {
      EventUse(s.channel, e);
      if Frees(s.channel, e) { DeallocationAllowed(s, e, t, size); }
    }
  }

  /** The allocator's own steps, which call no deallocation. */
  lemma FreeListStep(p: Pool.Pool, a: Action<nat>, size: nat)
    requires Pool.PoolInv(p, size) && !a.CallPublish?
    ensures Pool.PoolInv(Pool.PoolNext(p, a), size)
    ensures var o := Observe(Wrapping, p.freeList, a);
      && (Pool.Allowed(p, a) && o.Consumed? ==>
            o.item < size && o.item !in p.users && Pool.PoolNext(p, a).users == p.users + {o.item})
      && (!Pool.Allowed(p, a) || !o.Consumed? ==> Pool.PoolNext(p, a).users == p.users)
  {
    if Pool.Allowed(p, a) {
      Pool.NextKeepsPool(p, a, size);
      FreeNotUsed(p.users, Holds(p.freeList), size);
    }
  }

  lemma FreeNotUsed(users: set<nat>, held: set<nat>, size: nat)
    requires users !! held && users + held == Below(size)
    ensures forall id | id in held :: id !in users && id < size
  {
  }

  lemma FreeListKeepsSystem(s: System, a: Action<nat>, size: nat)
    requires SystemInv(s, size)
    ensures SystemInv(SystemNext(s, FreeList(a)), size)
  {
    ChannelAllKeeps(s.channel, ChannelPart(s, FreeList(a)));
    if !a.CallPublish? {
      FreeListStep(s.pool, a, size);
      var o := Observe(Wrapping, s.pool.freeList, a);
      if Pool.Allowed(s.pool, a) && o.Consumed? { AllocationUse(s.channel, o.item); }
    }
  }

  lemma NewPool(size: nat, threads: nat)
    requires U32.PowerOfTwo(size) && 0 < size < 0x8000_0000 && threads <= 0x8000_0001
    ensures Pool.PoolInv(Pool.New(size, threads), size) && Pool.New(size, threads).users == {}
  {
    FullRingIsGood(size, threads);
  }

  lemma NothingUsed(slots: seq<FanOut.Slot>)
    requires forall id | 0 <= id < |slots| :: slots[id].Free?
    ensures InUse(slots) == {}
  {
  }

  lemma NewChannel(size: nat, streams: nat, threads: nat)
    requires U32.PowerOfTwo(size) && 0 < size < 0x8000_0000 && threads <= 0x8000_0001
    ensures var c := FanOut.New(size, streams, threads);
      FanOut.ChannelInv(c) && |c.slots| == size && InUse(c.slots) == {}
  {
    FanOut.NewIsOk(size, streams, threads);
    NothingUsed(FanOut.New(size, streams, threads).slots);
  }

  lemma NewSystem(size: nat, streams: nat, threads: nat)
    requires U32.PowerOfTwo(size) && 0 < size < 0x8000_0000 && threads <= 0x8000_0001
    ensures SystemInv(New(size, streams, threads), size)
  {
    NewPool(size, threads);
    NewChannel(size, streams, threads);
    Together(Pool.New(size, threads), FanOut.New(size, streams, threads), size);
  }

  lemma Together(p: Pool.Pool, c: FanOut.Channel, size: nat)
    requires Pool.PoolInv(p, size) && FanOut.ChannelInv(c) && |c.slots| == size && p.users == InUse(c.slots)
    ensures SystemInv(System(p, c), size)
  {
  }

  lemma {:induction false} RunKeepsSystem(size: nat, streams: nat, threads: nat, happenings: seq<Happening>)
    requires U32.PowerOfTwo(size) && 0 < size < 0x8000_0000 && threads <= 0x8000_0001
    ensures SystemInv(Run(size, streams, threads, happenings), size)
  {
    if happenings == [] {
      NewSystem(size, streams, threads);
    } else {
      var (front, h) := (happenings[..|happenings| - 1], happenings[|happenings| - 1]);
      RunKeepsSystem(size, streams, threads, front);
      NextKeepsSystem(Run(size, streams, threads, front), h, size);
    }
  }

  lemma NextKeepsSystem(s: System, h: Happening, size: nat)
    requires SystemInv(s, size)
    ensures SystemInv(SystemNext(s, h), size)
  {
    if h.FreeList? { FreeListKeepsSystem(s, h.a, size); } else { ChannelKeepsSystem(s, h.e, h.t, size); }
  }

  // ---------------------------------------------------------------------------------------
  // What follows about the two together

  /**
   Over every run, sends that overlap or panic included: whoever frees a slot is allowed to
   deallocate it, and no deallocation finds the free list full.
   */
  lemma DeallocationsAreAllowed(s: System, size: nat, streams: nat, threads: nat, happenings: seq<Happening>,
                                e: FanOut.Event, t: nat, a: Action<nat>)
    requires U32.PowerOfTwo(size) && 0 < size < 0x8000_0000 && threads <= 0x8000_0001
    requires s == Run(size, streams, threads, happenings)
    ensures Frees(s.channel, e) && MayDeallocate(s.pool, t) ==>
              Pool.Allowed(s.pool, CallPublish(t, Freed(s.channel, e)))
    ensures Pool.Allowed(s.pool, a) ==> !Observe(Wrapping, s.pool.freeList, a).Refused?
  {
    RunKeepsSystem(size, streams, threads, happenings);
    if Frees(s.channel, e) && MayDeallocate(s.pool, t) { DeallocationAllowed(s, e, t, size); }
    if Pool.Allowed(s.pool, a) { Pool.NextKeepsPool(s.pool, a, size); }
  }

  /**
   Over every run, the slots are at every instant free, being deallocated, or in use by the
   channel, never two of these, and all of them together: none is lost.
   */
  lemma SlotsAreSomewhere(s: System, size: nat, streams: nat, threads: nat, happenings: seq<Happening>)
    requires U32.PowerOfTwo(size) && 0 < size < 0x8000_0000 && threads <= 0x8000_0001
    requires s == Run(size, streams, threads, happenings)
    ensures var (free, freeing, used) :=
        (Elements(Contents(s.pool.freeList)), TokenRing.InHands(s.pool.freeList.threads), InUse(s.channel.slots));
      && free !! freeing && free !! used && freeing !! used
      && free + freeing + used == Below(size)
      && |Contents(s.pool.freeList)| + |freeing| + |used| == size
  {
    RunKeepsSystem(size, streams, threads, happenings);
    GoodHolds(s.pool.freeList, size);
    Pool.PartitionCounts(Contents(s.pool.freeList), TokenRing.InHands(s.pool.freeList.threads), s.pool.users, size);
  }

  // ---------------------------------------------------------------------------------------
  // Once each

  /** How often slot `id` was allocated in a run. */
  ghost function Allocations(size: nat, streams: nat, threads: nat, happenings: seq<Happening>, id: nat): nat
    requires size > 0
  {
    if happenings == [] then 0 else
    var front := happenings[..|happenings| - 1];
    var part := ChannelPart(Run(size, streams, threads, front), happenings[|happenings| - 1]);
    Allocations(size, streams, threads, front, id) + if part == [FanOut.Allocate(id)] then 1 else 0
  }

  ghost predicate Deallocates(actions: seq<Action<nat>>, id: nat) {
    |actions| == 1 && actions[0].CallPublish? && actions[0].item == id
  }

  /** How often it was passed to a deallocation. */
  ghost function Deallocations(size: nat, streams: nat, threads: nat, happenings: seq<Happening>, id: nat): nat
    requires size > 0
  {
    if happenings == [] then 0 else
    var front := happenings[..|happenings| - 1];
    var part := PoolPart(Run(size, streams, threads, front), happenings[|happenings| - 1]);
    Deallocations(size, streams, threads, front, id) + if Deallocates(part, id) then 1 else 0
  }

  lemma FreedWasUsed(c: FanOut.Channel, e: FanOut.Event)
    requires Frees(c, e)
    ensures Freed(c, e) in InUse(c.slots)
  {
  }

  /** A slot comes into use by its allocation and goes out of use by its deallocation. */
  lemma UseFollows(s: System, h: Happening, size: nat, id: nat)
    requires SystemInv(s, size)
    ensures var (before, after) := (id in InUse(s.channel.slots), id in InUse(SystemNext(s, h).channel.slots));
      (if after then 1 else 0) - (if before then 1 else 0) ==
        (if ChannelPart(s, h) == [FanOut.Allocate(id)] then 1 else 0)
        - (if Deallocates(PoolPart(s, h), id) then 1 else 0)
  {
    if h.FreeList? {
      if !h.a.CallPublish? {
        FreeListStep(s.pool, h.a, size);
        var o := Observe(Wrapping, s.pool.freeList, h.a);
        if Pool.Allowed(s.pool, h.a) && o.Consumed? { AllocationUse(s.channel, o.item); }
      }
    } else if Happens(s, h.e, h.t) {
      EventUse(s.channel, h.e);
      if Frees(s.channel, h.e) { FreedWasUsed(s.channel, h.e); }
    }
  }

  /** In every run, each slot was deallocated once for every time it was allocated, but for the time it is in use. */
  lemma {:induction false} DeallocatedOnce(size: nat, streams: nat, threads: nat, happenings: seq<Happening>, id: nat)
    requires U32.PowerOfTwo(size) && 0 < size < 0x8000_0000 && threads <= 0x8000_0001
    ensures Allocations(size, streams, threads, happenings, id) ==
              Deallocations(size, streams, threads, happenings, id)
              + if id in InUse(Run(size, streams, threads, happenings).channel.slots) then 1 else 0
  {
    if happenings == [] {
      assert InUse(New(size, streams, threads).channel.slots) == {};
    } else {
      var front := happenings[..|happenings| - 1];
      DeallocatedOnce(size, streams, threads, front, id);
      RunKeepsSystem(size, streams, threads, front);
      UseFollows(Run(size, streams, threads, front), happenings[|happenings| - 1], size, id);
    }
  }

  // ---------------------------------------------------------------------------------------
  // Each half is a run of its own machine

  ghost function PoolSchedule(size: nat, streams: nat, threads: nat, happenings: seq<Happening>): seq<Action<nat>>
    requires size > 0
  {
    if happenings == [] then [] else
    var front := happenings[..|happenings| - 1];
    var before := Run(size, streams, threads, front);
    PoolSchedule(size, streams, threads, front) + PoolPart(before, happenings[|happenings| - 1])
  }

  ghost function ChannelEvents(size: nat, streams: nat, threads: nat, happenings: seq<Happening>): seq<FanOut.Event>
    requires size > 0
  {
    if happenings == [] then [] else
    var front := happenings[..|happenings| - 1];
    var before := Run(size, streams, threads, front);
    ChannelEvents(size, streams, threads, front) + ChannelPart(before, happenings[|happenings| - 1])
  }

  lemma PoolAppends(size: nat, threads: nat, schedule: seq<Action<nat>>, more: seq<Action<nat>>)
    requires size > 0 && |more| <= 1
    ensures Pool.Run(size, threads, schedule + more) == PoolAll(Pool.Run(size, threads, schedule), more)
  {
    if more == [] {
      assert schedule + more == schedule;
    } else {
      assert (schedule + more)[..|schedule|] == schedule;
    }
  }

  lemma ChannelAppends(c: FanOut.Channel, events: seq<FanOut.Event>, more: seq<FanOut.Event>)
    requires FanOut.HasBuffers(c) && |more| <= 1
    ensures FanOut.Run(Unbounded, c, events + more) == ChannelAll(FanOut.Run(Unbounded, c, events), more)
  {
    if more == [] {
      assert events + more == events;
    } else {
      assert (events + more)[..|events|] == events;
    }
  }

  lemma {:induction false} PoolHalf(size: nat, streams: nat, threads: nat, happenings: seq<Happening>)
    requires size > 0
    ensures Run(size, streams, threads, happenings).pool ==
              Pool.Run(size, threads, PoolSchedule(size, streams, threads, happenings))
  {
    if happenings != [] {
      var (front, h) := (happenings[..|happenings| - 1], happenings[|happenings| - 1]);
      PoolHalf(size, streams, threads, front);
      PoolAppends(size, threads, PoolSchedule(size, streams, threads, front),
                  PoolPart(Run(size, streams, threads, front), h));
    }
  }

  lemma {:induction false} ChannelHalf(size: nat, streams: nat, threads: nat, happenings: seq<Happening>)
    requires size > 0
    ensures Run(size, streams, threads, happenings).channel ==
              FanOut.Run(Unbounded, FanOut.New(size, streams, threads),
                         ChannelEvents(size, streams, threads, happenings))
  {
    if happenings != [] {
      var (front, h) := (happenings[..|happenings| - 1], happenings[|happenings| - 1]);
      ChannelHalf(size, streams, threads, front);
      ChannelAppends(FanOut.New(size, streams, threads), ChannelEvents(size, streams, threads, front),
                     ChannelPart(Run(size, streams, threads, front), h));
    }
  }

  /** So everything proved of `PoolMachine` and of `FanOutMachine` holds of the two together. */
  lemma HalvesAreRuns(size: nat, streams: nat, threads: nat, happenings: seq<Happening>)
    requires size > 0
    ensures var s := Run(size, streams, threads, happenings);
      && s.pool == Pool.Run(size, threads, PoolSchedule(size, streams, threads, happenings))
      && s.channel == FanOut.Run(Unbounded, FanOut.New(size, streams, threads),
                                 ChannelEvents(size, streams, threads, happenings))
  {
    PoolHalf(size, streams, threads, happenings);
    ChannelHalf(size, streams, threads, happenings);
  }
}
