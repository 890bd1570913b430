/**
 `OgreArrayPoolAllocator` shared by any number of threads. Its free list is the lock-free
 ring, so every allocation and every deallocation is a sequence of atomic steps that
 interleave freely. Only ids that are currently allocated may be deallocated.
 */
module PoolMachine {
  import opened Counting
  import opened RingMachine
  import opened RingFifo
  import opened TokenRing
  import opened SlotRing
  import U32

  /** The free list, and the ids handed out by `alloc_ref` and not yet passed to `dealloc_id`. */
  datatype Pool = Pool(freeList: Ring<nat>, users: set<nat>)

  function New(size: nat, threads: nat): Pool {
    Pool(FullRing(size, threads), {})
  }

  /** `dealloc_id` publishes the id on the free list, `alloc_ref` consumes one from it. */
  predicate Allowed(p: Pool, a: Action<nat>) {
    match a
    case CallPublish(_, id) => id in p.users
    case Unleak(_, _) => false
    case _ => true
  }

  function PoolNext(p: Pool, a: Action<nat>): (p': Pool)
    requires |p.freeList.buffer| > 0
    ensures |p'.freeList.buffer| == |p.freeList.buffer|
  {
    if !Allowed(p, a) then p else
    var o := Observe(Wrapping, p.freeList, a);
    NextKeepsShape(Wrapping, p.freeList, a);
    Pool(Next(Wrapping, p.freeList, a),
         if Offering(p.freeList, a) then p.users - {a.item}
         else if o.Consumed? then p.users + {o.item}
         else p.users)
  }

  /** The pool after a whole schedule of calls and steps. */
  function Run(size: nat, threads: nat, schedule: seq<Action<nat>>): (p: Pool)
    requires size > 0
    ensures |p.freeList.buffer| == size
  {
    if schedule == [] then New(size, threads)
    else PoolNext(Run(size, threads, schedule[..|schedule| - 1]), schedule[|schedule| - 1])
  }

  ghost predicate PoolInv(p: Pool, size: nat) {
    && Good(p.freeList, size)
    && |p.freeList.buffer| > 0
    && p.users !! Holds(p.freeList)
    && p.users + Holds(p.freeList) == Below(size)
  }

  /** An id leaves the hands of its user for the free list, or the free list for the hands of a user. */
  lemma IdsMove(users: set<nat>, held: set<nat>, offers: bool, id: nat, o: Outcome<nat>, held': set<nat>, size: nat)
    requires users !! held && users + held == Below(size)
    requires offers ==> id in users
    requires !offers && o.Consumed? ==> o.item in held
    requires held' == if offers then held + {id} else if o.Consumed? then held - {o.item} else held
    ensures var users' := if offers then users - {id} else if o.Consumed? then users + {o.item} else users;
      users' !! held' && users' + held' == Below(size)
  {
  }

  lemma NextKeepsPool(p: Pool, a: Action<nat>, size: nat)
    requires PoolInv(p, size) && Allowed(p, a)
    ensures PoolInv(PoolNext(p, a), size)
    ensures !Observe(Wrapping, p.freeList, a).Refused?
    ensures Observe(Wrapping, p.freeList, a).Consumed? ==> Observe(Wrapping, p.freeList, a).item in Holds(p.freeList)
  {
    var (p', o) := (PoolNext(p, a), Observe(Wrapping, p.freeList, a));
    GoodStep(p.freeList, a, size);
    IdsMove(p.users, Holds(p.freeList), Offering(p.freeList, a), if a.CallPublish? then a.item else 0, o,
            Holds(p'.freeList), size);
  }

  lemma {:induction false} RunKeepsPool(size: nat, threads: nat, schedule: seq<Action<nat>>)
    requires U32.PowerOfTwo(size) && size < 0x8000_0000 && threads <= 0x8000_0001
    ensures size > 0 && PoolInv(Run(size, threads, schedule), size)
  {
    FullRingIsGood(size, threads);
    if schedule != [] {
      RunKeepsPool(size, threads, schedule[..|schedule| - 1]);
      var (before, a) := (Run(size, threads, schedule[..|schedule| - 1]), schedule[|schedule| - 1]);
      if Allowed(before, a) { NextKeepsPool(before, a, size); }
    }
  }

  /**
   The result that `dealloc_id` ignores is never a refusal: in no interleaving does its publish
   find the free list full.
   */
  lemma DeallocNeverRefused(size: nat, threads: nat, schedule: seq<Action<nat>>, a: Action<nat>)
    requires U32.PowerOfTwo(size) && size < 0x8000_0000 && threads <= 0x8000_0001
    ensures size > 0
    ensures var p := Run(size, threads, schedule);
      Allowed(p, a) ==> !Observe(Wrapping, p.freeList, a).Refused?
  {
    RunKeepsPool(size, threads, schedule);
    var p := Run(size, threads, schedule);
    if Allowed(p, a) { NextKeepsPool(p, a, size); }
  }

  lemma PartitionCounts(free: seq<nat>, freeing: set<nat>, users: set<nat>, size: nat)
    requires Distinct(free) && Elements(free) !! freeing
    requires users !! (Elements(free) + freeing) && users + (Elements(free) + freeing) == Below(size)
    ensures Elements(free) !! users && freeing !! users && Elements(free) + freeing + users == Below(size)
    ensures |free| + |freeing| + |users| == size
  {
    DistinctCount(free);
    assert Elements(free) + freeing + users == Below(size);
    assert |Elements(free) + freeing + users| == |Elements(free) + freeing| + |users|;
  }

  /**
   No slot is lost and none is shared: at every instant the free ids, the ids being deallocated
   and the allocated ids are pairwise disjoint, free ids do not repeat, and together they are
   all `size` ids.
   */
  lemma SlotsAreConserved(size: nat, threads: nat, schedule: seq<Action<nat>>)
    requires U32.PowerOfTwo(size) && size < 0x8000_0000 && threads <= 0x8000_0001
    ensures size > 0
    ensures var p := Run(size, threads, schedule);
      var (free, freeing) := (Elements(Contents(p.freeList)), InHands(p.freeList.threads));
      && free !! freeing && free !! p.users && freeing !! p.users
      && free + freeing + p.users == Below(size)
      && |Contents(p.freeList)| + |freeing| + |p.users| == size
  {
    RunKeepsPool(size, threads, schedule);
    var p := Run(size, threads, schedule);
    GoodHolds(p.freeList, size);
    PartitionCounts(Contents(p.freeList), InHands(p.freeList.threads), p.users, size);
  }

  /** `alloc_ref` only ever hands out an id below the size that nobody has. */
  lemma AllocIsExclusive(size: nat, threads: nat, schedule: seq<Action<nat>>, a: Action<nat>)
    requires U32.PowerOfTwo(size) && size < 0x8000_0000 && threads <= 0x8000_0001
    ensures size > 0
    ensures var p := Run(size, threads, schedule);
      var o := Observe(Wrapping, p.freeList, a);
      Allowed(p, a) && o.Consumed? ==> o.item < size && o.item !in p.users && o.item in PoolNext(p, a).users
  {
    RunKeepsPool(size, threads, schedule);
    var p := Run(size, threads, schedule);
    if Allowed(p, a) {
      NextKeepsPool(p, a, size);
    }
  }
}
