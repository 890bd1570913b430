/**
 `OgreArrayPoolAllocator` as one thread sees it while no other is inside: a pool of slots and
 a free list of their ids, both changed in place. `PoolMachine` has the same allocator shared
 by any number of threads.
 */
module PoolAllocator {
  import opened Counting
  import opened Wrappers
  import opened AtomicMove
  import U32

  // ---------------------------------------------------------------------------------------
  // References: a slot's address is its id scaled by the slot width from the pool's first slot

  /** `ref_from_id` */
  function RefFromId(base: nat, width: nat, size: nat, id: nat): nat
    requires size > 0
  {
    base + (id % size) * width
  }

  /** `id_from_ref`: the distance from the first slot, in slots. */
  function IdFromRef(base: nat, width: nat, ref: nat): nat
    requires width > 0 && ref >= base
  {
    (ref - base) / width
  }

  ghost predicate IsSlot(base: nat, width: nat, size: nat, ref: nat) {
    exists id: nat :: id < size && ref == base + id * width
  }

  lemma IdOfSlot(base: nat, width: nat, size: nat, id: nat)
    requires width > 0 && id < size
    ensures RefFromId(base, width, size, id) == base + id * width
    ensures IsSlot(base, width, size, base + id * width)
    ensures IdFromRef(base, width, base + id * width) == id
  {
    U32.RemainderIs(id, size, 0, id);
    U32.RemainderIs(id * width, width, id, 0);
  }

  /** The two conversions are mutual inverses between the ids below the size and the slots of the pool. */
  lemma ConversionsInvert(base: nat, width: nat, size: nat, id: nat, ref: nat)
    requires width > 0 && size > 0
    ensures id < size ==> IdFromRef(base, width, RefFromId(base, width, size, id)) == id
    ensures IsSlot(base, width, size, ref) ==>
              IdFromRef(base, width, ref) < size && RefFromId(base, width, size, IdFromRef(base, width, ref)) == ref
  {
    if id < size { IdOfSlot(base, width, size, id); }
    if IsSlot(base, width, size, ref) {
      var k: nat :| k < size && ref == base + k * width;
      IdOfSlot(base, width, size, k);
    }
  }

  /** Free and used ids partition the pool, and no id is free twice. */
  ghost predicate Partition(free: seq<nat>, users: set<nat>, size: nat) {
    Distinct(free) && Elements(free) !! users && Elements(free) + users == Below(size)
  }

  /** A free list that lacks an id, because somebody uses it, has room for it. */
  lemma RoomForUser(free: seq<nat>, users: set<nat>, id: nat, size: nat)
    requires Partition(free, users, size) && id in users
    ensures |free| < size
  {
    DistinctCount(free);
    assert Elements(free) <= Below(size) - {id};
    SubsetCount(Elements(free), Below(size) - {id});
  }

  lemma AllFree(free: seq<nat>)
    requires forall i | 0 <= i < |free| :: free[i] == i
    ensures Partition(free, {}, |free|)
  {
    forall x | 0 <= x < |free|
      ensures x in free
    {
      assert free[x] == x;
    }
  }

  lemma TakeFirst(free: seq<nat>, id: nat, rest: seq<nat>, users: set<nat>, size: nat)
    requires Partition(free, users, size) && free == [id] + rest
    ensures id < size && id !in users && Partition(rest, users + {id}, size)
  {
    assert free[0] == id && rest == free[1..];
    assert id in Elements(free);
    assert Elements(free) == Elements(rest) + {id};
    assert id !in Elements(rest);
  }

  lemma GiveBack(free: seq<nat>, users: set<nat>, id: nat, size: nat)
    requires Partition(free, users, size) && id in users
    ensures Partition(free + [id], users - {id}, size)
  {
    assert id !in Elements(free);
    assert forall i | 0 <= i < |free| :: free[i] in Elements(free);
    assert Elements(free + [id]) == Elements(free) + {id};
  }

  lemma AllUsed(free: seq<nat>, users: set<nat>, size: nat)
    requires Partition(free, users, size)
    ensures free == [] <==> users == Below(size)
  {
    if free != [] {
      assert free[0] in Elements(free);
    }
  }

  /** Who has which id after a consume from the free list. */
  lemma Allocated(free: seq<nat>, id: Option<nat>, rest: seq<nat>, users: set<nat>, size: nat)
      returns (users': set<nat>)
    requires Partition(free, users, size)
    requires if id.Some? then free == [id.value] + rest else free == rest == []
    ensures Partition(rest, users', size) && (id.None? <==> users == Below(size))
    ensures id.None? ==> users' == users
    ensures id.Some? ==> id.value < size && id.value !in users && users' == users + {id.value}
  {
    AllUsed(free, users, size);
    if id.Some? {
      TakeFirst(free, id.value, rest, users, size);
      users' := users + {id.value};
    } else {
      users' := users;
    }
  }

  class OgreArrayPoolAllocator<T> {
    const pool: array<T>
    const freeList: AtomicMove<nat>
    const base: nat
    const width: nat
    ghost var users: set<nat>

    ghost predicate Valid()
      reads this, freeList, freeList.buffer
    {
      && width > 0 && freeList.Valid() && freeList.buffer.Length == pool.Length
      && freeList.reserved == freeList.published && freeList.claimed == freeList.released
      && Partition(freeList.Contents(), users, pool.Length)
    }

    constructor (size: nat, initial: T, base: nat, width: nat)
      requires U32.PowerOfTwo(size) && 0 < size < 0x8000_0000 && width > 0
      ensures Valid() && fresh(pool) && fresh(freeList) && fresh(freeList.buffer)
      ensures users == {} && pool.Length == size && this.base == base && this.width == width
      ensures |freeList.Contents()| == size && forall i | 0 <= i < size :: freeList.Contents()[i] == i
      ensures freeList.head == 0 && freeList.published == size && freeList.released == 0
    {
      pool := new T[size](_ => initial);
      freeList := new AtomicMove(size, 0);
      this.base, this.width := base, width;
      users := {};
      new;
      var slotId := 0;
      while slotId < size
        invariant slotId <= size && freeList.Valid() && freeList.buffer.Length == size
        invariant fresh(freeList) && fresh(freeList.buffer)
        invariant freeList.reserved == freeList.published == slotId && freeList.claimed == freeList.released == 0
        invariant freeList.head == 0 && users == {}
        invariant |freeList.Contents()| == slotId && forall i | 0 <= i < slotId :: freeList.Contents()[i] == i
      {
        var len, back := freeList.PublishMovable(slotId);
        slotId := slotId + 1;
      }
      AllFree(freeList.Contents());
    }

    /** The free list's half of `alloc_ref`: takes an id, or nothing exactly when every slot is in use. */
    method AllocId() returns (id: Option<nat>)
      requires Valid()
      modifies this`users, freeList`dequeuerHead, freeList`claimed, freeList`head, freeList`released
      ensures Valid()
      ensures id.None? <==> old(users) == Below(pool.Length)
      ensures id.None? ==> users == old(users)
      ensures id.Some? ==> id.value < pool.Length && id.value !in old(users) && users == old(users) + {id.value}
    {
      ghost var free := freeList.Contents();
      id := freeList.ConsumeMovable();
      users := Allocated(free, id, freeList.Contents(), users, pool.Length);
    }

    /** Hands out the reference and the id of a free slot, or nothing exactly when every slot is in use. */
    method AllocRef() returns (slot: Option<(nat, nat)>)
      requires Valid()
      modifies this`users, freeList`dequeuerHead, freeList`claimed, freeList`head, freeList`released
      ensures Valid()
      ensures slot.None? <==> old(users) == Below(pool.Length)
      ensures slot.None? ==> users == old(users)
      ensures slot.Some? ==>
                var (ref, id) := slot.value;
                && id < pool.Length && id !in old(users) && users == old(users) + {id}
                && ref == RefFromId(base, width, pool.Length, id)
    {
      var id := AllocId();
      if id.None? {
        return None;
      }
      IdOfSlot(base, width, pool.Length, id.value);
      return Some((base + id.value * width, id.value));
    }

    /** Returns a slot to the free list, which always has room for it. */
    method DeallocId(slotId: nat)
      requires Valid() && slotId in users
      modifies this`users, freeList, freeList.buffer
      ensures Valid() && users == old(users) - {slotId}
      ensures freeList.Contents() == old(freeList.Contents()) + [slotId]
    {
      RoomForUser(freeList.Contents(), users, slotId, pool.Length);
      GiveBack(freeList.Contents(), users, slotId, pool.Length);
      var len, back := freeList.PublishMovable(slotId);
      users := users - {slotId};
    }

    /** Deallocating by reference is deallocating by the id behind it. */
    method DeallocRef(ref: nat, ghost id: nat)
      requires Valid() && id in users && ref == RefFromId(base, width, pool.Length, id)
      modifies this`users, freeList, freeList.buffer
      ensures Valid() && users == old(users) - {id}
      ensures freeList.Contents() == old(freeList.Contents()) + [id]
    {
      ConversionsInvert(base, width, pool.Length, id, ref);
      DeallocId(IdFromRef(base, width, ref));
    }
  }
}
