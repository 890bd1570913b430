/**
 `OgreArc` and `OgreUnique`, taken one operation at a time. Handles of one slot share an inner
 object with the `u32` reference count; what handles exist is ghost state. `FanOutMachine` has
 the same counts under concurrency.
 */
module OgreArc {
  import opened PoolAllocator
  import U32

  class InnerOgreArc<T> {
    const allocator: OgreArrayPoolAllocator<T>
    const dataId: nat
    var referencesCount: nat

    /** The handles alive, and the raw copies announced and not made yet. */
    ghost var handles: nat
    ghost var owed: nat

    ghost predicate Valid()
      reads this, allocator, allocator.freeList, allocator.freeList.buffer
    {
      && allocator.Valid() && dataId in allocator.users
      && referencesCount == U32.Wrap(handles + owed)
    }

    /** `from_allocated_with_clones`: the one inner object behind `count` new handles. */
    constructor FromAllocatedWithClones(count: nat, dataId: nat, allocator: OgreArrayPoolAllocator<T>)
      requires allocator.Valid() && dataId in allocator.users
      ensures Valid() && this.allocator == allocator && this.dataId == dataId
      ensures handles == count && owed == 0
    {
      this.allocator, this.dataId := allocator, dataId;
      referencesCount := U32.Wrap(count);
      handles, owed := count, 0;
    }

    method IncrementReferences(count: nat)
      requires Valid() && handles > 0 && count < 0x1_0000_0000
      modifies this`referencesCount, this`owed
      ensures Valid() && owed == old(owed) + count
    {
      U32.WrapSum(handles + owed, count);
      referencesCount := U32.Wrap(referencesCount + count);
      owed := owed + count;
    }

    /** Makes one of the announced copies, leaving the count alone. */
    method RawCopy() returns (copy: InnerOgreArc<T>)
      requires Valid() && handles > 0 && owed > 0
      modifies this`handles, this`owed
      ensures Valid() && copy == this && handles == old(handles) + 1 && owed == old(owed) - 1
    {
      handles, owed := handles + 1, owed - 1;
      copy := this;
    }

    method Clone() returns (copy: InnerOgreArc<T>)
      requires Valid() && handles > 0
      modifies this`referencesCount, this`handles
      ensures Valid() && copy == this && handles == old(handles) + 1
    {
      U32.NextWraps(handles + owed);
      referencesCount := U32.Wrap(referencesCount + 1);
      handles := handles + 1;
      copy := this;
    }

    /**
     Drops one handle. The slot goes back to the allocator exactly when the count read was one. That
     is right, at the last reference and at no other, if and only if it was not one of several
     references whose number reads as one; so it is as long as there are at most 2^32 of them.
     */
    method Drop() returns (freed: bool)
      requires Valid() && handles > 0
      modifies this`referencesCount, this`handles
      modifies allocator`users, allocator.freeList, allocator.freeList.buffer
      ensures handles == old(handles) - 1
      ensures freed <==> U32.Wrap(old(handles + owed)) == 1
      ensures (freed <==> handles + owed == 0) <==> !(old(handles + owed) > 1 && U32.Wrap(old(handles + owed)) == 1)
      ensures old(handles + owed) <= 0x1_0000_0000 ==> (freed <==> handles + owed == 0)
      ensures !freed ==> Valid() && allocator.users == old(allocator.users)
      ensures freed ==> allocator.Valid() && allocator.users == old(allocator.users) - {dataId}
    {
      var references := referencesCount;
      U32.NextWraps(handles + owed - 1);
      if handles + owed <= 0x1_0000_0000 { U32.Injective(handles + owed, 1); }
      referencesCount := U32.Wrap(referencesCount - 1);
      handles := handles - 1;
      if references != 1 {
        return false;
      }
      allocator.DeallocId(dataId);
      return true;
    }
  }

  class OgreUnique<T> {
    const allocator: OgreArrayPoolAllocator<T>
    const dataRef: nat

    /** The id of the slot it owns. */
    ghost const dataId: nat

    ghost predicate Valid()
      reads allocator, allocator.freeList, allocator.freeList.buffer
    {
      && allocator.Valid() && dataId in allocator.users && dataId < allocator.pool.Length
      && dataRef == RefFromId(allocator.base, allocator.width, allocator.pool.Length, dataId)
    }

    /** `from_allocated_id` */
    constructor FromAllocatedId(dataId: nat, allocator: OgreArrayPoolAllocator<T>)
      requires allocator.Valid() && dataId in allocator.users && dataId < allocator.pool.Length
      ensures Valid() && this.allocator == allocator && this.dataId == dataId
    {
      this.allocator, this.dataId := allocator, dataId;
      this.dataRef := RefFromId(allocator.base, allocator.width, allocator.pool.Length, dataId);
    }

    /** The slot passes to a handle with the count one; nothing is deallocated on the way. */
    method IntoOgreArc() returns (arc: InnerOgreArc<T>)
      requires Valid()
      ensures arc.Valid() && arc.allocator == allocator && arc.dataId == dataId
      ensures arc.handles == 1 && arc.owed == 0 && fresh(arc)
    {
      ConversionsInvert(allocator.base, allocator.width, allocator.pool.Length, dataId, dataRef);
      RefIsAfterBase(allocator.base, allocator.width, allocator.pool.Length, dataId);
      arc := new InnerOgreArc.FromAllocatedWithClones(1, IdFromRef(allocator.base, allocator.width, dataRef),
                                                      allocator);
    }

    /** Returns the slot to the allocator. */
    method Drop()
      requires Valid()
      modifies allocator`users, allocator.freeList, allocator.freeList.buffer
      ensures allocator.Valid() && allocator.users == old(allocator.users) - {dataId}
    {
      allocator.DeallocRef(dataRef, dataId);
    }
  }

  lemma RefIsAfterBase(base: nat, width: nat, size: nat, id: nat)
    requires size > 0
    ensures RefFromId(base, width, size, id) >= base
  {
  }
}
