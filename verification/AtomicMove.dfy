/**
 `AtomicMove` as one thread sees it while no other thread takes a step and no weak
 compare-exchange fails spuriously: the `u32` counters and the buffer, changed in place. Other
 threads may have stopped anywhere inside, with reservations and claims that are granted or
 still to be refused. `RingMachine` and `IndexCalls` have the same operations step by step for
 any number of threads.
 */
module AtomicMove {
  import opened Wrappers
  import opened Laps
  import opened RingMachine
  import RingFifo
  import opened LoneCalls
  import U32

  /** The slots under the ids from `from` to `to`, in id order. */
  ghost function Slots<T>(buffer: seq<T>, from: nat, to: nat): (s: seq<T>)
    requires |buffer| > 0 && from <= to
    ensures |s| == to - from
  {
    seq(to - from, i requires 0 <= i < to - from => buffer[(from + i) % |buffer|])
  }

  lemma SlotsGrow<T>(buffer: seq<T>, from: nat, to: nat)
    requires |buffer| > 0 && from <= to
    ensures Slots(buffer, from, to + 1) == Slots(buffer, from, to) + [buffer[to % |buffer|]]
  {
  }

  lemma SlotsShrink<T>(buffer: seq<T>, from: nat, to: nat)
    requires |buffer| > 0 && from < to
    ensures Slots(buffer, from, to) == [buffer[from % |buffer|]] + Slots(buffer, from + 1, to)
  {
  }

  lemma FirstSlot<T>(buffer: seq<T>, from: nat, to: nat, item: T, rest: seq<T>)
    requires |buffer| > 0 && from < to && Slots(buffer, from, to) == [item] + rest
    ensures buffer[from % |buffer|] == item
  {
    assert Slots(buffer, from, to)[0] == item;
  }

  /** A reserved slot can be written without touching the published ones. */
  lemma SlotsUntouched<T>(buffer: seq<T>, from: nat, to: nat, id: nat, item: T)
    requires |buffer| > 0 && from <= to <= id < from + |buffer|
    ensures Slots(buffer[id % |buffer| := item], from, to) == Slots(buffer, from, to)
  {
    forall k | from <= k < to
      ensures k % |buffer| != id % |buffer|
    {
      U32.IndexInjective(k, id, |buffer|);
    }
  }

  /** The `k`-th slot after index `from % n` wraps around the end of the buffer at most once. */
  lemma SlotAfter(from: nat, k: nat, n: nat)
    requires n > 0 && k <= n
    ensures (from + k) % n == (if from % n + k < n then from % n + k else from % n + k - n) || k == n
    ensures k == n ==> (from + k) % n == from % n
  {
    var q := from / n;
    assert from == n * q + from % n;
    if from % n + k < n {
      U32.RemainderIs(from + k, n, q, from % n + k);
    } else {
      assert n * (q + 1) == n * q + n;
      U32.RemainderIs(from + k, n, q + 1, from % n + k - n);
    }
  }

  /** A window of a whole number of slots is two slices of the buffer. */
  lemma SlotsAreSlices<T>(buffer: seq<T>, from: nat, to: nat)
    requires |buffer| > 0 && from < to <= from + |buffer|
    ensures var (h, t) := (from % |buffer|, to % |buffer|);
      Slots(buffer, from, to) == if h < t then buffer[h..t] else buffer[h..] + buffer[..t]
  {
    var (n, h, t) := (|buffer|, from % |buffer|, to % |buffer|);
    SlotAfter(from, to - from, n);
    var slices := if h < t then buffer[h..t] else buffer[h..] + buffer[..t];
    assert |slices| == to - from;
    forall i | 0 <= i < to - from
      ensures Slots(buffer, from, to)[i] == slices[i]
    {
      SlotAfter(from, i, n);
    }
  }

  /** The ring has these counters, wrapped, and nobody inside. */
  ghost predicate Counts<T>(r: Ring<T>, released: nat, published: nat) {
    && U32.PowerOfTwo(|r.buffer|) && 0 < |r.buffer| < 0x8000_0000 && r.threads == [Idle]
    && r.head == U32.Wrap(released) && r.tail == U32.Wrap(published) && 0 <= published - released <= |r.buffer|
  }

  /** What such a ring shows as published are the slots under the ids. */
  lemma RingContents<T>(r: Ring<T>, released: nat, published: nat)
    requires Counts(r, released, published)
    ensures RingFifo.Contents(r) == Slots(r.buffer, released, published)
  {
    assert |RingFifo.Contents(r)| == published - released by {
      U32.Distance(published, released);
      RingFifo.ContentsCount(r);
    }
    forall i | 0 <= i < published - released
      ensures RingFifo.Contents(r)[i] == Slots(r.buffer, released, published)[i]
    {
      RingSlot(r, released, i);
    }
  }

  lemma RingSlot<T>(r: Ring<T>, released: nat, i: nat)
    requires U32.PowerOfTwo(|r.buffer|) && 0 < |r.buffer| < 0x8000_0000 && r.head == U32.Wrap(released)
    ensures U32.Wrap(r.head + i) % |r.buffer| == (released + i) % |r.buffer|
  {
    U32.WrapSum(released, i);
    U32.IndexSurvivesWrap(released + i, |r.buffer|);
  }

  /** What the machine's undisturbed publish does to it. */
  lemma RingPublishes<T>(r: Ring<T>, released: nat, published: nat, item: T)
    requires Counts(r, released, published) && r.enqueuerTail == r.tail
    ensures published - released < |r.buffer| ==>
              Does(Wrapping, r, Undisturbed(CallPublish(0, item), 0),
                   r.(tail := U32.Wrap(published + 1), enqueuerTail := U32.Wrap(published + 1),
                      buffer := r.buffer[published % |r.buffer| := item]),
                   Learns(Silent, Published(item, published - released + 1)))
    ensures published - released == |r.buffer| ==>
              Does(Wrapping, r, Undisturbed(CallPublish(0, item), 0), r, Learns(Refused(item), Silent))
  {
    var len, next, index := RingPoint(r, released, published);
    PublishesFrom(r, len, next, index, item);
  }

  /** Where the next item goes. */
  lemma RingPoint<T>(r: Ring<T>, released: nat, published: nat) returns (len: int, next: nat, index: nat)
    requires Counts(r, released, published)
    ensures Occupied(Wrapping, r.tail, r.head) == len == published - released
    ensures Succ(Wrapping, r.tail) == next == U32.Wrap(published + 1)
    ensures r.tail % |r.buffer| == index == published % |r.buffer| && index < |r.buffer|
  {
    len, next, index := published - released, U32.Wrap(published + 1), published % |r.buffer|;
    U32.Distance(published, released);
    U32.NextWraps(published);
    U32.IndexSurvivesWrap(published, |r.buffer|);
  }

  lemma PublishesFrom<T>(r: Ring<T>, len: int, next: nat, index: nat, item: T)
    requires |r.buffer| > 0 && r.threads == [Idle] && r.enqueuerTail == r.tail
    requires Occupied(Wrapping, r.tail, r.head) == len && Succ(Wrapping, r.tail) == next
    requires r.tail % |r.buffer| == index < |r.buffer|
    ensures len < |r.buffer| ==>
              Does(Wrapping, r, Undisturbed(CallPublish(0, item), 0),
                   r.(tail := next, enqueuerTail := next, buffer := r.buffer[index := item]),
                   Learns(Silent, Published(item, len + 1)))
    ensures len >= |r.buffer| ==>
              Does(Wrapping, r, Undisturbed(CallPublish(0, item), 0), r, Learns(Refused(item), Silent))
  {
    assert r.threads[0].Idle?;
    if len < |r.buffer| {
      LonePublishSucceeds(Wrapping, r, 0, item);
      ItemAdded(r, next, index, item);
    } else {
      LonePublishFails(Wrapping, r, 0, item);
    }
  }

  lemma ItemAdded<T>(r: Ring<T>, next: nat, index: nat, item: T)
    requires |r.buffer| > 0 && Succ(Wrapping, r.tail) == next && r.tail % |r.buffer| == index < |r.buffer|
    ensures WithItem(Wrapping, r, item) == r.(tail := next, enqueuerTail := next, buffer := r.buffer[index := item])
  {
  }

  /** And its undisturbed consume. */
  lemma RingConsumes<T>(r: Ring<T>, released: nat, published: nat)
    requires Counts(r, released, published) && r.dequeuerHead == r.head
    ensures released < published ==>
              Does(Wrapping, r, Undisturbed(CallConsume(0), 0),
                   r.(head := U32.Wrap(released + 1), dequeuerHead := U32.Wrap(released + 1)),
                   Learns(Silent, Consumed(r.buffer[released % |r.buffer|])))
    ensures released == published ==>
              Does(Wrapping, r, Undisturbed(CallConsume(0), 0), r, Learns(FoundEmpty, Silent))
  {
    assert Pending(Wrapping, r.tail, r.head) == published - released by { U32.SignedDistance(published, released); }
    assert Succ(Wrapping, r.head) == U32.Wrap(released + 1) by { U32.NextWraps(released); }
    assert r.head % |r.buffer| == released % |r.buffer| by { U32.IndexSurvivesWrap(released, |r.buffer|); }
    LoneConsume(Wrapping, r, 0);
  }

  class AtomicMove<T> {
    var head: nat
    var dequeuerHead: nat
    var tail: nat
    var enqueuerTail: nat
    const buffer: array<T>

    /** The counters as they would be if they never wrapped. */
    ghost var released: nat
    ghost var claimed: nat
    ghost var published: nat
    ghost var reserved: nat

    ghost predicate Valid()
      reads this
    {
      && U32.PowerOfTwo(buffer.Length) && 0 < buffer.Length < 0x8000_0000
      && head == U32.Wrap(released) && dequeuerHead == U32.Wrap(claimed)
      && tail == U32.Wrap(published) && enqueuerTail == U32.Wrap(reserved)
      && released <= published <= released + buffer.Length
      && published <= reserved <= published + 0x8000_0000
      && released <= claimed <= released + 0x8000_0000
    }

    /** The published items, oldest first. */
    ghost function Contents(): (s: seq<T>)
      requires Valid()
      reads this, buffer
      ensures |s| == published - released
    {
      Slots(buffer[..], released, published)
    }

    /** The same counters and buffer as a ring of `RingMachine`, with the caller outside. */
    ghost function AsRing(): (r: Ring<T>)
      requires Valid()
      reads this, buffer
      ensures |r.buffer| == buffer.Length > 0
    {
      Ring(head, dequeuerHead, tail, enqueuerTail, buffer[..], [Idle])
    }

    /** Both say the same about what is published. */
    lemma ContentsAgree()
      requires Valid()
      ensures RingFifo.Contents(AsRing()) == Contents()
    {
      RingContents(AsRing(), released, published);
    }

    constructor (size: nat, initial: T)
      requires U32.PowerOfTwo(size) && 0 < size < 0x8000_0000
      ensures Valid() && fresh(buffer) && buffer.Length == size
      ensures head == tail == 0 && released == published == reserved == claimed == 0
      ensures Contents() == []
    {
      buffer := new T[size](_ => initial);
      head, dequeuerHead, tail, enqueuerTail := 0, 0, 0, 0;
      released, claimed, published, reserved := 0, 0, 0, 0;
    }

    /** Takes the next id, or finds that every slot is taken and gives the id back. */
    method LeakSlotInternal() returns (slot: Option<(nat, nat)>)
      requires Valid()
      modifies this`enqueuerTail, this`reserved
      ensures Valid()
      ensures slot.None? <==> old(reserved) >= released + buffer.Length
      ensures slot.None? ==> reserved == old(reserved)
      ensures slot.Some? ==> reserved == old(reserved) + 1
                             && slot.value == (U32.Wrap(old(reserved)), old(reserved) - released)
    {
      var slotId := enqueuerTail;
      enqueuerTail := U32.Wrap(enqueuerTail + 1);
      reserved := reserved + 1;
      var lenBefore := U32.Wrap(slotId - head);
      assert enqueuerTail == U32.Wrap(reserved) by { U32.NextWraps(reserved - 1); }
      assert lenBefore == reserved - 1 - released by { U32.Distance(reserved - 1, released); }
      if lenBefore < buffer.Length {
        return Some((slotId, lenBefore));
      }
      var receded := TryRecede(slotId, slotId);
      return None;
    }

    /** The caller of `leak_slot_internal` fills in the slot it was given. */
    method WriteSlot(slotId: nat, item: T, ghost id: nat)
      requires Valid() && published <= id < released + buffer.Length && slotId == U32.Wrap(id)
      modifies buffer
      ensures Valid() && Contents() == old(Contents())
      ensures buffer[..] == old(buffer[..])[id % buffer.Length := item]
    {
      U32.IndexSurvivesWrap(id, buffer.Length);
      SlotsUntouched(buffer[..], released, published, id, item);
      buffer[slotId % buffer.Length] := item;
    }

    /** What a successful exchange of `tail` does. */
    method AdvanceTail()
      requires Valid() && published < reserved && published < released + buffer.Length
      modifies this`tail, this`published
      ensures Valid() && published == old(published) + 1
      ensures Contents() == old(Contents()) + [buffer[old(published) % buffer.Length]]
    {
      U32.NextWraps(published);
      SlotsGrow(buffer[..], released, published);
      tail := U32.Wrap(tail + 1);
      published := published + 1;
    }

    /** `try_publish_leaked_internal`: succeeds exactly for the oldest reservation, and publishes its slot. */
    method TryPublishLeakedInternal(slotId: nat, ghost id: nat) returns (ok: bool)
      requires Valid() && published <= id < reserved && id < released + buffer.Length && slotId == U32.Wrap(id)
      modifies this`tail, this`published
      ensures Valid()
      ensures ok <==> id == old(published)
      ensures published == if ok then id + 1 else old(published)
      ensures Contents() == if ok then old(Contents()) + [buffer[id % buffer.Length]] else old(Contents())
    {
      U32.Injective(id, published);
      if tail == slotId {
        AdvanceTail();
        return true;
      }
      return false;
    }

    /**
     `try_publish_leaked_internal_index`: the same for a reservation known by its index, on any
     lap. The number it answers is computed from the value `tail` had before, so it is one less
     than the length after publishing unless the queue was empty.
     */
    method TryPublishLeakedInternalIndex(slotIndex: nat, ghost id: nat) returns (len: Option<nat>)
      requires Valid() && published <= id < reserved && id < released + buffer.Length && slotIndex == id % buffer.Length
      modifies this`tail, this`published
      ensures Valid()
      ensures len.Some? <==> id == old(published)
      ensures published == if len.Some? then id + 1 else old(published)
      ensures Contents() == if len.Some? then old(Contents()) + [buffer[id % buffer.Length]] else old(Contents())
      ensures len.Some? ==> len.value == (if |old(Contents())| == 0 then 1 else |old(Contents())|)
      ensures len.Some? ==> (len.value == |Contents()| <==> old(Contents()) == [])
    {
      var ok := IsOldest(slotIndex, id);
      if ok {
        var available := AvailableElementsCount();
        AdvanceTail();
        return Some(if available > 1 then available else 1);
      }
      return None;
    }

    /** The compare-exchange loop on `tail`: finds `tail` exactly by the index of the oldest reservation. */
    method IsOldest(slotIndex: nat, ghost id: nat) returns (ok: bool)
      requires Valid() && published <= id < released + buffer.Length && slotIndex == id % buffer.Length
      ensures ok <==> id == published
    {
      assert tail % buffer.Length == slotIndex <==> id == published by {
        U32.IndexSurvivesWrap(published, buffer.Length);
        IndexDeterminesId(id, published, buffer.Length);
      }
      assert U32.Wrap(tail - 0) == tail by { U32.SmallIsItself(tail); }
      var slotId: nat, underflows: bool;
      ok, slotId, underflows := FindOnLap(tail, 0, slotIndex, buffer.Length);
    }

    /** `publish_movable`, with nothing else reserved: appends the item, or hands it back when full. */
    method PublishMovable(item: T) returns (len: Option<nat>, back: Option<T>)
      requires Valid() && reserved == published
      modifies this`enqueuerTail, this`reserved, this`tail, this`published, buffer
      ensures Valid() && reserved == published
      ensures len.None? <==> |old(Contents())| == buffer.Length
      ensures len.None? ==> back == Some(item) && Contents() == old(Contents()) && published == old(published)
                            && buffer[..] == old(buffer[..])
      ensures len.Some? ==> back == None && Contents() == old(Contents()) + [item] && len.value == |Contents()|
                            && published == old(published) + 1
                            && buffer[..] == old(buffer[..])[old(published) % buffer.Length := item]
    {
      ghost var id := reserved;
      var slot := LeakSlotInternal();
      match slot
      case None =>
        return None, Some(item);
      case Some((slotId, lenBefore)) =>
        WriteSlot(slotId, item, id);
        var ok := TryPublishLeakedInternal(slotId, id);
        return Some(lenBefore + 1), None;
    }

    /** What `PublishMovable` promises is what the machine's undisturbed call does and lets its caller see. */
    twostate lemma PublishIsLoneCall(item: T, len: Option<nat>)
      requires old(Valid() && reserved == published) && Valid() && reserved == published
      requires released == old(released) && head == old(head) && dequeuerHead == old(dequeuerHead)
      requires len.None? <==> |old(Contents())| == buffer.Length
      requires len.None? ==> published == old(published) && buffer[..] == old(buffer[..])
      requires len.Some? ==> len.value == |Contents()| && published == old(published) + 1
                             && buffer[..] == old(buffer[..])[old(published) % buffer.Length := item]
      ensures Does(Wrapping, old(AsRing()), Undisturbed(CallPublish(0, item), 0), AsRing(),
                   if len.Some? then Learns(Silent, Published(item, len.value)) else Learns(Refused(item), Silent))
    {
      RingPublishes(old(AsRing()), old(released), old(published), item);
      if len.None? {
        assert AsRing() == old(AsRing());
      } else {
        assert AsRing() == old(AsRing()).(tail := tail, enqueuerTail := tail, buffer := buffer[..]);
      }
    }

    /** `consume_leaking_internal`: claims the oldest unclaimed item, or finds none published. */
    method ConsumeLeakingInternal() returns (slot: Option<(nat, int)>)
      requires Valid()
      modifies this`dequeuerHead, this`claimed
      ensures Valid()
      ensures slot.None? <==> old(claimed) >= published
      ensures slot.None? ==> claimed == old(claimed)
      ensures slot.Some? ==> claimed == old(claimed) + 1
                             && slot.value == (U32.Wrap(old(claimed)), published - old(claimed))
    {
      var slotId := dequeuerHead;
      U32.SignedDistance(published, claimed);
      U32.NextWraps(claimed);
      var lenBefore := U32.AsI32(U32.Wrap(tail - slotId));
      dequeuerHead := U32.Wrap(dequeuerHead + 1);
      if lenBefore > 0 {
        claimed := claimed + 1;
        return Some((slotId, lenBefore));
      }
      dequeuerHead := slotId;
      return None;
    }

    /** `release_leaked_internal`, for the oldest claim: frees its slot for reuse. */
    method ReleaseLeakedInternal(slotId: nat)
      requires Valid() && released < claimed && released < published && slotId == U32.Wrap(released)
      modifies this`head, this`released
      ensures Valid() && released == old(released) + 1
      ensures old(Contents()) == [buffer[old(released) % buffer.Length]] + Contents()
    {
      U32.NextWraps(released);
      SlotsShrink(buffer[..], released, published);
      head := U32.Wrap(slotId + 1);
      released := released + 1;
    }

    /** `consume_movable`, with nothing else claimed: removes and returns the oldest item, if any. */
    method ConsumeMovable() returns (item: Option<T>)
      requires Valid() && claimed == released
      modifies this`dequeuerHead, this`claimed, this`head, this`released
      ensures Valid() && claimed == released
      ensures item.None? <==> old(Contents()) == []
      ensures item.None? ==> Contents() == old(Contents())
      ensures item.Some? ==> old(Contents()) == [item.value] + Contents()
      ensures published == old(published)
    {
      U32.IndexSurvivesWrap(released, buffer.Length);
      var slot := ConsumeLeakingInternal();
      match slot
      case None =>
        return None;
      case Some((slotId, _)) =>
        item := Some(buffer[slotId % buffer.Length]);
        ReleaseLeakedInternal(slotId);
    }

    /** And what `ConsumeMovable` promises is its undisturbed consume. */
    twostate lemma ConsumeIsLoneCall(item: Option<T>)
      requires old(Valid() && claimed == released) && Valid() && claimed == released
      requires published == old(published) && tail == old(tail) && enqueuerTail == old(enqueuerTail)
      requires buffer[..] == old(buffer[..])
      requires item.None? <==> old(Contents()) == []
      requires item.None? ==> Contents() == old(Contents())
      requires item.Some? ==> old(Contents()) == [item.value] + Contents()
      ensures Does(Wrapping, old(AsRing()), Undisturbed(CallConsume(0), 0), AsRing(),
                   if item.Some? then Learns(Silent, Consumed(item.value)) else Learns(FoundEmpty, Silent))
    {
      var (before, first) := (old(AsRing()), old(released));
      if item.None? {
        assert AsRing() == before;
      } else {
        assert |old(Contents())| == |Contents()| + 1;
        assert AsRing() == before.(head := U32.Wrap(first + 1), dequeuerHead := U32.Wrap(first + 1));
        FirstSlot(before.buffer, first, published, item.value, Contents());
      }
      RingConsumes(before, first, published);
    }

    method AvailableElementsCount() returns (count: nat)
      requires Valid()
      ensures count == |Contents()|
    {
      U32.Distance(published, released);
      count := U32.Wrap(tail - head);
    }

    /** `peek_remaining`: the published items as two slices of the buffer, without consuming them. */
    method PeekRemaining() returns (first: seq<T>, second: seq<T>)
      requires Valid()
      ensures first + second == Contents()
    {
      U32.Injective(published, released);
      if head == tail {
        return [], [];
      }
      var headIndex := head % buffer.Length;
      var tailIndex := tail % buffer.Length;
      U32.IndexSurvivesWrap(released, buffer.Length);
      U32.IndexSurvivesWrap(published, buffer.Length);
      SlotsAreSlices(buffer[..], released, published);
      if headIndex < tailIndex {
        return buffer[headIndex..tailIndex], [];
      } else {
        return buffer[headIndex..], buffer[..tailIndex];
      }
    }

    /** The compare-exchange that gives the topmost id back. */
    method TryRecede(slotId: nat, ghost top: nat) returns (ok: bool)
      requires enqueuerTail == U32.Wrap(reserved) && slotId < 0x1_0000_0000
      requires reserved > 0 && top == U32.Wrap(reserved - 1)
      modifies this`enqueuerTail, this`reserved
      ensures ok <==> slotId == top
      ensures ok ==> enqueuerTail == slotId && reserved == old(reserved) - 1
      ensures !ok ==> enqueuerTail == old(enqueuerTail) && reserved == old(reserved)
    {
      if enqueuerTail == U32.Wrap(slotId + 1) {
        enqueuerTail := slotId;
        reserved := reserved - 1;
        return true;
      }
      return false;
    }

    /** `try_unleak_slot_internal`: succeeds exactly for the topmost reservation. */
    method TryUnleakSlotInternal(slotId: nat, ghost id: nat) returns (ok: bool)
      requires Valid() && published <= id < reserved && slotId == U32.Wrap(id)
      modifies this`enqueuerTail, this`reserved
      ensures Valid()
      ensures ok <==> id + 1 == old(reserved)
      ensures reserved == if ok then id else old(reserved)
    {
      U32.Injective(id, reserved - 1);
      ok := TryRecede(slotId, U32.Wrap(reserved - 1));
    }

    /**
     `try_unleak_slot_index_internal`, for a reservation known by its index, on any lap. It cancels
     the topmost reservation whenever that has the caller's index. So it does what the cancel by id
     does unless the topmost id is another one of the same index, and then it retracts that other
     id. As long as at most `buffer.Length` ids were reserved from the caller's own on, it is right.
     `underflows` tells whether the `- 1` on a reloaded counter went below zero, where a build with
     overflow checks panics.
     */
    method TryUnleakSlotIndexInternal(slotIndex: nat, ghost id: nat) returns (ok: bool, underflows: bool)
      requires Valid() && published <= id < reserved && slotIndex == id % buffer.Length
      modifies this`enqueuerTail, this`reserved
      ensures Valid()
      ensures ok <==> (old(reserved) - 1) % buffer.Length == id % buffer.Length
      ensures reserved == if ok then old(reserved) - 1 else old(reserved)
      ensures (ok <==> id + 1 == old(reserved)) <==>
                !((old(reserved) - 1) % buffer.Length == id % buffer.Length && old(reserved) - 1 != id)
      ensures old(reserved) <= id + buffer.Length ==> (ok <==> id + 1 == old(reserved))
      ensures underflows <==> old(reserved) % 0x1_0000_0000 == 0
    {
      ghost var top := reserved - 1;
      assert U32.Wrap(top) % buffer.Length == top % buffer.Length by { U32.IndexSurvivesWrap(top, buffer.Length); }
      if reserved <= id + buffer.Length { IndexDeterminesId(id, top, buffer.Length); }
      assert U32.Wrap(enqueuerTail - 1) == U32.Wrap(top) by { U32.NextWraps(top); }
      var slotId: nat;
      ok, slotId, underflows := FindOnLap(enqueuerTail, 1, slotIndex, buffer.Length);
      if ok {
        enqueuerTail := slotId;
        reserved := top;
      }
    }

    method ReserveMany(n: nat) returns (ids: seq<nat>)
      requires Valid() && reserved + n <= released + buffer.Length
      modifies this`enqueuerTail, this`reserved
      ensures Valid() && reserved == old(reserved) + n
      ensures |ids| == n && forall i | 0 <= i < n :: ids[i] == U32.Wrap(old(reserved) + i)
    {
      ids := [];
      while |ids| < n
        invariant |ids| <= n && Valid() && reserved == old(reserved) + |ids|
        invariant forall i | 0 <= i < |ids| :: ids[i] == U32.Wrap(old(reserved) + i)
        decreases n - |ids|
      {
        var slot := LeakSlotInternal();
        ids := ids + [slot.value.0];
      }
    }

    /** Cancels the reservations from position `keep` on by index, the latest first; every one succeeds. */
    method CancelInReverse(ids: seq<nat>, keep: nat, ghost first: nat)
      requires Valid() && keep <= |ids| && published <= first + keep && reserved == first + |ids|
      requires forall i | 0 <= i < |ids| :: ids[i] == U32.Wrap(first + i)
      modifies this`enqueuerTail, this`reserved
      ensures Valid() && reserved == first + keep
    {
      var i := |ids|;
      while i > keep
        invariant keep <= i <= |ids| && Valid() && reserved == first + i
      {
        i := i - 1;
        U32.IndexSurvivesWrap(first + i, buffer.Length);
        var ok, underflows := TryUnleakSlotIndexInternal(ids[i] % buffer.Length, first + i);
      }
    }

    /**
     Reserving `n` slots, publishing the first and cancelling the others in reverse order leaves
     the ring as if one item had been published, ids included.
     */
    method ReserveManyPublishOne(n: nat, item: T)
      requires Valid() && reserved == published && 1 <= n <= buffer.Length - |Contents()|
      modifies this`enqueuerTail, this`reserved, this`tail, this`published, buffer
      ensures Valid() && Contents() == old(Contents()) + [item]
      ensures reserved == published == old(published) + 1
      ensures buffer[..] == old(buffer[..])[old(published) % buffer.Length := item]
    {
      ghost var first := published;
      var ids := ReserveMany(n);
      assert ids[0] == U32.Wrap(first + 0);
      WriteSlot(ids[0], item, first);
      var ok := TryPublishLeakedInternal(ids[0], first);
      CancelInReverse(ids, 1, first);
    }
  }

  /**
   The compare-exchange loop by index, on a counter nobody else moves: tries the id equal to the
   index, then the one of that index on the counter's own lap. `behind` is 1 when the counter
   must be one ahead of the id, 0 when it must equal it. Finds the id exactly when the index is
   that of the counter's neighbour. A reloaded counter that is 0 underflows when 1 is subtracted.
   */
  method FindOnLap(counter: nat, behind: nat, slotIndex: nat, size: nat)
      returns (ok: bool, slotId: nat, underflows: bool)
    requires U32.PowerOfTwo(size) && slotIndex < size <= 0x8000_0000 && counter < 0x1_0000_0000 && behind <= 1
    ensures ok <==> U32.Wrap(counter - behind) % size == slotIndex
    ensures ok ==> slotId == U32.Wrap(counter - behind)
    ensures underflows <==> counter < behind
  {
    var neighbour := U32.Wrap(counter - behind);
    ghost var lap := LapOf(neighbour, slotIndex, size);
    slotId, underflows := slotIndex, false;
    while true
      invariant slotId == slotIndex || (slotId == lap && SameLap(lap, neighbour, size))
      invariant underflows <==> counter < behind && slotId != slotIndex
      decreases slotId == slotIndex
    {
      ExchangeMatches(counter, behind, slotId);
      if counter == U32.Wrap(slotId + behind) {
        return true, slotId, underflows;
      }
      underflows := underflows || counter < behind;
      AdjustedOnce(slotIndex, slotId, neighbour, size);
      var adjusted := Adjusted(slotIndex, slotId, neighbour, size);
      if adjusted.None? {
        return false, slotId, underflows;
      }
      slotId := adjusted.value;
    }
  }
}
