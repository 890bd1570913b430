/**
 What a call does when no other thread interferes: the step machine then performs, in five
 steps, exactly the sequential operations of the class `AtomicMove`. Also, the schedule by which
 `OgreArrayPoolAllocator::new` fills its free list.
 */
module LoneCalls {
  import opened RingMachine
  import opened SlotRing
  import U32

  lemma {:induction false} ExecConcat<T>(k: Counters, r: Ring<T>, first: seq<Action<T>>, second: seq<Action<T>>)
    requires |r.buffer| > 0
    ensures Exec(k, r, first + second) == Exec(k, Exec(k, r, first), second)
  {
    if second == [] {
      assert first + second == first;
    } else {
      var all := first + second;
      assert all[..|all| - 1] == first + second[..|second| - 1];
      ExecConcat(k, r, first, second[..|second| - 1]);
    }
  }

  lemma ExecJoins<T>(k: Counters, r: Ring<T>, first: seq<Action<T>>, now: Ring<T>, second: seq<Action<T>>)
    requires |r.buffer| > 0 && |now.buffer| > 0 && Exec(k, r, first) == now
    ensures Exec(k, r, first + second) == Exec(k, now, second)
  {
    ExecConcat(k, r, first, second);
  }

  /** The call `a` of thread `t`, followed by four undisturbed steps of that thread. */
  function Undisturbed<T>(a: Action<T>, t: nat): seq<Action<T>> {
    [a, Step(t, false, false), Step(t, false, false), Step(t, false, false), Step(t, false, false)]
  }

  /** From `r` the calls lead to `r'`, and their callers see this. */
  ghost predicate Does<T>(k: Counters, r: Ring<T>, calls: seq<Action<T>>, r': Ring<T>, seen: seq<Outcome<T>>)
    requires |r.buffer| > 0
  {
    Exec(k, r, calls) == r' && History(k, r, calls) == seen
  }

  /** One more step of a schedule whose outcome so far is known. */
  lemma Then<T>(k: Counters, r: Ring<T>, schedule: seq<Action<T>>, now: Ring<T>, seen: seq<Outcome<T>>, a: Action<T>,
                next: Ring<T>)
    requires |r.buffer| > 0 && |now.buffer| > 0
    requires Exec(k, r, schedule) == now && History(k, r, schedule) == seen && Next(k, now, a) == next
    ensures Exec(k, r, schedule + [a]) == next
    ensures History(k, r, schedule + [a]) == seen + [Observe(k, now, a)]
  {
    assert (schedule + [a])[..|schedule|] == schedule;
  }

  /** Three silent steps, then what the caller learns at the fourth and at the fifth. */
  function Learns<T>(fourth: Outcome<T>, fifth: Outcome<T>): seq<Outcome<T>> {
    [Silent, Silent, Silent, fourth, fifth]
  }

  /** The call and the first two steps, silent all three. */
  lemma ThreeSteps<T>(k: Counters, r: Ring<T>, a: Action<T>, s: Action<T>, r1: Ring<T>, r2: Ring<T>, r3: Ring<T>)
    requires |r.buffer| > 0 && |r1.buffer| > 0 && |r2.buffer| > 0
    requires Next(k, r, a) == r1 && Next(k, r1, s) == r2 && Next(k, r2, s) == r3
    requires Observe(k, r, a) == Observe(k, r1, s) == Observe(k, r2, s) == Silent
    ensures Exec(k, r, [a, s, s]) == r3 && History(k, r, [a, s, s]) == [Silent, Silent, Silent]
  {
    assert [] + [a] == [a] && [a] + [s] == [a, s] && [a, s] + [s] == [a, s, s];
    Then(k, r, [], r, [], a, r1);
    Then(k, r, [a], r1, [Silent], s, r2);
    Then(k, r, [a, s], r2, [Silent, Silent], s, r3);
  }

  /** The call and its four steps, given the states in between. */
  lemma FiveSteps<T>(k: Counters, r: Ring<T>, a: Action<T>, t: nat,
                     r1: Ring<T>, r2: Ring<T>, r3: Ring<T>, r4: Ring<T>, r5: Ring<T>)
    requires |r.buffer| > 0 && |r1.buffer| > 0 && |r2.buffer| > 0 && |r3.buffer| > 0 && |r4.buffer| > 0
    requires var s := Step(t, false, false);
      && Next(k, r, a) == r1 && Next(k, r1, s) == r2 && Next(k, r2, s) == r3
      && Next(k, r3, s) == r4 && Next(k, r4, s) == r5
      && Observe(k, r, a) == Observe(k, r1, s) == Observe(k, r2, s) == Silent
    ensures Exec(k, r, Undisturbed(a, t)) == r5
    ensures History(k, r, Undisturbed(a, t)) ==
              Learns(Observe(k, r3, Step(t, false, false)), Observe(k, r4, Step(t, false, false)))
  {
    var s := Step(t, false, false);
    ThreeSteps(k, r, a, s, r1, r2, r3);
    Then(k, r, [a, s, s], r3, [Silent, Silent, Silent], s, r4);
    assert [a, s, s] + [s] == [a, s, s, s] && [a, s, s, s] + [s] == Undisturbed(a, t);
    Then(k, r, [a, s, s, s], r4, [Silent, Silent, Silent, Observe(k, r3, s)], s, r5);
  }

  /** The ring with one more item, or one fewer. */
  function WithItem<T>(k: Counters, r: Ring<T>, item: T): Ring<T>
    requires |r.buffer| > 0
  {
    r.(tail := Succ(k, r.tail), enqueuerTail := Succ(k, r.tail), buffer := r.buffer[r.tail % |r.buffer| := item])
  }

  function WithoutItem<T>(k: Counters, r: Ring<T>): Ring<T> {
    r.(head := Succ(k, r.head), dequeuerHead := Succ(k, r.head))
  }

  lemma PublishSteps<T>(k: Counters, r: Ring<T>, t: nat, item: T, slot: nat, len: int, r2: Ring<T>, r4: Ring<T>,
                        r5: Ring<T>)
    requires |r.buffer| > 0 && t < |r.threads| && r.threads[t].Idle? && r.enqueuerTail == r.tail == slot
    requires len == Occupied(k, slot, r.head) < |r.buffer|
    requires r2 == SetPc(r, t, PublishClaimed(item, slot)).(enqueuerTail := Succ(k, slot))
    requires r4 == SetPc(r2, t, PublishWritten(item, slot, len)).(buffer := r.buffer[slot % |r.buffer| := item])
    requires r5 == r4.(threads := r.threads, tail := Succ(k, slot)) && r4.threads[t := Idle] == r.threads
    ensures var (s, r3) := (Step(t, false, false), SetPc(r2, t, PublishGranted(item, slot, len)));
      && Next(k, r, CallPublish(t, item)) == SetPc(r, t, PublishCall(item))
      && Next(k, SetPc(r, t, PublishCall(item)), s) == r2 && Next(k, r2, s) == r3
      && Next(k, r3, s) == r4 && Next(k, r4, s) == r5
      && Observe(k, SetPc(r, t, PublishCall(item)), s) == Observe(k, r2, s) == Observe(k, r3, s) == Silent
      && Observe(k, r4, s) == Published(item, len + 1)
  {
  }

  lemma LonePublishSucceeds<T>(k: Counters, r: Ring<T>, t: nat, item: T)
    requires |r.buffer| > 0 && t < |r.threads| && r.threads[t].Idle? && r.enqueuerTail == r.tail
    requires Occupied(k, r.tail, r.head) < |r.buffer|
    ensures Exec(k, r, Undisturbed(CallPublish(t, item), t)) == WithItem(k, r, item)
    ensures History(k, r, Undisturbed(CallPublish(t, item), t)) ==
              Learns(Silent, Published(item, Occupied(k, r.tail, r.head) + 1))
  {
    var (slot, len) := (r.tail, Occupied(k, r.tail, r.head));
    var r2 := SetPc(r, t, PublishClaimed(item, slot)).(enqueuerTail := Succ(k, slot));
    var r4 := SetPc(r2, t, PublishWritten(item, slot, len)).(buffer := r.buffer[slot % |r.buffer| := item]);
    var r5 := WithItem(k, r, item);
    assert r4.threads[t := Idle] == r.threads;
    assert r5 == r4.(threads := r.threads, tail := Succ(k, slot));
    PublishSteps(k, r, t, item, slot, len, r2, r4, r5);
    FiveSteps(k, r, CallPublish(t, item), t, SetPc(r, t, PublishCall(item)), r2,
              SetPc(r2, t, PublishGranted(item, slot, len)), r4, r5);
  }

  lemma LonePublishFails<T>(k: Counters, r: Ring<T>, t: nat, item: T)
    requires |r.buffer| > 0 && t < |r.threads| && r.threads[t].Idle? && r.enqueuerTail == r.tail
    requires Occupied(k, r.tail, r.head) >= |r.buffer|
    ensures Exec(k, r, Undisturbed(CallPublish(t, item), t)) == r
    ensures History(k, r, Undisturbed(CallPublish(t, item), t)) == Learns(Refused(item), Silent)
  {
    var r2 := SetPc(r, t, PublishClaimed(item, r.tail)).(enqueuerTail := Succ(k, r.tail));
    assert r.threads[t := Idle] == r.threads;
    FiveSteps(k, r, CallPublish(t, item), t, SetPc(r, t, PublishCall(item)), r2,
              SetPc(r2, t, PublishFull(item, r.tail)), r, r);
  }

  /**
   Alone, a publish succeeds exactly when the ring has room and learns the new length; otherwise
   it gets its item back and leaves no trace.
   */
  lemma LonePublish<T>(k: Counters, r: Ring<T>, t: nat, item: T)
    requires |r.buffer| > 0 && t < |r.threads| && r.threads[t].Idle? && r.enqueuerTail == r.tail
    ensures var (calls, room) := (Undisturbed(CallPublish(t, item), t), Occupied(k, r.tail, r.head) < |r.buffer|);
      && Exec(k, r, calls) == (if room then WithItem(k, r, item) else r)
      && History(k, r, calls) == if room then Learns(Silent, Published(item, Occupied(k, r.tail, r.head) + 1))
                                 else Learns(Refused(item), Silent)
  {
    if Occupied(k, r.tail, r.head) < |r.buffer| { LonePublishSucceeds(k, r, t, item); }
    else { LonePublishFails(k, r, t, item); }
  }

  lemma LoneConsumeSucceeds<T>(k: Counters, r: Ring<T>, t: nat)
    requires |r.buffer| > 0 && t < |r.threads| && r.threads[t].Idle? && r.dequeuerHead == r.head
    requires Pending(k, r.tail, r.head) > 0
    ensures Exec(k, r, Undisturbed(CallConsume(t), t)) == WithoutItem(k, r)
    ensures History(k, r, Undisturbed(CallConsume(t), t)) == Learns(Silent, Consumed(r.buffer[r.head % |r.buffer|]))
  {
    var (slot, item) := (r.head, r.buffer[r.head % |r.buffer|]);
    var r2 := SetPc(r, t, ConsumeClaimed(slot)).(dequeuerHead := Succ(k, slot));
    var r4 := SetPc(r2, t, ConsumeRead(slot, item));
    assert SetPc(r4, t, Idle).threads == r.threads;
    FiveSteps(k, r, CallConsume(t), t, SetPc(r, t, ConsumeCall), r2, SetPc(r2, t, ConsumeGranted(slot)), r4,
              WithoutItem(k, r));
  }

  lemma LoneConsumeFails<T>(k: Counters, r: Ring<T>, t: nat)
    requires |r.buffer| > 0 && t < |r.threads| && r.threads[t].Idle? && r.dequeuerHead == r.head
    requires Pending(k, r.tail, r.head) <= 0
    ensures Exec(k, r, Undisturbed(CallConsume(t), t)) == r
    ensures History(k, r, Undisturbed(CallConsume(t), t)) == Learns(FoundEmpty, Silent)
  {
    var r2 := SetPc(r, t, ConsumeClaimed(r.head)).(dequeuerHead := Succ(k, r.head));
    assert r.threads[t := Idle] == r.threads;
    FiveSteps(k, r, CallConsume(t), t, SetPc(r, t, ConsumeCall), r2, SetPc(r2, t, ConsumeEmpty(r.head)), r, r);
  }

  /**
   Alone, a consume takes the item of the oldest slot exactly when the signed test finds one;
   otherwise it reports an empty ring and leaves no trace.
   */
  lemma LoneConsume<T>(k: Counters, r: Ring<T>, t: nat)
    requires |r.buffer| > 0 && t < |r.threads| && r.threads[t].Idle? && r.dequeuerHead == r.head
    ensures var (calls, found) := (Undisturbed(CallConsume(t), t), Pending(k, r.tail, r.head) > 0);
      && Exec(k, r, calls) == (if found then WithoutItem(k, r) else r)
      && History(k, r, calls) == if found then Learns(Silent, Consumed(r.buffer[r.head % |r.buffer|]))
                                 else Learns(FoundEmpty, Silent)
  {
    if Pending(k, r.tail, r.head) > 0 { LoneConsumeSucceeds(k, r, t); } else { LoneConsumeFails(k, r, t); }
  }

  /** `for slot_id in 0..n { free_list.publish_movable(slot_id) }` */
  function Fill(n: nat): seq<Action<nat>> {
    if n == 0 then [] else Fill(n - 1) + Undisturbed(CallPublish(0, n - 1), 0)
  }

  /** The ring after the first `n` rounds. */
  function Filled(buffer: seq<nat>, threads: nat, n: nat): Ring<nat>
    requires n <= |buffer|
  {
    Ring(0, 0, n, n, Iota(n) + buffer[n..], seq(threads, _ => Idle))
  }

  lemma SmallCounter(k: Counters, n: nat)
    requires k.Wrapping? ==> n + 1 < 0x1_0000_0000
    ensures Succ(k, n) == n + 1 && Occupied(k, n, 0) == n
  {
  }

  lemma FilledGrows(k: Counters, buffer: seq<nat>, threads: nat, n: nat)
    requires n < |buffer| && Succ(k, n) == n + 1
    ensures WithItem(k, Filled(buffer, threads, n), n) == Filled(buffer, threads, n + 1)
  {
    U32.RemainderIs(n, |buffer|, 0, n);
    assert (Iota(n) + buffer[n..])[n := n] == Iota(n + 1) + buffer[n + 1..];
  }

  lemma FillRound(k: Counters, buffer: seq<nat>, threads: nat, n: nat)
    requires n < |buffer| && threads > 0 && (k.Wrapping? ==> |buffer| < 0x1_0000_0000)
    ensures Exec(k, Filled(buffer, threads, n), Undisturbed(CallPublish(0, n), 0)) == Filled(buffer, threads, n + 1)
  {
    var r := Filled(buffer, threads, n);
    SmallCounter(k, n);
    LonePublishSucceeds(k, r, 0, n);
    FilledGrows(k, buffer, threads, n);
  }

  lemma NothingFilled(buffer: seq<nat>, threads: nat)
    ensures Filled(buffer, threads, 0) == Fresh(buffer, threads)
  {
    assert Iota(0) + buffer[0..] == buffer;
  }

  lemma FillMore(k: Counters, r: Ring<nat>, buffer: seq<nat>, threads: nat, n: nat)
    requires |r.buffer| > 0 && n < |buffer| && threads > 0 && (k.Wrapping? ==> |buffer| < 0x1_0000_0000)
    requires Exec(k, r, Fill(n)) == Filled(buffer, threads, n)
    ensures Exec(k, r, Fill(n + 1)) == Filled(buffer, threads, n + 1)
  {
    FillRound(k, buffer, threads, n);
    ExecJoins(k, r, Fill(n), Filled(buffer, threads, n), Undisturbed(CallPublish(0, n), 0));
  }

  lemma {:induction false} FillFills(k: Counters, r: Ring<nat>, buffer: seq<nat>, threads: nat, n: nat)
    requires n <= |buffer| && |r.buffer| == |buffer| > 0 && threads > 0 && (k.Wrapping? ==> |buffer| < 0x1_0000_0000)
    requires r == Filled(buffer, threads, 0)
    ensures Exec(k, r, Fill(n)) == Filled(buffer, threads, n)
  {
    if n > 0 {
      FillFills(k, r, buffer, threads, n - 1);
      FillMore(k, r, buffer, threads, n - 1);
    }
  }

  /** The allocator's constructor turns a fresh ring into the full one that `PoolMachine` starts from. */
  lemma NewIsFullRing(buffer: seq<nat>, threads: nat)
    requires 0 < |buffer| < 0x1_0000_0000 && threads > 0
    ensures Exec(Wrapping, Fresh(buffer, threads), Fill(|buffer|)) == FullRing(|buffer|, threads)
  {
    NothingFilled(buffer, threads);
    FillFills(Wrapping, Fresh(buffer, threads), buffer, threads, |buffer|);
    assert Iota(|buffer|) + buffer[|buffer|..] == Iota(|buffer|);
  }
}
