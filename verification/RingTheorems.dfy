/**
 Wrapping is invisible: over every schedule of every number of threads, the `u32` machine is the
 wrapped image of the machine with unbounded counters.
 */
module RingTheorems {
  import opened RingMachine
  import opened RingInvariant
  import opened Counting
  import U32

  /** Each outstanding id belongs to a thread of its own, so a window is never wider than the thread count. */
  lemma WindowsFitThreads<T>(g: Traced<T>)
    requires Inv(g)
    ensures g.ring.enqueuerTail - g.ring.tail <= |g.ring.threads|
    ensures g.ring.dequeuerHead - g.ring.head <= |g.ring.threads|
  {
    var r := g.ring;
    var (claimed, taken) := (r.enqueuerTail - r.tail, r.dequeuerHead - r.head);
    var producers := seq(claimed, i requires 0 <= i < claimed => g.publisher[r.tail + i]);
    Pigeonhole(producers, |r.threads|);
    var consumers := seq(taken, i requires 0 <= i < taken => g.consumer[r.head + i]);
    Pigeonhole(consumers, |r.threads|);
  }

  // ---------------------------------------------------------------------------------------
  // Wrapping is invisible

  function WrapPc<T>(pc: Pc<T>): Pc<T> {
    match pc
    case Idle => Idle
    case PublishCall(item) => PublishCall(item)
    case PublishClaimed(item, slot) => PublishClaimed(item, U32.Wrap(slot))
    case PublishFull(item, slot) => PublishFull(item, U32.Wrap(slot))
    case PublishGranted(item, slot, lenBefore) => PublishGranted(item, U32.Wrap(slot), lenBefore)
    case PublishWritten(item, slot, lenBefore) => PublishWritten(item, U32.Wrap(slot), lenBefore)
    case ConsumeCall => ConsumeCall
    case ConsumeClaimed(slot) => ConsumeClaimed(U32.Wrap(slot))
    case ConsumeEmpty(slot) => ConsumeEmpty(U32.Wrap(slot))
    case ConsumeGranted(slot) => ConsumeGranted(U32.Wrap(slot))
    case ConsumeRead(slot, item) => ConsumeRead(U32.Wrap(slot), item)
  }

  /** The `u32` ring that an unbounded ring looks like. */
  function WrapRing<T>(r: Ring<T>): Ring<T> {
    Ring(U32.Wrap(r.head), U32.Wrap(r.dequeuerHead), U32.Wrap(r.tail), U32.Wrap(r.enqueuerTail),
         r.buffer, seq(|r.threads|, i requires 0 <= i < |r.threads| => WrapPc(r.threads[i])))
  }

  /** The sizes for which the `u32` tests are right: exactly these, see `RingLimits.SignedTestIsExact`. */
  ghost predicate Supported<T>(buffer: seq<T>, threads: nat) {
    U32.PowerOfTwo(|buffer|) && |buffer| < 0x8000_0000 && threads <= 0x8000_0001
  }

  ghost predicate Sized<T>(r: Ring<T>) {
    Supported(r.buffer, |r.threads|)
  }

  lemma WrapSetPc<T>(r: Ring<T>, t: nat, pc: Pc<T>)
    requires t < |r.threads|
    ensures WrapRing(SetPc(r, t, pc)) == SetPc(WrapRing(r), t, WrapPc(pc))
  {
    assert WrapRing(SetPc(r, t, pc)).threads == SetPc(WrapRing(r), t, WrapPc(pc)).threads;
  }

  lemma OccupiedAgrees(slot: nat, head: nat)
    requires 0 <= slot - head < 0x1_0000_0000
    ensures Occupied(Wrapping, U32.Wrap(slot), U32.Wrap(head)) == slot - head
  {
    U32.Distance(slot, head);
  }

  lemma PendingAgrees(tail: nat, slot: nat)
    requires -0x8000_0000 <= tail - slot < 0x8000_0000
    ensures Pending(Wrapping, U32.Wrap(tail), U32.Wrap(slot)) == tail - slot
  {
    U32.SignedDistance(tail, slot);
  }

  /** The facts about thread `t` that the arithmetic of its next step depends on. */
  ghost predicate InRange<T>(r: Ring<T>, pc: Pc<T>) {
    && r.head <= r.tail < r.head + 0x8000_0000
    && (pc.ClaimsPublish() ==> 0 <= r.enqueuerTail - pc.slot - 1 <= 0x8000_0000
                               && 0 <= pc.slot - r.tail <= 0x8000_0000)
    && (pc.ClaimsConsume() ==> 0 <= r.dequeuerHead - pc.slot - 1 <= 0x8000_0000
                               && 0 <= pc.slot - r.head <= 0x8000_0000)
  }

  lemma ReachableInRange<T>(g: Traced<T>, t: nat)
    requires Inv(g) && Sized(g.ring) && t < |g.ring.threads|
    ensures InRange(g.ring, g.ring.threads[t])
  {
    WindowsFitThreads(g);
    assert ThreadOk(g, t);
  }

  lemma ClaimStepWraps<T>(r: Ring<T>, t: nat, spurious: bool, retry: bool)
    requires Sized(r) && |r.buffer| > 0 && t < |r.threads| && InRange(r, r.threads[t])
    requires r.threads[t].PublishCall? || r.threads[t].PublishClaimed? || r.threads[t].PublishFull?
    ensures Advance(Wrapping, WrapRing(r), t, spurious, retry) == WrapRing(Advance(Unbounded, r, t, spurious, retry))
  {
    WrapSetPc(r, t, Advance(Unbounded, r, t, spurious, retry).threads[t]);
    match r.threads[t]
    case PublishCall(_) => U32.NextWraps(r.enqueuerTail);
    case PublishClaimed(_, slot) => OccupiedAgrees(slot, r.head);
    case PublishFull(_, slot) => U32.NextWraps(slot); U32.Injective(r.enqueuerTail, slot + 1);
  }

  lemma PublishStepWraps<T>(r: Ring<T>, t: nat, spurious: bool, retry: bool)
    requires Sized(r) && |r.buffer| > 0 && t < |r.threads| && InRange(r, r.threads[t])
    requires r.threads[t].MayWrite()
    ensures Advance(Wrapping, WrapRing(r), t, spurious, retry) == WrapRing(Advance(Unbounded, r, t, spurious, retry))
  {
    WrapSetPc(r, t, Advance(Unbounded, r, t, spurious, retry).threads[t]);
    match r.threads[t]
    case PublishGranted(_, slot, _) => U32.IndexSurvivesWrap(slot, |r.buffer|);
    case PublishWritten(_, slot, _) => U32.NextWraps(slot); U32.Injective(r.tail, slot);
  }

  lemma LookStepWraps<T>(r: Ring<T>, t: nat, spurious: bool, retry: bool)
    requires Sized(r) && |r.buffer| > 0 && t < |r.threads| && InRange(r, r.threads[t])
    requires !r.threads[t].Publishing() && !r.threads[t].MayRead()
    ensures Advance(Wrapping, WrapRing(r), t, spurious, retry) == WrapRing(Advance(Unbounded, r, t, spurious, retry))
  {
    WrapSetPc(r, t, Advance(Unbounded, r, t, spurious, retry).threads[t]);
    match r.threads[t]
    case Idle =>
    case ConsumeCall => U32.NextWraps(r.dequeuerHead);
    case ConsumeClaimed(slot) => PendingAgrees(r.tail, slot);
    case ConsumeEmpty(slot) => U32.NextWraps(slot); U32.Injective(r.dequeuerHead, slot + 1);
  }

  lemma ReadStepWraps<T>(r: Ring<T>, t: nat, spurious: bool, retry: bool)
    requires Sized(r) && |r.buffer| > 0 && t < |r.threads| && InRange(r, r.threads[t])
    requires r.threads[t].MayRead()
    ensures Advance(Wrapping, WrapRing(r), t, spurious, retry) == WrapRing(Advance(Unbounded, r, t, spurious, retry))
  {
    WrapSetPc(r, t, Advance(Unbounded, r, t, spurious, retry).threads[t]);
    match r.threads[t]
    case ConsumeGranted(slot) => U32.IndexSurvivesWrap(slot, |r.buffer|);
    case ConsumeRead(slot, _) => U32.NextWraps(slot); U32.Injective(r.head, slot);
  }

  lemma ObserveWraps<T>(r: Ring<T>, t: nat, spurious: bool, retry: bool)
    requires t < |r.threads| && InRange(r, r.threads[t])
    ensures Observe(Wrapping, WrapRing(r), Step(t, spurious, retry)) == Observe(Unbounded, r, Step(t, spurious, retry))
  {
    match r.threads[t]
    case PublishFull(_, slot) => U32.NextWraps(slot); U32.Injective(r.enqueuerTail, slot + 1);
    case PublishWritten(_, slot, _) => U32.Injective(r.tail, slot);
    case ConsumeEmpty(slot) => U32.NextWraps(slot); U32.Injective(r.dequeuerHead, slot + 1);
    case ConsumeRead(slot, _) => U32.Injective(r.head, slot);
    case _ =>
  }

  /** The `u32` machine takes every step exactly as the unbounded one does. */
  lemma NextWraps<T>(g: Traced<T>, a: Action<T>)
    requires Inv(g) && Sized(g.ring)
    ensures Next(Wrapping, WrapRing(g.ring), a) == WrapRing(Next(Unbounded, g.ring, a))
    ensures Observe(Wrapping, WrapRing(g.ring), a) == Observe(Unbounded, g.ring, a)
  {
    var r := g.ring;
    if a.t < |r.threads| {
      ReachableInRange(g, a.t);
      match a
      case CallPublish(t, item) => WrapSetPc(r, t, PublishCall(item));
      case CallConsume(t) => WrapSetPc(r, t, ConsumeCall);
      case Step(t, spurious, retry) =>
        ObserveWraps(r, t, spurious, retry);
        if r.threads[t].MayWrite() { PublishStepWraps(r, t, spurious, retry); }
        else if r.threads[t].Publishing() { ClaimStepWraps(r, t, spurious, retry); }
        else if r.threads[t].MayRead() { ReadStepWraps(r, t, spurious, retry); }
        else { LookStepWraps(r, t, spurious, retry); }
      case Unleak(t, spurious) =>
        WrapSetPc(r, t, Idle);
        if r.threads[t].MayWrite() {
          U32.NextWraps(r.threads[t].slot);
          U32.Injective(r.enqueuerTail, r.threads[t].slot + 1);
        }
    }
  }

  // ---------------------------------------------------------------------------------------
  // Whole runs

  function TracedRun<T>(buffer: seq<T>, threads: nat, schedule: seq<Action<T>>): (g: Traced<T>)
    requires |buffer| > 0
    ensures Inv(g)
    ensures |g.ring.buffer| == |buffer| && |g.ring.threads| == threads
  {
    if schedule == [] then Traced(Fresh(buffer, threads), [], map[], map[]) else
    var before := TracedRun(buffer, threads, schedule[..|schedule| - 1]);
    TraceKeepsInv(before, schedule[|schedule| - 1]);
    NextKeepsShape(Unbounded, before.ring, schedule[|schedule| - 1]);
    Trace(before, schedule[|schedule| - 1])
  }

  lemma {:induction false} TracedRunIsExec<T>(buffer: seq<T>, threads: nat, schedule: seq<Action<T>>)
    requires |buffer| > 0
    ensures TracedRun(buffer, threads, schedule).ring == Exec(Unbounded, Fresh(buffer, threads), schedule)
  {
    if schedule != [] {
      TracedRunIsExec(buffer, threads, schedule[..|schedule| - 1]);
    }
  }

  /**
   Over any schedule, of any length and so across any number of wraps, the `u32` ring is the
   wrapped image of the unbounded ring and its callers observe the same things.
   */
  lemma {:induction false} WrappingIsInvisible<T>(buffer: seq<T>, threads: nat, schedule: seq<Action<T>>)
    requires Supported(buffer, threads)
    ensures |buffer| > 0
    ensures Exec(Wrapping, Fresh(buffer, threads), schedule) ==
              WrapRing(Exec(Unbounded, Fresh(buffer, threads), schedule))
    ensures History(Wrapping, Fresh(buffer, threads), schedule) == History(Unbounded, Fresh(buffer, threads), schedule)
  {
    if schedule == [] {
      var start: Ring<T> := Fresh(buffer, threads);
      assert WrapRing(start).threads == start.threads;
    } else {
      var before := schedule[..|schedule| - 1];
      WrappingIsInvisible(buffer, threads, before);
      TracedRunIsExec(buffer, threads, before);
      NextWraps(TracedRun(buffer, threads, before), schedule[|schedule| - 1]);
    }
  }
}
