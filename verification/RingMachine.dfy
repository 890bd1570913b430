/**
 The lock-free ring `AtomicMove` as a step machine. Every atomic access of a thread is one
 step, any number of threads take part, and they interleave in any order. The access to a
 buffer slot is one step as well, which `RingFifo.SlotsAreExclusive` justifies.

 The protocol is written once and runs over two kinds of counters: the `u32` counters of the
 program and the unbounded counters used to reason about it.
 */
module RingMachine {
  import U32

  datatype Counters = Wrapping | Unbounded

  /** `x.overflowing_add(1).0` */
  function Succ(k: Counters, x: nat): nat {
    if k.Wrapping? then U32.Wrap(x + 1) else x + 1
  }

  /** `slot_id.overflowing_sub(head).0`, the producer's `len_before`. */
  function Occupied(k: Counters, slot: nat, head: nat): int {
    if k.Wrapping? then U32.Wrap(slot - head) else slot - head
  }

  /** `tail.overflowing_sub(slot_id).0 as i32`, the consumer's `len_before`. */
  function Pending(k: Counters, tail: nat, slot: nat): int {
    if k.Wrapping? then U32.AsI32(U32.Wrap(tail - slot)) else tail - slot
  }

  /** Where a thread stands inside `publish_movable` or `consume_movable`. */
  datatype Pc<T> =
    | Idle
    | PublishCall(item: T)                                    // about to `fetch_add` enqueuer_tail
    | PublishClaimed(item: T, slot: nat)                      // about to load head
    | PublishFull(item: T, slot: nat)                         // about to recede enqueuer_tail
    | PublishGranted(item: T, slot: nat, lenBefore: int)      // about to write the slot
    | PublishWritten(item: T, slot: nat, lenBefore: int)      // about to advance tail
    | ConsumeCall                                             // about to `fetch_add` dequeuer_head
    | ConsumeClaimed(slot: nat)                               // about to load tail
    | ConsumeEmpty(slot: nat)                                 // about to recede dequeuer_head
    | ConsumeGranted(slot: nat)                               // about to read the slot
    | ConsumeRead(slot: nat, item: T)                         // about to advance head
  {
    /** The thread is inside a publish and has its item in hand. */
    predicate Publishing() {
      PublishCall? || ClaimsPublish()
    }

    /** The thread holds an id taken from `enqueuer_tail`. */
    predicate ClaimsPublish() {
      PublishClaimed? || PublishFull? || MayWrite()
    }

    predicate MayWrite() {
      PublishGranted? || PublishWritten?
    }

    /** The thread holds an id taken from `dequeuer_head`. */
    predicate ClaimsConsume() {
      ConsumeClaimed? || ConsumeEmpty? || MayRead()
    }

    predicate MayRead() {
      ConsumeGranted? || ConsumeRead?
    }
  }

  datatype Ring<T> = Ring(
    head: nat, dequeuerHead: nat, tail: nat, enqueuerTail: nat,
    buffer: seq<T>, threads: seq<Pc<T>>)

  /**
   What the scheduler may do next. `spurious` makes a weak compare-exchange fail although the
   values match; `retry` is the answer of `report_full_fn` or `report_empty_fn`.
   */
  datatype Action<T> =
    | CallPublish(t: nat, item: T)
    | CallConsume(t: nat)
    | Step(t: nat, spurious: bool, retry: bool)
    | Unleak(t: nat, spurious: bool)                          // give a reserved slot back

  /** What a step lets its caller observe. */
  datatype Outcome<T> =
    | Silent
    | Published(item: T, len: int)
    | Refused(item: T)
    | Unleaked(item: T)
    | Consumed(item: T)
    | FoundEmpty

  function SetPc<T>(r: Ring<T>, t: nat, pc: Pc<T>): Ring<T>
    requires t < |r.threads|
  {
    r.(threads := r.threads[t := pc])
  }

  /** One atomic step of thread `t`. */
  function Advance<T>(k: Counters, r: Ring<T>, t: nat, spurious: bool, retry: bool): Ring<T>
    requires t < |r.threads| && |r.buffer| > 0
  {
    match r.threads[t]
    case Idle => r
    case PublishCall(item) =>
      SetPc(r, t, PublishClaimed(item, r.enqueuerTail)).(enqueuerTail := Succ(k, r.enqueuerTail))
    case PublishClaimed(item, slot) =>
      var lenBefore := Occupied(k, slot, r.head);
      if lenBefore < |r.buffer| then SetPc(r, t, PublishGranted(item, slot, lenBefore))
      else SetPc(r, t, PublishFull(item, slot))
    case PublishFull(item, slot) =>
      if !spurious && r.enqueuerTail == Succ(k, slot) then
        SetPc(r, t, if retry then PublishCall(item) else Idle).(enqueuerTail := slot)
      else SetPc(r, t, PublishClaimed(item, slot))
    case PublishGranted(item, slot, lenBefore) =>
      SetPc(r, t, PublishWritten(item, slot, lenBefore)).(buffer := r.buffer[slot % |r.buffer| := item])
    case PublishWritten(item, slot, lenBefore) =>
      if !spurious && r.tail == slot then SetPc(r, t, Idle).(tail := Succ(k, slot)) else r
    case ConsumeCall =>
      SetPc(r, t, ConsumeClaimed(r.dequeuerHead)).(dequeuerHead := Succ(k, r.dequeuerHead))
    case ConsumeClaimed(slot) =>
      if Pending(k, r.tail, slot) > 0 then SetPc(r, t, ConsumeGranted(slot)) else SetPc(r, t, ConsumeEmpty(slot))
    case ConsumeEmpty(slot) =>
      if !spurious && r.dequeuerHead == Succ(k, slot) then
        SetPc(r, t, if retry then ConsumeCall else Idle).(dequeuerHead := slot)
      else SetPc(r, t, ConsumeClaimed(slot))
    case ConsumeGranted(slot) =>
      SetPc(r, t, ConsumeRead(slot, r.buffer[slot % |r.buffer|]))
    case ConsumeRead(slot, item) =>
      if !spurious && r.head == slot then SetPc(r, t, Idle).(head := Succ(k, slot)) else r
  }

  /** `try_unleak_slot_internal` by a thread that was granted a slot and gives it up. */
  function GiveUp<T>(k: Counters, r: Ring<T>, t: nat, spurious: bool): Ring<T>
    requires t < |r.threads|
  {
    if r.threads[t].MayWrite() && !spurious && r.enqueuerTail == Succ(k, r.threads[t].slot) then
      SetPc(r, t, Idle).(enqueuerTail := r.threads[t].slot)
    else r
  }

  /** An action that does not apply in the current state changes nothing. */
  function Next<T>(k: Counters, r: Ring<T>, a: Action<T>): Ring<T>
    requires |r.buffer| > 0
  {
    if a.t >= |r.threads| then r else
    match a
    case CallPublish(t, item) => if r.threads[t].Idle? then SetPc(r, t, PublishCall(item)) else r
    case CallConsume(t) => if r.threads[t].Idle? then SetPc(r, t, ConsumeCall) else r
    case Step(t, spurious, retry) => Advance(k, r, t, spurious, retry)
    case Unleak(t, spurious) => GiveUp(k, r, t, spurious)
  }

  function Observe<T>(k: Counters, r: Ring<T>, a: Action<T>): Outcome<T> {
    if a.t >= |r.threads| then Silent else
    match a
    case CallPublish(_, _) => Silent
    case CallConsume(_) => Silent
    case Step(t, spurious, retry) =>
      (match r.threads[t]
       case PublishFull(item, slot) =>
         if !spurious && r.enqueuerTail == Succ(k, slot) && !retry then Refused(item) else Silent
       case PublishWritten(item, slot, lenBefore) =>
         if !spurious && r.tail == slot then Published(item, lenBefore + 1) else Silent
       case ConsumeEmpty(slot) =>
         if !spurious && r.dequeuerHead == Succ(k, slot) && !retry then FoundEmpty else Silent
       case ConsumeRead(slot, item) =>
         if !spurious && r.head == slot then Consumed(item) else Silent
       case _ => Silent)
    case Unleak(t, spurious) =>
      if r.threads[t].MayWrite() && !spurious && r.enqueuerTail == Succ(k, r.threads[t].slot)
      then Unleaked(r.threads[t].item) else Silent
  }

  lemma NextKeepsShape<T>(k: Counters, r: Ring<T>, a: Action<T>)
    requires |r.buffer| > 0
    ensures |Next(k, r, a).buffer| == |r.buffer| && |Next(k, r, a).threads| == |r.threads|
  {
  }

  /** The state after a whole schedule. */
  function Exec<T>(k: Counters, r: Ring<T>, schedule: seq<Action<T>>): (r': Ring<T>)
    requires |r.buffer| > 0
    ensures |r'.buffer| == |r.buffer| && |r'.threads| == |r.threads|
  {
    if schedule == [] then r else
    var before := Exec(k, r, schedule[..|schedule| - 1]);
    NextKeepsShape(k, before, schedule[|schedule| - 1]);
    Next(k, before, schedule[|schedule| - 1])
  }

  /** What the callers observed along a whole schedule, in order. */
  function History<T>(k: Counters, r: Ring<T>, schedule: seq<Action<T>>): seq<Outcome<T>>
    requires |r.buffer| > 0
  {
    if schedule == [] then [] else
    var before := schedule[..|schedule| - 1];
    History(k, r, before) + [Observe(k, Exec(k, r, before), schedule[|schedule| - 1])]
  }

  /** `with_initializer`: all counters zero, every thread outside the ring. */
  function Fresh<T>(buffer: seq<T>, threads: nat): Ring<T> {
    Ring(0, 0, 0, 0, buffer, seq(threads, _ => Idle))
  }
}
