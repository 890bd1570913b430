/**
 How far the `u32` arithmetic carries: for which sizes and numbers of threads the two tests are
 right, and runs that reach the ends of these ranges.
 */
module RingLimits {
  import opened RingMachine
  import opened RingInvariant
  import opened RingTheorems
  import opened RingFifo
  import opened LoneCalls
  import opened IndexCalls
  import U32

  // ---------------------------------------------------------------------------------------
  // Runs that fill the ring, go around it, or claim ids

  /** Nobody is inside, and the counters are these. */
  ghost predicate Stands<T>(r: Ring<T>, head: nat, tail: nat, size: nat, threads: nat) {
    && r.head == r.dequeuerHead == head && r.tail == r.enqueuerTail == tail
    && |r.buffer| == size && |r.threads| == threads
    && forall t | 0 <= t < threads :: r.threads[t].Idle?
  }

  function Publishes<T>(item: T, n: nat): seq<Action<T>> {
    if n == 0 then [] else Publishes(item, n - 1) + Undisturbed(CallPublish(0, item), 0)
  }

  lemma {:induction false} PublishesStand<T>(k: Counters, buffer: seq<T>, threads: nat, item: T, n: nat)
    requires n <= |buffer| && |buffer| > 0 && threads > 0 && (k.Wrapping? ==> |buffer| < 0x1_0000_0000)
    ensures Stands(Exec(k, Fresh(buffer, threads), Publishes(item, n)), 0, n, |buffer|, threads)
  {
    if n > 0 {
      PublishesStand(k, buffer, threads, item, n - 1);
      var r := Exec(k, Fresh(buffer, threads), Publishes(item, n - 1));
      SmallCounter(k, n - 1);
      LonePublishSucceeds(k, r, 0, item);
      ExecConcat(k, Fresh(buffer, threads), Publishes(item, n - 1), Undisturbed(CallPublish(0, item), 0));
    }
  }

  function RoundTrip<T>(item: T): seq<Action<T>> {
    Undisturbed(CallPublish(0, item), 0) + Undisturbed(CallConsume(0), 0)
  }

  function RoundTrips<T>(item: T, n: nat): seq<Action<T>> {
    if n == 0 then [] else RoundTrips(item, n - 1) + RoundTrip(item)
  }

  lemma OneRoundTrip<T>(r: Ring<T>, n: nat, size: nat, threads: nat, item: T)
    requires Stands(r, U32.Wrap(n), U32.Wrap(n), size, threads) && 0 < size < 0x8000_0000 && threads > 0
    ensures Stands(Exec(Wrapping, r, RoundTrip(item)), U32.Wrap(n + 1), U32.Wrap(n + 1), size, threads)
  {
    U32.NextWraps(n);
    LonePublishSucceeds(Wrapping, r, 0, item);
    var r1 := WithItem(Wrapping, r, item);
    PendingAgrees(n + 1, n);
    LoneConsumeSucceeds(Wrapping, r1, 0);
    ExecConcat(Wrapping, r, Undisturbed(CallPublish(0, item), 0), Undisturbed(CallConsume(0), 0));
  }

  lemma {:induction false} RoundTripsStand<T>(buffer: seq<T>, threads: nat, item: T, n: nat)
    requires 0 < |buffer| < 0x8000_0000 && threads > 0
    ensures Stands(Exec(Wrapping, Fresh(buffer, threads), RoundTrips(item, n)), U32.Wrap(n), U32.Wrap(n), |buffer|,
                   threads)
  {
    if n > 0 {
      RoundTripsStand(buffer, threads, item, n - 1);
      OneRoundTrip(Exec(Wrapping, Fresh(buffer, threads), RoundTrips(item, n - 1)), n - 1, |buffer|, threads, item);
      ExecConcat(Wrapping, Fresh(buffer, threads), RoundTrips(item, n - 1), RoundTrip(item));
    }
  }

  /** Each of the first `n` threads calls, and claims an id. */
  function ConsumeClaims<T>(n: nat): seq<Action<T>> {
    if n == 0 then [] else ConsumeClaims(n - 1) + [CallConsume(n - 1), Step(n - 1, false, false)]
  }

  function PublishClaims<T>(item: T, n: nat): seq<Action<T>> {
    if n == 0 then [] else PublishClaims(item, n - 1) + [CallPublish(n - 1, item), Step(n - 1, false, false)]
  }

  lemma TwoSteps<T>(k: Counters, r: Ring<T>, a: Action<T>, b: Action<T>)
    requires |r.buffer| > 0
    ensures |Next(k, r, a).buffer| > 0 && Exec(k, r, [a, b]) == Next(k, Next(k, r, a), b)
  {
    NextKeepsShape(k, r, a);
    assert [a, b][..1] == [a];
    assert Exec(k, r, [a]) == Next(k, Exec(k, r, []), a);
  }

  ghost predicate ConsumersClaimed<T>(r: Ring<T>, tail: nat, n: nat, size: nat, threads: nat) {
    && r.head == 0 && r.tail == tail && r.dequeuerHead == n
    && |r.buffer| == size && |r.threads| == threads
    && (forall t | 0 <= t < n :: t < threads && r.threads[t] == ConsumeClaimed(t))
    && forall t | n <= t < threads :: r.threads[t].Idle?
  }

  lemma {:induction false} ConsumersClaim<T>(r: Ring<T>, tail: nat, n: nat, size: nat, threads: nat)
    requires Stands(r, 0, tail, size, threads) && size > 0 && n <= threads
    ensures ConsumersClaimed(Exec(Unbounded, r, ConsumeClaims(n)), tail, n, size, threads)
  {
    if n > 0 {
      ConsumersClaim(r, tail, n - 1, size, threads);
      var (a: Action<T>, b: Action<T>) := (CallConsume(n - 1), Step(n - 1, false, false));
      ExecConcat(Unbounded, r, ConsumeClaims(n - 1), [a, b]);
      TwoSteps(Unbounded, Exec(Unbounded, r, ConsumeClaims(n - 1)), a, b);
    }
  }

  ghost predicate ProducersClaimed<T>(r: Ring<T>, tail: nat, n: nat, item: T, size: nat, threads: nat) {
    && r.head == 0 && r.tail == tail && r.enqueuerTail == tail + n
    && |r.buffer| == size && |r.threads| == threads
    && (forall t | 0 <= t < n :: t < threads && r.threads[t] == PublishClaimed(item, tail + t))
    && forall t | n <= t < threads :: r.threads[t].Idle?
  }

  lemma {:induction false} ProducersClaim<T>(r: Ring<T>, tail: nat, n: nat, item: T, size: nat, threads: nat)
    requires Stands(r, 0, tail, size, threads) && size > 0 && n <= threads
    ensures ProducersClaimed(Exec(Unbounded, r, PublishClaims(item, n)), tail, n, item, size, threads)
  {
    if n > 0 {
      ProducersClaim(r, tail, n - 1, item, size, threads);
      var (a: Action<T>, b: Action<T>) := (CallPublish(n - 1, item), Step(n - 1, false, false));
      ExecConcat(Unbounded, r, PublishClaims(item, n - 1), [a, b]);
      TwoSteps(Unbounded, Exec(Unbounded, r, PublishClaims(item, n - 1)), a, b);
    }
  }

  // ---------------------------------------------------------------------------------------
  // The sizes for which the tests are right

  /** On the ids of this ring, the signed `u32` test of a consumer says what comparing the ids says. */
  ghost predicate EmptyTestRight<T>(r: Ring<T>, t: nat) {
    t < |r.threads| && r.threads[t].ConsumeClaimed? ==>
      var slot := r.threads[t].slot;
      Pending(Wrapping, U32.Wrap(r.tail), U32.Wrap(slot)) > 0 <==> Pending(Unbounded, r.tail, slot) > 0
  }

  /** And the unsigned test of a producer. */
  ghost predicate FullTestRight<T>(r: Ring<T>, t: nat) {
    t < |r.threads| && r.threads[t].PublishClaimed? ==>
      var slot := r.threads[t].slot;
      var narrow := Occupied(Wrapping, U32.Wrap(slot), U32.Wrap(r.head));
      narrow < |r.buffer| <==> Occupied(Unbounded, slot, r.head) < |r.buffer|
  }

  lemma EmptyTestHolds<T>(buffer: seq<T>, threads: nat, schedule: seq<Action<T>>, t: nat)
    requires 0 < |buffer| < 0x8000_0000 && threads <= 0x8000_0001
    ensures EmptyTestRight(Exec(Unbounded, Fresh(buffer, threads), schedule), t)
  {
    TracedRunIsExec(buffer, threads, schedule);
    var g := TracedRun(buffer, threads, schedule);
    if t < threads && g.ring.threads[t].ConsumeClaimed? {
      WindowsFitThreads(g);
      assert ThreadOk(g, t);
      PendingAgrees(g.ring.tail, g.ring.threads[t].slot);
    }
  }

  lemma FullTestHolds<T>(buffer: seq<T>, threads: nat, schedule: seq<Action<T>>, t: nat)
    requires 0 < |buffer| && |buffer| + threads <= 0x1_0000_0000
    ensures FullTestRight(Exec(Unbounded, Fresh(buffer, threads), schedule), t)
  {
    TracedRunIsExec(buffer, threads, schedule);
    var g := TracedRun(buffer, threads, schedule);
    if t < threads && g.ring.threads[t].PublishClaimed? {
      WindowsFitThreads(g);
      assert ThreadOk(g, t);
      OccupiedAgrees(g.ring.threads[t].slot, g.ring.head);
    }
  }

  /** Distances the signed reading gets wrong: more than 2^31 below zero, or 2^31 above it. */
  lemma SignedEnds(d: nat)
    ensures d == 0x8000_0001 ==> Pending(Wrapping, 0, d) > 0 && U32.Wrap(d) == d
    ensures d == 0x8000_0000 ==> Pending(Wrapping, d, 0) <= 0 && U32.Wrap(d) == d
  {
  }

  /** A consumer with 2^31 items before it is told there are none. */
  lemma ReadsNone<T>(r: Ring<T>, n: nat, size: nat, threads: nat)
    requires ConsumersClaimed(r, n, 1, size, threads) && n == 0x8000_0000 && threads > 0
    ensures !EmptyTestRight(r, 0)
  {
    SignedEnds(n);
  }

  /** With 2^31 items published, the first consumer is told there are none. */
  lemma TooLarge<T>(buffer: seq<T>, threads: nat, n: nat) returns (schedule: seq<Action<T>>)
    requires |buffer| >= n == 0x8000_0000 && threads > 0
    ensures !EmptyTestRight(Exec(Unbounded, Fresh(buffer, threads), schedule), 0)
  {
    var (start, fill) := (Fresh(buffer, threads), Publishes(buffer[0], n));
    schedule := fill + ConsumeClaims(1);
    PublishesStand(Unbounded, buffer, threads, buffer[0], n);
    ConsumersClaim(Exec(Unbounded, start, fill), n, 1, |buffer|, threads);
    ExecConcat(Unbounded, start, fill, ConsumeClaims(1));
    ReadsNone(Exec(Unbounded, start, schedule), n, |buffer|, threads);
  }

  /** With 2^31 + 2 consumers on an empty ring, the last one is told there are items. */
  lemma TooMany<T>(buffer: seq<T>, threads: nat, t: nat) returns (schedule: seq<Action<T>>)
    requires |buffer| > 0 && threads > t == 0x8000_0001
    ensures !EmptyTestRight(Exec(Unbounded, Fresh(buffer, threads), schedule), t)
  {
    schedule := ConsumeClaims(t + 1);
    ConsumersClaim(Fresh(buffer, threads), 0, t + 1, |buffer|, threads);
    SignedEnds(t);
  }

  /**
   The signed test is right in every reachable state if and only if the size is below 2^31 and
   there are at most 2^31 + 1 threads.
   */
  lemma SignedTestIsExact<T>(buffer: seq<T>, threads: nat)
    requires |buffer| > 0 && threads > 0
    ensures (forall schedule, t :: EmptyTestRight(Exec(Unbounded, Fresh(buffer, threads), schedule), t)) <==>
              |buffer| < 0x8000_0000 && threads <= 0x8000_0001
  {
    if |buffer| >= 0x8000_0000 {
      var schedule := TooLarge(buffer, threads, 0x8000_0000);
    } else if threads > 0x8000_0001 {
      var schedule := TooMany(buffer, threads, 0x8000_0001);
    } else {
      forall schedule, t
        ensures EmptyTestRight(Exec(Unbounded, Fresh(buffer, threads), schedule), t)
      {
        EmptyTestHolds(buffer, threads, schedule, t);
      }
    }
  }

  /** With a full ring and ids claimed up to 2^32, the last producer is told there is room. */
  lemma TooFar<T>(buffer: seq<T>, threads: nat) returns (schedule: seq<Action<T>>, t: nat)
    requires 0 < |buffer| <= 0x1_0000_0000 < |buffer| + threads
    ensures !FullTestRight(Exec(Unbounded, Fresh(buffer, threads), schedule), t)
  {
    var (size, item) := (|buffer|, buffer[0]);
    t := 0x1_0000_0000 - size;
    schedule := Publishes(item, size) + PublishClaims(item, t + 1);
    PublishesStand(Unbounded, buffer, threads, item, size);
    ProducersClaim(Exec(Unbounded, Fresh(buffer, threads), Publishes(item, size)), size, t + 1, item, size, threads);
    ExecConcat(Unbounded, Fresh(buffer, threads), Publishes(item, size), PublishClaims(item, t + 1));
    assert U32.Wrap(0x1_0000_0000) == 0;
  }

  /**
   The unsigned test is right in every reachable state if and only if size and threads together
   are at most 2^32.
   */
  lemma UnsignedTestIsExact<T>(buffer: seq<T>, threads: nat)
    requires 0 < |buffer| <= 0x1_0000_0000 && threads > 0
    ensures (forall schedule, t :: FullTestRight(Exec(Unbounded, Fresh(buffer, threads), schedule), t)) <==>
              |buffer| + threads <= 0x1_0000_0000
  {
    if |buffer| + threads > 0x1_0000_0000 {
      var schedule, t := TooFar(buffer, threads);
    } else {
      forall schedule, t
        ensures FullTestRight(Exec(Unbounded, Fresh(buffer, threads), schedule), t)
      {
        FullTestHolds(buffer, threads, schedule, t);
      }
    }
  }

  /**
   On the `u32` ring itself: 2^31 is a power of two, and a ring of that size that is full answers
   an undisturbed consume that it is empty.
   */
  lemma FullRingReadsEmpty<T>(buffer: seq<T>, threads: nat, item: T)
    requires |buffer| == 0x8000_0000 && threads > 0
    ensures var r := Exec(Wrapping, Fresh(buffer, threads), Publishes(item, |buffer|));
      && |Contents(r)| == |buffer|
      && History(Wrapping, r, Undisturbed(CallConsume(0), 0)) == Learns(FoundEmpty, Silent)
  {
    PublishesStand(Wrapping, buffer, threads, item, |buffer|);
    StandsFull(Exec(Wrapping, Fresh(buffer, threads), Publishes(item, |buffer|)), |buffer|, threads);
  }

  lemma StandsFull<T>(r: Ring<T>, size: nat, threads: nat)
    requires Stands(r, 0, size, size, threads) && size == 0x8000_0000 && threads > 0
    ensures |r.buffer| > 0 && |Contents(r)| == size
    ensures History(Wrapping, r, Undisturbed(CallConsume(0), 0)) == Learns(FoundEmpty, Silent)
  {
    SignedEnds(size);
    LoneConsumeFails(Wrapping, r, 0);
    ContentsCount(r);
  }

  // ---------------------------------------------------------------------------------------
  // Where a cancel by index underflows, and where it strays

  function Bases<T>(actions: seq<Action<T>>): seq<IndexCalls.Event<T>> {
    seq(|actions|, i requires 0 <= i < |actions| => Base(actions[i]))
  }

  /** Without calls by index, the run is one of `RingMachine`. */
  lemma {:induction false} BasesRun<T>(buffer: seq<T>, threads: nat, actions: seq<Action<T>>)
    requires |buffer| > 0 && forall i | 0 <= i < |actions| :: actions[i].t < threads
    ensures IndexedRun(New(buffer, threads), Bases(actions)) ==
              Indexed(Exec(Wrapping, Fresh(buffer, threads), actions), New(buffer, threads).loops)
  {
    if actions != [] {
      var front := actions[..|actions| - 1];
      BasesRun(buffer, threads, front);
      assert Bases(actions)[..|front|] == Bases(front);
    }
  }

  lemma BasesDoNotStray<T>(buffer: seq<T>, threads: nat, actions: seq<Action<T>>)
    ensures NoneStrays(New(buffer, threads), Bases(actions))
  {
  }

  /** `leak_slot_internal` by thread `t`, undisturbed. */
  function Reserve<T>(t: nat, item: T): seq<Action<T>> {
    [CallPublish(t, item), Step(t, false, false), Step(t, false, false)]
  }

  lemma Reserves<T>(r: Ring<T>, t: nat, item: T, len: int)
    requires |r.buffer| > 0 && t < |r.threads| && r.threads[t].Idle?
    requires len == Occupied(Wrapping, r.enqueuerTail, r.head) < |r.buffer|
    ensures Exec(Wrapping, r, Reserve(t, item)) ==
              SetPc(r, t, PublishGranted(item, r.enqueuerTail, len)).(enqueuerTail := U32.Wrap(r.enqueuerTail + 1))
  {
    var (a: Action<T>, s: Action<T>) := (CallPublish(t, item), Step(t, false, false));
    var r2 := SetPc(r, t, PublishClaimed(item, r.enqueuerTail)).(enqueuerTail := U32.Wrap(r.enqueuerTail + 1));
    TwoSteps(Wrapping, r, a, s);
    ClaimStep(r, t, item);
    GrantStep(r2, t, item, r.enqueuerTail, len);
    Appends(r, [a, s], s);
    assert [a, s] + [s] == Reserve(t, item);
    SetTwice(r.threads, t, r2.threads[t], PublishGranted(item, r.enqueuerTail, len));
  }

  lemma SetTwice<T>(threads: seq<Pc<T>>, t: nat, first: Pc<T>, second: Pc<T>)
    requires t < |threads|
    ensures threads[t := first][t := second] == threads[t := second]
  {
  }

  lemma ClaimStep<T>(r: Ring<T>, t: nat, item: T)
    requires |r.buffer| > 0 && t < |r.threads| && r.threads[t].Idle?
    ensures |Next(Wrapping, r, CallPublish(t, item)).buffer| > 0
    ensures Next(Wrapping, Next(Wrapping, r, CallPublish(t, item)), Step(t, false, false)) ==
              SetPc(r, t, PublishClaimed(item, r.enqueuerTail)).(enqueuerTail := U32.Wrap(r.enqueuerTail + 1))
  {
    SetTwice(r.threads, t, PublishCall(item), PublishClaimed(item, r.enqueuerTail));
  }

  lemma GrantStep<T>(r: Ring<T>, t: nat, item: T, slot: nat, len: int)
    requires |r.buffer| > 0 && t < |r.threads| && r.threads[t] == PublishClaimed(item, slot)
    requires len == Occupied(Wrapping, slot, r.head) < |r.buffer|
    ensures Next(Wrapping, r, Step(t, false, false)) == SetPc(r, t, PublishGranted(item, slot, len))
  {
  }

  lemma Appends<T>(r: Ring<T>, schedule: seq<Action<T>>, a: Action<T>)
    requires |r.buffer| > 0
    ensures Exec(Wrapping, r, schedule + [a]) == Next(Wrapping, Exec(Wrapping, r, schedule), a)
  {
    assert (schedule + [a])[..|schedule|] == schedule;
  }

  /** Going around until one id is left before the counters wrap, then reserving that id. */
  function UpToTheWrap<T>(item: T, rounds: nat): seq<Action<T>> {
    RoundTrips(item, rounds) + Reserve(0, item)
  }

  lemma {:induction false} RoundTripsThread<T>(item: T, n: nat)
    ensures forall i | 0 <= i < |RoundTrips(item, n)| :: RoundTrips(item, n)[i].t == 0
  {
    if n > 0 { RoundTripsThread(item, n - 1); }
  }

  /**
   A run reaches a ring whose `enqueuer_tail` is zero while id 2^32 - 1 is reserved, at the last
   index. There a cancel by index underflows, and in wrapping arithmetic it does what the cancel
   by id does.
   */
  lemma ReservedAtTheWrap<T>(buffer: seq<T>, threads: nat, item: T, n: nat)
    requires Supported(buffer, threads) && threads > 0 && n == 0xFFFF_FFFF
    ensures var x := IndexedRun(New(buffer, threads), Bases(UpToTheWrap(item, n)));
      && x.ring.enqueuerTail == 0 && Holding(x, 0) && x.ring.threads[0].slot == n && n % |buffer| == |buffer| - 1
      && Underflows(IndexedNext(x, CancelByIndex(0)), Exchange(0, false))
      && LoneCancel(x, 0).ring == Next(Wrapping, x.ring, Unleak(0, false))
  {
    ReachesTheWrap(buffer, threads, item, n);
    RoundTripsThread(item, n);
    BasesRun(buffer, threads, UpToTheWrap(item, n));
    AtTheWrap(IndexedRun(New(buffer, threads), Bases(UpToTheWrap(item, n))), n);
  }

  lemma ReachesTheWrap<T>(buffer: seq<T>, threads: nat, item: T, n: nat)
    requires 0 < |buffer| < 0x8000_0000 && threads > 0 && n == 0xFFFF_FFFF
    ensures var r := Exec(Wrapping, Fresh(buffer, threads), UpToTheWrap(item, n));
      r.enqueuerTail == 0 && r.threads[0] == PublishGranted(item, n, 0)
  {
    RoundTripsStand(buffer, threads, item, n);
    U32.SmallIsItself(n);
    Reserves(Exec(Wrapping, Fresh(buffer, threads), RoundTrips(item, n)), 0, item, 0);
    ExecConcat(Wrapping, Fresh(buffer, threads), RoundTrips(item, n), Reserve(0, item));
  }

  lemma LastIndex(n: nat, size: nat)
    requires n == 0xFFFF_FFFF && U32.PowerOfTwo(size) && size <= 0x1_0000_0000
    ensures n % size == size - 1
  {
    var laps := U32.DividesModulus(size);
    assert size * (laps - 1) == size * laps - size;
    U32.RemainderIs(n, size, laps - 1, size - 1);
  }

  lemma AtTheWrap<T>(x: Indexed<T>, n: nat)
    requires Free(x, 0) && x.ring.enqueuerTail == 0 && x.ring.threads[0].slot == n == 0xFFFF_FFFF
    ensures n % |x.ring.buffer| == |x.ring.buffer| - 1
    ensures Underflows(IndexedNext(x, CancelByIndex(0)), Exchange(0, false))
    ensures LoneCancel(x, 0).ring == Next(Wrapping, x.ring, Unleak(0, false))
  {
    LastIndex(n, |x.ring.buffer|);
    UnderflowIsExact(x, 0, [false]);
    CounterStays(IndexedNext(x, CancelByIndex(0)), 0, []);
    assert Exchanges<T>(0, [false][..0]) == [];
    LoneCancelCompared(x, 0);
  }

  /** Threads 0 and 1 reserve both slots of a ring of two, and thread 2 claims an id it will not be granted. */
  function OverClaim<T>(item: T): seq<Action<T>> {
    Reserve(0, item) + Reserve(1, item) + [CallPublish(2, item), Step(2, false, false)]
  }

  lemma OverClaimed<T>(buffer: seq<T>, item: T)
    requires |buffer| == 2
    ensures var r := Exec(Wrapping, Fresh(buffer, 3), OverClaim(item));
      && r.threads == [PublishGranted(item, 0, 0), PublishGranted(item, 1, 1), PublishClaimed(item, 2)]
      && r.tail == r.head == 0 && r.enqueuerTail == 3 && |r.buffer| == 2
  {
    var (start, last) := (Fresh(buffer, 3), [CallPublish(2, item), Step(2, false, false)]);
    Reserves(start, 0, item, 0);
    var r1 := Exec(Wrapping, start, Reserve(0, item));
    Reserves(r1, 1, item, 1);
    ExecConcat(Wrapping, start, Reserve(0, item), Reserve(1, item));
    var r2 := Exec(Wrapping, start, Reserve(0, item) + Reserve(1, item));
    TwoSteps(Wrapping, r2, last[0], last[1]);
    ExecConcat(Wrapping, start, Reserve(0, item) + Reserve(1, item), last);
  }

  /** Then thread 0 gives its slot up by index, and its first exchange fails. */
  function UpToTheStray<T>(item: T): seq<IndexCalls.Event<T>> {
    Bases(OverClaim(item)) + [CancelByIndex(0), Exchange(0, false)]
  }

  /**
   A run whose cancel by index strays: thread 0, holding id 0, is told it succeeded while id 2 of
   thread 2 was retracted. Nobody holds id 0 any more and it stays reserved, and the counter hands
   out id 2 again, which thread 2 still has. No run of calls by id ends up there.
   */
  lemma CancelCanStray<T>(buffer: seq<T>, item: T, schedule: seq<Action<T>>)
    requires |buffer| == 2
    ensures var x := IndexedRun(New(buffer, 3), UpToTheStray(item));
      var r := IndexedNext(x, Exchange(0, false)).ring;
      && NoneStrays(New(buffer, 3), UpToTheStray(item)) && Strays(x, Exchange(0, false))
      && r.threads[0].Idle? && r.tail == 0 && r.enqueuerTail == 2
      && (forall t :: !PublishesUnder(r, t, 0)) && PublishesUnder(r, 2, 2)
      && r != Reached(buffer, 3, schedule)
  {
    var x := StrayReached(buffer, item);
    StrayResult(x);
    StrayIsUnreachable(buffer, 3, UpToTheStray(item), x, Exchange(0, false), schedule);
  }

  lemma StrayReached<T>(buffer: seq<T>, item: T) returns (x: Indexed<T>)
    requires |buffer| == 2
    ensures x == IndexedRun(New(buffer, 3), UpToTheStray(item)) && NoneStrays(New(buffer, 3), UpToTheStray(item))
    ensures Strays(x, Exchange(0, false)) && x.ring.tail == 0 && x.ring.enqueuerTail == 3 && |x.ring.buffer| == 2
    ensures x.ring.threads == [PublishGranted(item, 0, 0), PublishGranted(item, 1, 1), PublishClaimed(item, 2)]
    ensures x.loops == [Cancelling(2), Outside, Outside]
  {
    var (start, bases) := (New(buffer, 3), Bases(OverClaim(item)));
    OverClaimed(buffer, item);
    BasesRun(buffer, 3, OverClaim(item));
    BasesDoNotStray(buffer, 3, OverClaim(item));
    StraysAfter(start, bases, IndexedRun(start, bases));
    x := IndexedRun(start, UpToTheStray(item));
  }

  lemma StrayResult<T>(x: Indexed<T>)
    requires Strays(x, Exchange(0, false)) && x.ring.tail == 0 && x.ring.enqueuerTail == 3
    requires |x.ring.threads| == 3 && x.loops == [Cancelling(2), Outside, Outside]
    requires x.ring.threads[1].PublishGranted? && x.ring.threads[1].slot == 1
    requires x.ring.threads[2].PublishClaimed? && x.ring.threads[2].slot == 2
    ensures var r := IndexedNext(x, Exchange(0, false)).ring;
      && r.threads[0].Idle? && r.tail == 0 && r.enqueuerTail == 2
      && (forall t :: !PublishesUnder(r, t, 0)) && PublishesUnder(r, 2, 2)
  {
  }

  lemma StraysAfter<T>(start: Indexed<T>, bases: seq<IndexCalls.Event<T>>, x0: Indexed<T>)
    requires x0 == IndexedRun(start, bases) && NoneStrays(start, bases)
    requires |x0.ring.buffer| == 2 && x0.ring.enqueuerTail == 3 && |x0.ring.threads| == 3
    requires x0.loops == [Outside, Outside, Outside] && x0.ring.threads[0].MayWrite() && x0.ring.threads[0].slot == 0
    ensures var events := bases + [CancelByIndex(0), Exchange(0, false)];
      && NoneStrays(start, events)
      && IndexedRun(start, events) == x0.(loops := [Cancelling(2), Outside, Outside])
      && Strays(IndexedRun(start, events), Exchange(0, false))
  {
    var x1 := x0.(loops := [Cancelling(0), Outside, Outside]);
    assert IndexedNext(x0, CancelByIndex(0)) == x1;
    Appended(start, bases, x0, CancelByIndex(0));
    FirstExchangeFails(x1);
    Appended(start, bases + [CancelByIndex(0)], x1, Exchange(0, false));
    assert bases + [CancelByIndex(0)] + [Exchange(0, false)] == bases + [CancelByIndex(0), Exchange(0, false)];
  }

  lemma FirstExchangeFails<T>(x: Indexed<T>)
    requires |x.ring.buffer| == 2 && x.ring.enqueuerTail == 3 && |x.ring.threads| == 3
    requires x.loops == [Cancelling(0), Outside, Outside] && x.ring.threads[0].MayWrite() && x.ring.threads[0].slot == 0
    ensures !Strays(x, Exchange(0, false))
    ensures IndexedNext(x, Exchange(0, false)) == x.(loops := [Cancelling(2), Outside, Outside])
    ensures Strays(x.(loops := [Cancelling(2), Outside, Outside]), Exchange(0, false))
  {
    assert x.loops[0 := Cancelling(2)] == [Cancelling(2), Outside, Outside];
  }

  lemma Appended<T>(start: Indexed<T>, events: seq<IndexCalls.Event<T>>, x: Indexed<T>, e: IndexCalls.Event<T>)
    requires x == IndexedRun(start, events) && NoneStrays(start, events) && !Strays(x, e)
    ensures NoneStrays(start, events + [e]) && IndexedRun(start, events + [e]) == IndexedNext(x, e)
  {
    assert (events + [e])[..|events|] == events;
    forall i | 0 <= i < |events| + 1
      ensures !Strays(IndexedRun(start, (events + [e])[..i]), (events + [e])[i])
    {
      if i < |events| { assert (events + [e])[..i] == events[..i]; }
    }
  }
}
