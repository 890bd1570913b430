/**
 The ring is a bounded FIFO queue with exclusive slots. All statements range over every
 schedule of every number of threads; those about contents and slots are about the `u32`
 machine.
 */
module RingFifo {
  import opened RingMachine
  import opened RingInvariant
  import opened RingTheorems
  import U32

  /** The `u32` ring after `schedule`. */
  function Reached<T>(buffer: seq<T>, threads: nat, schedule: seq<Action<T>>): Ring<T>
    requires |buffer| > 0
  {
    Exec(Wrapping, Fresh(buffer, threads), schedule)
  }

  /** The published and not yet released items, read off the `u32` counters and the buffer. */
  function Contents<T>(r: Ring<T>): seq<T>
    requires |r.buffer| > 0
  {
    seq(U32.Wrap(r.tail - r.head),
        i requires 0 <= i < U32.Wrap(r.tail - r.head) => r.buffer[U32.Wrap(r.head + i) % |r.buffer|])
  }

  lemma ContentsCount<T>(r: Ring<T>)
    requires |r.buffer| > 0
    ensures |Contents(r)| == U32.Wrap(r.tail - r.head)
  {
  }

  function Given<T>(history: seq<Outcome<T>>): seq<T> {
    if history == [] then [] else
    var last := history[|history| - 1];
    Given(history[..|history| - 1]) + if last.Published? then [last.item] else []
  }

  function Taken<T>(history: seq<Outcome<T>>): seq<T> {
    if history == [] then [] else
    var last := history[|history| - 1];
    Taken(history[..|history| - 1]) + if last.Consumed? then [last.item] else []
  }

  lemma ContentsLength<T>(g: Traced<T>)
    requires Inv(g) && Sized(g.ring)
    ensures |Contents(WrapRing(g.ring))| == g.ring.tail - g.ring.head <= |g.ring.buffer|
  {
    U32.Distance(g.ring.tail, g.ring.head);
    U32.SmallIsItself(g.ring.tail - g.ring.head);
  }

  lemma ContentsAt<T>(g: Traced<T>, i: nat)
    requires Inv(g) && Sized(g.ring) && i < g.ring.tail - g.ring.head
    ensures |Contents(WrapRing(g.ring))| == g.ring.tail - g.ring.head
    ensures Contents(WrapRing(g.ring))[i] == g.log[g.ring.head + i]
  {
    ContentsLength(g);
    U32.WrapSum(g.ring.head, i);
    U32.IndexSurvivesWrap(g.ring.head + i, |g.ring.buffer|);
  }

  /** The `u32` ring shows exactly the part of the log between head and tail. */
  lemma ContentsAreLog<T>(g: Traced<T>)
    requires Inv(g) && Sized(g.ring)
    ensures Contents(WrapRing(g.ring)) == g.log[g.ring.head..g.ring.tail]
  {
    var contents := Contents(WrapRing(g.ring));
    ContentsLength(g);
    forall i | 0 <= i < |contents|
      ensures contents[i] == g.log[g.ring.head..g.ring.tail][i]
    {
      ContentsAt(g, i);
    }
  }

  /** Every reachable `u32` ring is the wrapped image of an unbounded ring that satisfies the invariant. */
  lemma ReachedIsTraced<T>(buffer: seq<T>, threads: nat, schedule: seq<Action<T>>) returns (g: Traced<T>)
    requires Supported(buffer, threads)
    ensures |buffer| > 0 && g == TracedRun(buffer, threads, schedule)
    ensures Inv(g) && Sized(g.ring) && |g.ring.buffer| == |buffer|
    ensures Reached(buffer, threads, schedule) == WrapRing(g.ring)
  {
    WrappingIsInvisible(buffer, threads, schedule);
    TracedRunIsExec(buffer, threads, schedule);
    g := TracedRun(buffer, threads, schedule);
  }

  /** One step of a bounded FIFO. A publish is told a length of at least the one it leaves behind. */
  ghost predicate QueueStep<T>(before: seq<T>, o: Outcome<T>, after: seq<T>, size: nat) {
    match o
    case Published(item, len) => |before| < size && after == before + [item] && |after| <= len <= size
    case Consumed(item) => before == [item] + after
    case _ => after == before
  }

  lemma ObservedSteps<T>(g: Traced<T>, a: Action<T>)
    requires Inv(g)
    ensures Inv(Trace(g, a))
    ensures var (r, r', o) := (g.ring, Trace(g, a).ring, Observe(Unbounded, g.ring, a));
      match o
      case Published(item, len) =>
        && r'.head == r.head && r'.tail == r.tail + 1 && Trace(g, a).log == g.log + [item]
        && r'.tail - r'.head <= len <= |r.buffer|
      case Consumed(item) =>
        && r'.head == r.head + 1 && r'.tail == r.tail && r.head < r.tail
        && item == g.log[r.head] && Trace(g, a).log == g.log
      case _ => r'.head == r.head && r'.tail == r.tail && Trace(g, a).log == g.log
  {
    TraceKeepsInv(g, a);
    if a.t < |g.ring.threads| {
      assert ThreadOk(g, a.t);
    }
  }

  lemma TracedQueueStep<T>(g: Traced<T>, a: Action<T>)
    requires Inv(g)
    ensures var g' := Trace(g, a);
      && Ordered(g')
      && QueueStep(g.log[g.ring.head..g.ring.tail], Observe(Unbounded, g.ring, a),
                   g'.log[g'.ring.head..g'.ring.tail], |g.ring.buffer|)
  {
    ObservedSteps(g, a);
    var (r, log) := (g.ring, g.log);
    match Observe(Unbounded, r, a)
    case Published(item, _) => assert (log + [item])[r.head..r.tail + 1] == log[r.head..r.tail] + [item];
    case Consumed(item) => assert log[r.head..r.tail] == [item] + log[r.head + 1..r.tail];
    case _ =>
  }

  /**
   Refinement, step by step: a publish appends its item at the instant its `tail` exchange
   succeeds, a consume removes and returns the first item at the instant its `head` exchange
   succeeds, and no other step of any thread changes the queue.
   */
  lemma EveryStepIsAQueueStep<T>(buffer: seq<T>, threads: nat, schedule: seq<Action<T>>, a: Action<T>)
    requires Supported(buffer, threads)
    ensures |buffer| > 0
    ensures var (r, r') := (Reached(buffer, threads, schedule), Reached(buffer, threads, schedule + [a]));
      QueueStep(Contents(r), Observe(Wrapping, r, a), Contents(r'), |buffer|) && |Contents(r)| <= |buffer|
  {
    var g := ReachedIsTraced(buffer, threads, schedule);
    var g' := ReachedIsTraced(buffer, threads, schedule + [a]);
    assert g' == Trace(g, a) by {
      assert (schedule + [a])[..|schedule|] == schedule;
    }
    assert Observe(Wrapping, WrapRing(g.ring), a) == Observe(Unbounded, g.ring, a) by {
      NextWraps(g, a);
    }
    ContentsLength(g);
    ContentsAreLog(g);
    ContentsAreLog(g');
    TracedQueueStep(g, a);
  }

  lemma GivenTakenAppend<T>(history: seq<Outcome<T>>, o: Outcome<T>)
    ensures Given(history + [o]) == Given(history) + if o.Published? then [o.item] else []
    ensures Taken(history + [o]) == Taken(history) + if o.Consumed? then [o.item] else []
  {
    assert (history + [o])[..|history|] == history;
  }

  /** The log grows by what is published, its released part by what is consumed. */
  lemma LogStep<T>(g: Traced<T>, a: Action<T>)
    requires Inv(g)
    ensures var (g', o) := (Trace(g, a), Observe(Unbounded, g.ring, a));
      && Ordered(g')
      && g'.log == g.log + (if o.Published? then [o.item] else [])
      && g'.log[..g'.ring.head] == g.log[..g.ring.head] + if o.Consumed? then [o.item] else []
  {
    ObservedSteps(g, a);
    var (r, log) := (g.ring, g.log);
    match Observe(Unbounded, r, a)
    case Published(item, _) => assert (log + [item])[..r.head] == log[..r.head];
    case Consumed(item) => assert log[..r.head + 1] == log[..r.head] + [item];
    case _ =>
  }

  lemma {:induction false} HistoryIsLog<T>(buffer: seq<T>, threads: nat, schedule: seq<Action<T>>)
    requires |buffer| > 0
    ensures var g := TracedRun(buffer, threads, schedule);
      var history := History(Unbounded, Fresh(buffer, threads), schedule);
      Given(history) == g.log && Taken(history) == g.log[..g.ring.head]
  {
    if schedule != [] {
      var (front, a) := (schedule[..|schedule| - 1], schedule[|schedule| - 1]);
      var g := TracedRun(buffer, threads, front);
      HistoryIsLog(buffer, threads, front);
      LogStep(g, a);
      GivenTakenAppend(History(Unbounded, Fresh(buffer, threads), front), Observe(Unbounded, g.ring, a));
      TracedRunIsExec(buffer, threads, front);
    }
  }

  /**
   First in, first out, over whole runs: what consumers took, followed by what is in the ring,
   is what producers gave, in order, with nothing lost, duplicated or altered.
   */
  lemma FirstInFirstOut<T>(buffer: seq<T>, threads: nat, schedule: seq<Action<T>>)
    requires Supported(buffer, threads)
    ensures |buffer| > 0
    ensures var history := History(Wrapping, Fresh(buffer, threads), schedule);
      Given(history) == Taken(history) + Contents(Reached(buffer, threads, schedule))
  {
    var g := ReachedIsTraced(buffer, threads, schedule);
    var history := History(Wrapping, Fresh(buffer, threads), schedule);
    assert Given(history) == g.log && Taken(history) == g.log[..g.ring.head] by {
      WrappingIsInvisible(buffer, threads, schedule);
      HistoryIsLog(buffer, threads, schedule);
    }
    ContentsAreLog(g);
    SplitAt(g.log, g.ring.head);
  }

  lemma SplitAt<T>(s: seq<T>, n: nat)
    requires n <= |s|
    ensures s == s[..n] + s[n..|s|]
  {
  }

  lemma TracedSlotsDiffer<T>(g: Traced<T>, t: nat, u: nat)
    requires Inv(g) && t < |g.ring.threads| && u < |g.ring.threads| && t != u
    requires g.ring.threads[t].MayWrite() || g.ring.threads[t].MayRead()
    requires g.ring.threads[u].MayWrite() || g.ring.threads[u].MayRead()
    ensures g.ring.threads[t].slot % |g.ring.buffer| != g.ring.threads[u].slot % |g.ring.buffer|
  {
    assert ThreadOk(g, t) && ThreadOk(g, u);
    IndexesDiffer(g.ring.threads[t].slot, g.ring.threads[u].slot, g.ring.head, |g.ring.buffer|);
  }

  /** No two threads that were granted slots, for writing or reading, address the same one. */
  lemma SlotsAreExclusive<T>(buffer: seq<T>, threads: nat, schedule: seq<Action<T>>, t: nat, u: nat)
    requires Supported(buffer, threads) && t < threads && u < threads && t != u
    requires |buffer| > 0
    requires var r := Reached(buffer, threads, schedule);
      && (r.threads[t].MayWrite() || r.threads[t].MayRead())
      && (r.threads[u].MayWrite() || r.threads[u].MayRead())
    ensures var r := Reached(buffer, threads, schedule);
      r.threads[t].slot % |buffer| != r.threads[u].slot % |buffer|
  {
    var g := ReachedIsTraced(buffer, threads, schedule);
    TracedSlotsDiffer(g, t, u);
    U32.IndexSurvivesWrap(g.ring.threads[t].slot, |buffer|);
    U32.IndexSurvivesWrap(g.ring.threads[u].slot, |buffer|);
  }

  // ---------------------------------------------------------------------------------------
  // Ownership of ids

  ghost predicate PublishesUnder<T>(r: Ring<T>, t: nat, id: nat) {
    t < |r.threads| && r.threads[t].ClaimsPublish() && r.threads[t].slot == id
  }

  ghost predicate ConsumesUnder<T>(r: Ring<T>, t: nat, id: nat) {
    t < |r.threads| && r.threads[t].ClaimsConsume() && r.threads[t].slot == id
  }

  /** The outstanding ids are exactly the two windows, and each has exactly one holder. */
  lemma OneOwnerPerId<T>(buffer: seq<T>, threads: nat, schedule: seq<Action<T>>, id: nat)
    requires |buffer| > 0
    ensures var r := Exec(Unbounded, Fresh(buffer, threads), schedule);
      && (r.tail <= id < r.enqueuerTail <==> exists t :: PublishesUnder(r, t, id))
      && (r.head <= id < r.dequeuerHead <==> exists t :: ConsumesUnder(r, t, id))
      && (forall t, u :: PublishesUnder(r, t, id) && PublishesUnder(r, u, id) ==> t == u)
      && (forall t, u :: ConsumesUnder(r, t, id) && ConsumesUnder(r, u, id) ==> t == u)
  {
    TracedRunIsExec(buffer, threads, schedule);
    var g := TracedRun(buffer, threads, schedule);
    var r := g.ring;
    forall t | PublishesUnder(r, t, id) || ConsumesUnder(r, t, id)
      ensures ThreadOk(g, t)
    {
    }
    if r.tail <= id < r.enqueuerTail {
      assert PublishesUnder(r, g.publisher[id], id);
    }
    if r.head <= id < r.dequeuerHead {
      assert ConsumesUnder(r, g.consumer[id], id);
    }
  }

  /** Thread `t` retracts id `last`, and every other claim on the same counter is below it. */
  ghost predicate RetractsPublish<T>(r: Ring<T>, t: nat, r': Ring<T>) {
    && r.enqueuerTail > 0 && r'.enqueuerTail == r.enqueuerTail - 1
    && PublishesUnder(r, t, r.enqueuerTail - 1)
    && forall u | 0 <= u < |r.threads| && u != t && r.threads[u].ClaimsPublish() :: r.threads[u].slot < r'.enqueuerTail
  }

  ghost predicate RetractsConsume<T>(r: Ring<T>, t: nat, r': Ring<T>) {
    && r.dequeuerHead > 0 && r'.dequeuerHead == r.dequeuerHead - 1
    && ConsumesUnder(r, t, r.dequeuerHead - 1)
    && forall u | 0 <= u < |r.threads| && u != t && r.threads[u].ClaimsConsume() :: r.threads[u].slot < r'.dequeuerHead
  }

  lemma MovesRetractOwn<T>(g: Traced<T>, t: nat, g': Traced<T>)
    requires Inv(g) && t < |g.ring.threads| && Moves(g, t, g')
    ensures g'.ring.enqueuerTail < g.ring.enqueuerTail ==> RetractsPublish(g.ring, t, g'.ring)
    ensures g'.ring.dequeuerHead < g.ring.dequeuerHead ==> RetractsConsume(g.ring, t, g'.ring)
  {
    assert ThreadOk(g, t);
    var pcs := g.ring.threads;
    forall u | 0 <= u < |pcs| && u != t
      ensures pcs[u].ClaimsPublish() ==>
                pcs[u].slot < g.ring.enqueuerTail && (pcs[t].ClaimsPublish() ==> pcs[u].slot != pcs[t].slot)
      ensures pcs[u].ClaimsConsume() ==>
                pcs[u].slot < g.ring.dequeuerHead && (pcs[t].ClaimsConsume() ==> pcs[u].slot != pcs[t].slot)
    {
      assert ThreadOk(g, u);
    }
  }

  /** A counter recedes only by retracting the acting thread's own id, which is above every other one. */
  lemma BackOutIsOwnTopmost<T>(buffer: seq<T>, threads: nat, schedule: seq<Action<T>>, a: Action<T>)
    requires |buffer| > 0
    ensures var r := Exec(Unbounded, Fresh(buffer, threads), schedule);
      var r' := Next(Unbounded, r, a);
      && (r'.enqueuerTail < r.enqueuerTail ==> RetractsPublish(r, a.t, r'))
      && (r'.dequeuerHead < r.dequeuerHead ==> RetractsConsume(r, a.t, r'))
  {
    TracedRunIsExec(buffer, threads, schedule);
    var g := TracedRun(buffer, threads, schedule);
    if a.t < threads {
      StepMoves(g, a);
      MovesRetractOwn(g, a.t, Trace(g, a));
    }
  }

  // ---------------------------------------------------------------------------------------
  // What a refusal means

  ghost predicate PublishedByAnother<T>(r: Ring<T>, t: nat, id: nat) {
    exists u :: u != t && PublishesUnder(r, u, id)
  }

  ghost predicate ConsumedByAnother<T>(r: Ring<T>, t: nat, id: nat) {
    exists u :: u != t && ConsumesUnder(r, u, id)
  }

  lemma FullBranch<T>(g: Traced<T>, t: nat, a: Action<T>, id: nat)
    requires Inv(g) && t < |g.ring.threads| && a.Step? && a.t == t && g.ring.threads[t].PublishClaimed?
    ensures var (r, full) := (g.ring, Next(Unbounded, g.ring, a).threads[t].PublishFull?);
      && (full <==> r.threads[t].slot >= r.head + |r.buffer|)
      && (full && r.tail <= id < r.head + |r.buffer| ==> PublishedByAnother(r, t, id))
  {
    assert ThreadOk(g, t);
    if g.ring.tail <= id < g.ring.enqueuerTail && id != g.ring.threads[t].slot {
      assert PublishesUnder(g.ring, g.publisher[id], id);
    }
  }

  /**
   A producer takes the "full" branch exactly when its id lies a whole buffer ahead of `head`,
   and then every one of the buffer's ids is published or in the hands of another producer.
   */
  lemma FullMeansReserved<T>(buffer: seq<T>, threads: nat, schedule: seq<Action<T>>, t: nat, a: Action<T>, id: nat)
    requires |buffer| > 0 && t < threads && a.Step? && a.t == t
    requires Exec(Unbounded, Fresh(buffer, threads), schedule).threads[t].PublishClaimed?
    ensures var r := Exec(Unbounded, Fresh(buffer, threads), schedule);
      && (Next(Unbounded, r, a).threads[t].PublishFull? <==> r.threads[t].slot >= r.head + |buffer|)
      && (Next(Unbounded, r, a).threads[t].PublishFull? && r.tail <= id < r.head + |buffer| ==>
            PublishedByAnother(r, t, id))
  {
    TracedRunIsExec(buffer, threads, schedule);
    FullBranch(TracedRun(buffer, threads, schedule), t, a, id);
  }

  lemma EmptyBranch<T>(g: Traced<T>, t: nat, a: Action<T>, id: nat)
    requires Inv(g) && t < |g.ring.threads| && a.Step? && a.t == t && g.ring.threads[t].ConsumeClaimed?
    ensures var (r, empty) := (g.ring, Next(Unbounded, g.ring, a).threads[t].ConsumeEmpty?);
      && (empty <==> r.threads[t].slot >= r.tail)
      && (empty && r.head <= id < r.tail ==> ConsumedByAnother(r, t, id))
  {
    assert ThreadOk(g, t);
    if g.ring.head <= id < g.ring.dequeuerHead && id != g.ring.threads[t].slot {
      assert ConsumesUnder(g.ring, g.consumer[id], id);
    }
  }

  /**
   A consumer takes the "empty" branch exactly when its id is not published yet, and then every
   published item is in the hands of another consumer.
   */
  lemma EmptyMeansClaimed<T>(buffer: seq<T>, threads: nat, schedule: seq<Action<T>>, t: nat, a: Action<T>, id: nat)
    requires |buffer| > 0 && t < threads && a.Step? && a.t == t
    requires Exec(Unbounded, Fresh(buffer, threads), schedule).threads[t].ConsumeClaimed?
    ensures var r := Exec(Unbounded, Fresh(buffer, threads), schedule);
      && (Next(Unbounded, r, a).threads[t].ConsumeEmpty? <==> r.threads[t].slot >= r.tail)
      && (Next(Unbounded, r, a).threads[t].ConsumeEmpty? && r.head <= id < r.tail ==>
            ConsumedByAnother(r, t, id))
  {
    TracedRunIsExec(buffer, threads, schedule);
    EmptyBranch(TracedRun(buffer, threads, schedule), t, a, id);
  }

  ghost predicate Quiet<T>(g: Traced<T>) {
    Inv(g) && forall t | 0 <= t < |g.ring.threads| :: g.ring.threads[t].Idle?
  }

  /** With nobody inside, no id is outstanding: refused and cancelled calls left no trace. */
  lemma QuietHasNoClaims<T>(g: Traced<T>)
    requires Quiet(g)
    ensures g.ring.enqueuerTail == g.ring.tail && g.ring.dequeuerHead == g.ring.head
  {
    assert g.ring.tail < g.ring.enqueuerTail ==> g.ring.tail in g.publisher;
    assert g.ring.head < g.ring.dequeuerHead ==> g.ring.head in g.consumer;
  }
}
