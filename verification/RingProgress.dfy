/**
 Progress: wherever a run of the ring stops, the threads that are inside can all be brought out
 again, without a retry and without a spurious failure, in at most eight steps for each.
 */
module RingProgress {
  import opened RingMachine
  import opened RingInvariant
  import opened RingTheorems
  import opened RingFifo

  /** The run continued from any state of the invariant. */
  function Follow<T>(g: Traced<T>, schedule: seq<Action<T>>): (g': Traced<T>)
    requires Inv(g)
    ensures Inv(g') && |g'.ring.buffer| == |g.ring.buffer| && |g'.ring.threads| == |g.ring.threads|
  {
    if schedule == [] then g else
    var before := Follow(g, schedule[..|schedule| - 1]);
    TraceKeepsInv(before, schedule[|schedule| - 1]);
    NextKeepsShape(Unbounded, before.ring, schedule[|schedule| - 1]);
    Trace(before, schedule[|schedule| - 1])
  }

  lemma {:induction false} FollowConcat<T>(g: Traced<T>, first: seq<Action<T>>, second: seq<Action<T>>)
    requires Inv(g)
    ensures Follow(g, first + second) == Follow(Follow(g, first), second)
  {
    if second == [] {
      assert first + second == first;
    } else {
      assert (first + second)[..|first + second| - 1] == first + second[..|second| - 1];
      FollowConcat(g, first, second[..|second| - 1]);
    }
  }

  /** Plain steps only: exchanges do not fail spuriously and nobody tries again. */
  predicate Plain<T>(schedule: seq<Action<T>>) {
    forall i | 0 <= i < |schedule| :: schedule[i].Step? && !schedule[i].spurious && !schedule[i].retry
  }

  function Solo<T>(t: nat, n: nat): seq<Action<T>> {
    seq(n, _ => Step(t, false, false))
  }

  /** `n` steps of thread `t` bring it out and leave the other threads where they are. */
  ghost predicate ComesOut<T>(g: Traced<T>, t: nat, n: nat) {
    && Inv(g) && t < |g.ring.threads|
    && Follow(g, Solo(t, n)).ring.threads == g.ring.threads[t := Idle]
  }

  /** One step of `t` and then `n` more. */
  lemma StepFirst<T>(g: Traced<T>, t: nat, n: nat)
    requires Inv(g) && t < |g.ring.threads|
    requires var g' := Trace(g, Step(t, false, false));
      && ComesOut(g', t, n) && |g'.ring.threads| == |g.ring.threads|
      && g'.ring.threads == g.ring.threads[t := g'.ring.threads[t]]
    ensures ComesOut(g, t, n + 1)
  {
    assert Solo<T>(t, n + 1) == [Step(t, false, false)] + Solo(t, n);
    FollowConcat(g, [Step(t, false, false)], Solo(t, n));
    assert Follow(g, [Step(t, false, false)]) == Trace(Follow(g, []), Step(t, false, false));
  }

  lemma LastStep<T>(g: Traced<T>, t: nat)
    requires Inv(g) && t < |g.ring.threads|
    requires Trace(g, Step(t, false, false)).ring.threads == g.ring.threads[t := Idle]
    ensures ComesOut(g, t, 1)
  {
    var g' := Trace(g, Step(t, false, false));
    TraceKeepsInv(g, Step(t, false, false));
    assert Solo<T>(t, 0) == [];
    assert g'.ring.threads[t := Idle] == g.ring.threads[t := Idle];
    assert ComesOut(g', t, 0);
    StepFirst(g, t, 0);
  }

  // ---------------------------------------------------------------------------------------
  // Producers

  /** The holder of the oldest id publishes, as long as the ring is not full. */
  lemma WrittenComesOut<T>(g: Traced<T>, t: nat)
    requires Inv(g) && t < |g.ring.threads| && g.ring.threads[t].PublishWritten?
    requires g.ring.threads[t].slot == g.ring.tail
    ensures ComesOut(g, t, 1)
  {
    LastStep(g, t);
  }

  lemma GrantedComesOut<T>(g: Traced<T>, t: nat)
    requires Inv(g) && t < |g.ring.threads| && g.ring.threads[t].PublishGranted?
    requires g.ring.threads[t].slot == g.ring.tail
    ensures ComesOut(g, t, 2)
  {
    TraceKeepsInv(g, Step(t, false, false));
    WrittenComesOut(Trace(g, Step(t, false, false)), t);
    StepFirst(g, t, 1);
  }

  lemma ClaimedComesOut<T>(g: Traced<T>, t: nat)
    requires Inv(g) && t < |g.ring.threads| && g.ring.threads[t].PublishClaimed?
    requires g.ring.threads[t].slot == g.ring.tail
    requires g.ring.tail - g.ring.head < |g.ring.buffer|
    ensures ComesOut(g, t, 3)
  {
    TraceKeepsInv(g, Step(t, false, false));
    GrantedComesOut(Trace(g, Step(t, false, false)), t);
    StepFirst(g, t, 2);
  }

  lemma OldestComesOut<T>(g: Traced<T>, t: nat) returns (n: nat)
    requires Inv(g) && t < |g.ring.threads| && g.ring.threads[t].ClaimsPublish()
    requires g.ring.threads[t].slot == g.ring.tail
    requires g.ring.tail - g.ring.head < |g.ring.buffer|
    ensures ComesOut(g, t, n) && n <= 4
  {
    match g.ring.threads[t]
    case PublishWritten(_, _, _) => WrittenComesOut(g, t); n := 1;
    case PublishGranted(_, _, _) => GrantedComesOut(g, t); n := 2;
    case PublishClaimed(_, _) => ClaimedComesOut(g, t); n := 3;
    case PublishFull(_, slot) =>
      if g.ring.enqueuerTail == slot + 1 {
        LastStep(g, t);
        n := 1;
      } else {
        TraceKeepsInv(g, Step(t, false, false));
        ClaimedComesOut(Trace(g, Step(t, false, false)), t);
        StepFirst(g, t, 3);
        n := 4;
      }
  }

  /** On a full ring the holder of the topmost id gives it back. */
  lemma TopmostComesOut<T>(g: Traced<T>, t: nat) returns (n: nat)
    requires Inv(g) && t < |g.ring.threads| && g.ring.threads[t].ClaimsPublish()
    requires g.ring.threads[t].slot + 1 == g.ring.enqueuerTail && g.ring.tail == g.ring.head + |g.ring.buffer|
    ensures ComesOut(g, t, n) && n <= 4
  {
    assert ThreadOk(g, t);
    if g.ring.threads[t].PublishFull? {
      LastStep(g, t);
      n := 1;
    } else {
      TraceKeepsInv(g, Step(t, false, false));
      LastStep(Trace(g, Step(t, false, false)), t);
      StepFirst(g, t, 1);
      n := 2;
    }
  }

  /** If some thread holds an id to publish under, one that does comes out. */
  lemma ProducerComesOut<T>(g: Traced<T>) returns (t: nat, n: nat)
    requires Inv(g) && g.ring.tail < g.ring.enqueuerTail
    ensures ComesOut(g, t, n) && n <= 4 && g.ring.threads[t].ClaimsPublish()
  {
    if g.ring.tail - g.ring.head < |g.ring.buffer| {
      t := g.publisher[g.ring.tail];
      n := OldestComesOut(g, t);
    } else {
      t := g.publisher[g.ring.enqueuerTail - 1];
      n := TopmostComesOut(g, t);
    }
  }

  // ---------------------------------------------------------------------------------------
  // Consumers

  lemma ReadComesOut<T>(g: Traced<T>, t: nat)
    requires Inv(g) && t < |g.ring.threads| && g.ring.threads[t].ConsumeRead? && g.ring.threads[t].slot == g.ring.head
    ensures ComesOut(g, t, 1)
  {
    LastStep(g, t);
  }

  lemma ReadingComesOut<T>(g: Traced<T>, t: nat)
    requires Inv(g) && t < |g.ring.threads| && g.ring.threads[t].ConsumeGranted?
    requires g.ring.threads[t].slot == g.ring.head
    ensures ComesOut(g, t, 2)
  {
    TraceKeepsInv(g, Step(t, false, false));
    ReadComesOut(Trace(g, Step(t, false, false)), t);
    StepFirst(g, t, 1);
  }

  lemma LookingComesOut<T>(g: Traced<T>, t: nat)
    requires Inv(g) && t < |g.ring.threads| && g.ring.threads[t].ConsumeClaimed?
    requires g.ring.threads[t].slot == g.ring.head
    requires g.ring.head < g.ring.tail
    ensures ComesOut(g, t, 3)
  {
    TraceKeepsInv(g, Step(t, false, false));
    ReadingComesOut(Trace(g, Step(t, false, false)), t);
    StepFirst(g, t, 2);
  }

  /** The holder of the oldest id consumes, if it is published. */
  lemma FirstComesOut<T>(g: Traced<T>, t: nat) returns (n: nat)
    requires Inv(g) && t < |g.ring.threads| && g.ring.threads[t].ClaimsConsume()
    requires g.ring.threads[t].slot == g.ring.head
    requires g.ring.head < g.ring.tail
    ensures ComesOut(g, t, n) && n <= 4
  {
    match g.ring.threads[t]
    case ConsumeRead(_, _) => ReadComesOut(g, t); n := 1;
    case ConsumeGranted(_) => ReadingComesOut(g, t); n := 2;
    case ConsumeClaimed(_) => LookingComesOut(g, t); n := 3;
    case ConsumeEmpty(slot) =>
      if g.ring.dequeuerHead == slot + 1 {
        LastStep(g, t);
        n := 1;
      } else {
        TraceKeepsInv(g, Step(t, false, false));
        LookingComesOut(Trace(g, Step(t, false, false)), t);
        StepFirst(g, t, 3);
        n := 4;
      }
  }

  /** On an empty ring the holder of the topmost id gives it back. */
  lemma LastComesOut<T>(g: Traced<T>, t: nat) returns (n: nat)
    requires Inv(g) && t < |g.ring.threads| && g.ring.threads[t].ClaimsConsume()
    requires g.ring.threads[t].slot + 1 == g.ring.dequeuerHead && g.ring.tail == g.ring.head
    ensures ComesOut(g, t, n) && n <= 4
  {
    assert ThreadOk(g, t);
    if g.ring.threads[t].ConsumeEmpty? {
      LastStep(g, t);
      n := 1;
    } else {
      TraceKeepsInv(g, Step(t, false, false));
      LastStep(Trace(g, Step(t, false, false)), t);
      StepFirst(g, t, 1);
      n := 2;
    }
  }

  lemma ConsumerComesOut<T>(g: Traced<T>) returns (t: nat, n: nat)
    requires Inv(g) && g.ring.head < g.ring.dequeuerHead
    ensures ComesOut(g, t, n) && n <= 4 && g.ring.threads[t].ClaimsConsume()
  {
    if g.ring.head < g.ring.tail {
      t := g.consumer[g.ring.head];
      n := FirstComesOut(g, t);
    } else {
      t := g.consumer[g.ring.dequeuerHead - 1];
      n := LastComesOut(g, t);
    }
  }

  // ---------------------------------------------------------------------------------------
  // All threads

  /** How far a thread is from being outside: one that is about to claim an id can cost two rounds. */
  function Weight<T>(pc: Pc<T>): nat {
    if pc.Idle? then 0 else if pc.PublishCall? || pc.ConsumeCall? then 2 else 1
  }

  function Total<T>(threads: seq<Pc<T>>): nat {
    if threads == [] then 0 else Total(threads[..|threads| - 1]) + Weight(threads[|threads| - 1])
  }

  lemma {:induction false} TotalChanges<T>(threads: seq<Pc<T>>, t: nat, pc: Pc<T>)
    requires t < |threads|
    ensures Total(threads[t := pc]) == Total(threads) - Weight(threads[t]) + Weight(pc)
  {
    var last := |threads| - 1;
    if t == last {
      assert threads[t := pc][..last] == threads[..last];
    } else {
      assert threads[t := pc][..last] == threads[..last][t := pc];
      TotalChanges(threads[..last], t, pc);
    }
  }

  lemma {:induction false} TotalBound<T>(threads: seq<Pc<T>>)
    ensures Total(threads) <= 2 * |threads|
  {
    if threads != [] { TotalBound(threads[..|threads| - 1]); }
  }

  predicate Outside<T>(r: Ring<T>) {
    forall t | 0 <= t < |r.threads| :: r.threads[t].Idle?
  }

  /** About to claim an id, a thread claims it. */
  lemma CallStep<T>(g: Traced<T>, t: nat)
    requires Inv(g) && t < |g.ring.threads| && (g.ring.threads[t].PublishCall? || g.ring.threads[t].ConsumeCall?)
    ensures var threads' := Trace(g, Step(t, false, false)).ring.threads;
      && |threads'| == |g.ring.threads| && threads' == g.ring.threads[t := threads'[t]]
      && Weight(threads'[t]) < Weight(g.ring.threads[t])
  {
  }

  lemma CallGoesOn<T>(g: Traced<T>, t: nat)
    requires Inv(g) && t < |g.ring.threads| && (g.ring.threads[t].PublishCall? || g.ring.threads[t].ConsumeCall?)
    ensures Total(Follow(g, Solo(t, 1)).ring.threads) < Total(g.ring.threads)
  {
    var g' := Trace(g, Step(t, false, false));
    assert Solo<T>(t, 1) == [Step(t, false, false)];
    assert Follow(g, [Step(t, false, false)]) == Trace(Follow(g, []), Step(t, false, false));
    CallStep(g, t);
    TotalChanges(g.ring.threads, t, g'.ring.threads[t]);
  }

  /** Somebody inside can always come nearer to the outside, within four steps of its own. */
  lemma SomebodyMoves<T>(g: Traced<T>, u: nat) returns (t: nat, n: nat)
    requires Inv(g) && u < |g.ring.threads| && !g.ring.threads[u].Idle?
    ensures n <= 4 && Total(Follow(g, Solo(t, n)).ring.threads) < Total(g.ring.threads)
  {
    assert ThreadOk(g, u);
    if g.ring.threads[u].ClaimsPublish() {
      t, n := ProducerComesOut(g);
      TotalChanges(g.ring.threads, t, Idle);
    } else if g.ring.threads[u].ClaimsConsume() {
      t, n := ConsumerComesOut(g);
      TotalChanges(g.ring.threads, t, Idle);
    } else {
      CallGoesOn(g, u);
      t, n := u, 1;
    }
  }

  lemma EverybodyComesOut<T>(g: Traced<T>) returns (more: seq<Action<T>>)
    requires Inv(g)
    ensures Plain(more) && |more| <= 4 * Total(g.ring.threads) && Outside(Follow(g, more).ring)
    decreases Total(g.ring.threads)
  {
    if u: nat :| u < |g.ring.threads| && !g.ring.threads[u].Idle? {
      var t, n := SomebodyMoves(g, u);
      var rest := EverybodyComesOut(Follow(g, Solo(t, n)));
      more := Solo(t, n) + rest;
      FollowConcat(g, Solo(t, n), rest);
    } else {
      more := [];
    }
  }

  // ---------------------------------------------------------------------------------------
  // On the `u32` ring

  lemma {:induction false} FollowWraps<T>(g: Traced<T>, schedule: seq<Action<T>>)
    requires Inv(g) && Sized(g.ring)
    ensures Exec(Wrapping, WrapRing(g.ring), schedule) == WrapRing(Follow(g, schedule).ring)
    ensures Sized(Follow(g, schedule).ring)
  {
    if schedule != [] {
      var front := schedule[..|schedule| - 1];
      FollowWraps(g, front);
      NextWraps(Follow(g, front), schedule[|schedule| - 1]);
    }
  }

  /**
   No deadlock: from every reachable state of the `u32` ring some plain steps, at most eight for
   each thread, lead to one with nobody inside. By `RingFifo.QuietHasNoClaims` no id is then
   outstanding.
   */
  lemma NoDeadlock<T>(buffer: seq<T>, threads: nat, schedule: seq<Action<T>>) returns (more: seq<Action<T>>)
    requires Supported(buffer, threads)
    ensures |buffer| > 0 && Plain(more) && |more| <= 8 * threads
    ensures var r := Exec(Wrapping, Reached(buffer, threads, schedule), more);
      Outside(r) && r.enqueuerTail == r.tail && r.dequeuerHead == r.head
  {
    var g := ReachedIsTraced(buffer, threads, schedule);
    more := EverybodyComesOut(g);
    TotalBound(g.ring.threads);
    FollowWraps(g, more);
    QuietHasNoClaims(Follow(g, more));
  }
}
