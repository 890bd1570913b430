/**
 A ring that carries slot ids as tokens. When every id is given to the ring by whoever holds
 it, the ring never holds an id twice, and a ring at least as large as the number of ids
 never refuses one, whatever the interleaving. The allocator's free list, the id queue of the
 zero-copy container and the dispatchers of the fan-out channel are such rings.
 */
module TokenRing {
  import opened Counting
  import opened RingMachine
  import opened RingInvariant
  import opened RingFifo

  /** The ids published and not yet consumed. */
  function Queued(g: Traced<nat>): set<nat> {
    set k | g.ring.head <= k < g.ring.tail && k < |g.log| :: g.log[k]
  }

  /** The ids in the hands of threads that are still publishing them. */
  function InHands(threads: seq<Pc<nat>>): set<nat> {
    set t | 0 <= t < |threads| && threads[t].Publishing() :: threads[t].item
  }

  function Held(g: Traced<nat>): set<nat> {
    Queued(g) + InHands(g.ring.threads)
  }

  ghost predicate HandsUnique(threads: seq<Pc<nat>>) {
    forall t, u | 0 <= t < u < |threads| && threads[t].Publishing() && threads[u].Publishing() ::
      threads[t].item != threads[u].item
  }

  ghost predicate QueueUnique(g: Traced<nat>) {
    forall j, k | g.ring.head <= j < k < g.ring.tail && k < |g.log| :: g.log[j] != g.log[k]
  }

  /** No id is in the ring twice. */
  ghost predicate Unique(g: Traced<nat>) {
    QueueUnique(g) && HandsUnique(g.ring.threads) && Queued(g) !! InHands(g.ring.threads)
  }

  ghost predicate NoneFull(threads: seq<Pc<nat>>) {
    forall t | 0 <= t < |threads| :: !threads[t].PublishFull?
  }

  /** A ring in good standing that carries ids below `ids` only. */
  ghost predicate Tokens(g: Traced<nat>, ids: nat) {
    Inv(g) && Unique(g) && Held(g) <= Below(ids) && NoneFull(g.ring.threads)
  }

  // ---------------------------------------------------------------------------------------
  // How one thread's change of state moves ids

  lemma HandTaken(threads: seq<Pc<nat>>, t: nat, pc: Pc<nat>)
    requires t < |threads| && HandsUnique(threads)
    requires !threads[t].Publishing() && pc.Publishing() && pc.item !in InHands(threads)
    ensures InHands(threads[t := pc]) == InHands(threads) + {pc.item} && HandsUnique(threads[t := pc])
  {
    var threads' := threads[t := pc];
    forall x | x in InHands(threads) + {pc.item}
      ensures x in InHands(threads')
    {
      if x == pc.item {
        assert threads'[t].item == x;
      } else {
        var u :| 0 <= u < |threads| && threads[u].Publishing() && threads[u].item == x;
        assert threads'[u] == threads[u];
      }
    }
  }

  lemma HandReleased(threads: seq<Pc<nat>>, t: nat, pc: Pc<nat>)
    requires t < |threads| && HandsUnique(threads)
    requires threads[t].Publishing() && !pc.Publishing()
    ensures InHands(threads[t := pc]) == InHands(threads) - {threads[t].item} && HandsUnique(threads[t := pc])
    ensures threads[t].item in InHands(threads)
  {
    var threads' := threads[t := pc];
    forall x | x in InHands(threads) && x != threads[t].item
      ensures x in InHands(threads')
    {
      var u :| 0 <= u < |threads| && threads[u].Publishing() && threads[u].item == x;
      assert threads'[u] == threads[u];
    }
  }

  lemma HandKept(threads: seq<Pc<nat>>, t: nat, pc: Pc<nat>)
    requires t < |threads| && HandsUnique(threads)
    requires threads[t].Publishing() == pc.Publishing()
    requires pc.Publishing() ==> pc.item == threads[t].item
    ensures InHands(threads[t := pc]) == InHands(threads) && HandsUnique(threads[t := pc])
  {
    var threads' := threads[t := pc];
    forall x | x in InHands(threads)
      ensures x in InHands(threads')
    {
      var u :| 0 <= u < |threads| && threads[u].Publishing() && threads[u].item == x;
      assert threads'[u].Publishing() && threads'[u].item == x;
    }
  }

  lemma QueueGrows(g: Traced<nat>, g': Traced<nat>, x: nat)
    requires Ordered(g) && Ordered(g') && QueueUnique(g) && x !in Queued(g)
    requires g'.log == g.log + [x] && g'.ring.head == g.ring.head && g'.ring.tail == g.ring.tail + 1
    ensures Queued(g') == Queued(g) + {x} && QueueUnique(g')
  {
    assert g'.log[g.ring.tail] == x;
    assert forall k | g.ring.head <= k < g.ring.tail :: g'.log[k] == g.log[k] && g.log[k] in Queued(g);
  }

  lemma QueueShrinks(g: Traced<nat>, g': Traced<nat>)
    requires Ordered(g) && Ordered(g') && QueueUnique(g) && g.ring.head < g.ring.tail
    requires g'.log == g.log && g'.ring.head == g.ring.head + 1 && g'.ring.tail == g.ring.tail
    ensures g.log[g.ring.head] in Queued(g)
    ensures Queued(g') == Queued(g) - {g.log[g.ring.head]} && QueueUnique(g')
  {
  }

  // ---------------------------------------------------------------------------------------
  // How one step moves ids

  /** The action brings an id into the ring. */
  ghost predicate Offers(g: Traced<nat>, a: Action<nat>) {
    a.CallPublish? && a.t < |g.ring.threads| && g.ring.threads[a.t].Idle?
  }

  /** The outcome hands an id back to a caller. */
  ghost predicate Yields(o: Outcome<nat>) {
    o.Consumed? || o.Refused? || o.Unleaked?
  }

  ghost function HeldAfter(g: Traced<nat>, a: Action<nat>): set<nat> {
    var o := Observe(Unbounded, g.ring, a);
    if Offers(g, a) then Held(g) + {a.item} else if Yields(o) then Held(g) - {o.item} else Held(g)
  }

  /** How a step that is observed as `o` changes what its thread has in hand. */
  ghost predicate HandMove(offers: bool, o: Outcome<nat>, pc: Pc<nat>, pc': Pc<nat>) {
    if offers then o == Silent && !pc.Publishing() && pc'.Publishing()
    else if o.Published? || o.Refused? || o.Unleaked? then pc.Publishing() && pc.item == o.item && !pc'.Publishing()
    else pc.Publishing() == pc'.Publishing() && (pc.Publishing() ==> pc'.item == pc.item)
  }

  /** How it changes the queue. */
  ghost predicate QueueMove(g: Traced<nat>, o: Outcome<nat>, g': Traced<nat>) {
    var (r, r') := (g.ring, g'.ring);
    match o
    case Published(item, _) => r'.head == r.head && r'.tail == r.tail + 1 && g'.log == g.log + [item]
    case Consumed(item) =>
      && r'.head == r.head + 1 && r'.tail == r.tail && g'.log == g.log
      && r.head < r.tail == |g.log| && item == g.log[r.head]
    case _ => r'.head == r.head && r'.tail == r.tail && g'.log == g.log
  }

  ghost predicate TokenMove(g: Traced<nat>, t: nat, offers: bool, o: Outcome<nat>, g': Traced<nat>) {
    && t < |g.ring.threads| == |g'.ring.threads|
    && g'.ring.threads == g.ring.threads[t := g'.ring.threads[t]]
    && HandMove(offers, o, g.ring.threads[t], g'.ring.threads[t])
    && QueueMove(g, o, g')
  }

  /** The thread goes from outside the ring into a publish. */
  ghost predicate Enters(r: Ring<nat>, a: Action<nat>) {
    a.CallPublish? && a.t < |r.threads| && r.threads[a.t].Idle?
  }

  lemma StepHandMove(k: Counters, r: Ring<nat>, a: Action<nat>)
    requires |r.buffer| > 0 && a.t < |r.threads|
    ensures var r' := Next(k, r, a);
      && |r'.threads| == |r.threads|
      && HandMove(Enters(r, a), Observe(k, r, a), r.threads[a.t], r'.threads[a.t])
      && (Enters(r, a) ==> r'.threads[a.t].item == a.item)
  {
  }

  lemma StepTokenMove(g: Traced<nat>, a: Action<nat>)
    requires Inv(g) && a.t < |g.ring.threads|
    ensures TokenMove(g, a.t, Offers(g, a), Observe(Unbounded, g.ring, a), Trace(g, a))
    ensures Offers(g, a) ==> Trace(g, a).ring.threads[a.t].item == a.item
  {
    StepMoves(g, a);
    StepHandMove(Unbounded, g.ring, a);
    ObservedSteps(g, a);
  }

  lemma QueuedUnchanged(g: Traced<nat>, g': Traced<nat>)
    requires g'.log == g.log && g'.ring.head == g.ring.head && g'.ring.tail == g.ring.tail
    ensures Queued(g') == Queued(g) && QueueUnique(g') == QueueUnique(g)
  {
  }

  lemma HeldFollows(g: Traced<nat>, t: nat, offers: bool, o: Outcome<nat>, g': Traced<nat>)
    requires Ordered(g) && Ordered(g') && Unique(g) && TokenMove(g, t, offers, o, g')
    requires offers ==> g'.ring.threads[t].item !in Held(g)
    ensures Unique(g')
    ensures Held(g') == if offers then Held(g) + {g'.ring.threads[t].item}
                        else if Yields(o) then Held(g) - {o.item} else Held(g)
    ensures o.Published? || Yields(o) ==> o.item in Held(g)
  {
    var (threads, pc') := (g.ring.threads, g'.ring.threads[t]);
    if offers {
      HandTaken(threads, t, pc');
      QueuedUnchanged(g, g');
    } else if o.Published? {
      HandReleased(threads, t, pc');
      QueueGrows(g, g', o.item);
    } else if o.Refused? || o.Unleaked? {
      HandReleased(threads, t, pc');
      QueuedUnchanged(g, g');
    } else {
      HandKept(threads, t, pc');
      if o.Consumed? { QueueShrinks(g, g'); } else { QueuedUnchanged(g, g'); }
    }
  }

  /** An id enters the ring when its publish is called and leaves it when a caller gets it; no other step moves ids. */
  lemma HeldStep(g: Traced<nat>, a: Action<nat>)
    requires Inv(g) && Unique(g)
    requires Offers(g, a) ==> a.item !in Held(g)
    ensures Unique(Trace(g, a)) && Held(Trace(g, a)) == HeldAfter(g, a)
    ensures var o := Observe(Unbounded, g.ring, a); o.Published? || Yields(o) ==> o.item in Held(g)
  {
    TraceKeepsInv(g, a);
    if a.t < |g.ring.threads| {
      StepTokenMove(g, a);
      HeldFollows(g, a.t, Offers(g, a), Observe(Unbounded, g.ring, a), Trace(g, a));
    }
  }

  // ---------------------------------------------------------------------------------------
  // A ring with room for every id never refuses one

  /** The id that occupies, or is about to occupy, position `k` of the window from head to enqueuer_tail. */
  function Occupant(g: Traced<nat>, k: nat): nat
    requires Inv(g) && g.ring.head <= k < g.ring.enqueuerTail
  {
    if k < g.ring.tail then g.log[k] else g.ring.threads[g.publisher[k]].item
  }

  lemma OccupantHeld(g: Traced<nat>, k: nat)
    requires Inv(g) && g.ring.head <= k < g.ring.enqueuerTail
    ensures Occupant(g, k) in Held(g)
    ensures k < g.ring.tail ==> Occupant(g, k) in Queued(g)
    ensures k >= g.ring.tail ==> Occupant(g, k) in InHands(g.ring.threads)
  {
    if k >= g.ring.tail {
      assert g.ring.threads[g.publisher[k]].ClaimsPublish();
    }
  }

  lemma OccupantsDiffer(g: Traced<nat>, j: nat, k: nat)
    requires Inv(g) && Unique(g) && g.ring.head <= j < k < g.ring.enqueuerTail
    ensures Occupant(g, j) != Occupant(g, k)
  {
    OccupantHeld(g, j);
    OccupantHeld(g, k);
    if j >= g.ring.tail {
      assert g.ring.threads[g.publisher[j]].slot == j && g.ring.threads[g.publisher[k]].slot == k;
    }
  }

  /** The whole reserved window, published or merely claimed, never exceeds the number of ids. */
  lemma WindowFitsIds(g: Traced<nat>, ids: nat)
    requires Inv(g) && Unique(g) && Held(g) <= Below(ids)
    ensures g.ring.enqueuerTail - g.ring.head <= ids
  {
    var n := g.ring.enqueuerTail - g.ring.head;
    var occupants := seq(n, i requires 0 <= i < n => Occupant(g, g.ring.head + i));
    forall i | 0 <= i < n
      ensures 0 <= occupants[i] < ids
    {
      assert occupants[i] == Occupant(g, g.ring.head + i);
      OccupantHeld(g, g.ring.head + i);
    }
    forall i, j | 0 <= i < j < n
      ensures occupants[i] != occupants[j]
    {
      OccupantsDiffer(g, g.ring.head + i, g.ring.head + j);
    }
    Pigeonhole(occupants, ids);
  }

  /**
   With room for every id and every id offered by its holder only, no publish is ever refused,
   in any interleaving, and the ring stays in good standing.
   */
  lemma NeverRefused(g: Traced<nat>, a: Action<nat>, ids: nat)
    requires Tokens(g, ids) && ids <= |g.ring.buffer|
    requires Offers(g, a) ==> a.item < ids && a.item !in Held(g)
    ensures Tokens(Trace(g, a), ids) && |Trace(g, a).ring.buffer| == |g.ring.buffer|
    ensures |Trace(g, a).ring.threads| == |g.ring.threads|
    ensures !Observe(Unbounded, g.ring, a).Refused?
    ensures Held(Trace(g, a)) == HeldAfter(g, a)
    ensures var o := Observe(Unbounded, g.ring, a); o.Published? || Yields(o) ==> o.item in Held(g)
  {
    TraceKeepsInv(g, a);
    HeldStep(g, a);
    WindowFitsIds(g, ids);
    NextKeepsShape(Unbounded, g.ring, a);
    GrantedNotFull(g, a);
  }

  lemma GrantedNotFull(g: Traced<nat>, a: Action<nat>)
    requires Inv(g) && NoneFull(g.ring.threads) && g.ring.enqueuerTail - g.ring.head <= |g.ring.buffer|
    ensures NoneFull(Trace(g, a).ring.threads)
    ensures !Observe(Unbounded, g.ring, a).Refused?
  {
    if a.t < |g.ring.threads| {
      assert ThreadOk(g, a.t);
    }
  }
}
