/**
 The `u32` ring as its users see it when it carries slot ids: which ids it holds, in which
 order, and that it never refuses one. What follows about allocators, zero-copy queues and
 dispatchers uses only the contracts of this module.
 */
module SlotRing {
  import opened Counting
  import opened RingMachine
  import opened RingInvariant
  import opened RingTheorems
  import opened RingFifo
  import opened TokenRing
  import U32

  /** The ids inside a `u32` ring: queued, or in the hands of a thread that is publishing them. */
  function Holds(r: Ring<nat>): set<nat>
    requires |r.buffer| > 0
  {
    Elements(Contents(r)) + InHands(r.threads)
  }

  ghost predicate Shows(r: Ring<nat>, g: Traced<nat>, ids: nat) {
    r == WrapRing(g.ring) && Tokens(g, ids) && Sized(g.ring) && |g.ring.buffer| == ids
  }

  /** A `u32` ring that was only ever offered ids below its size, each by its holder. */
  ghost predicate Good(r: Ring<nat>, ids: nat) {
    exists g :: Shows(r, g, ids)
  }

  /** The action brings its id into the ring. */
  predicate Offering(r: Ring<nat>, a: Action<nat>) {
    a.CallPublish? && a.t < |r.threads| && r.threads[a.t].Idle?
  }

  lemma WrapKeepsHands(g: Traced<nat>)
    ensures InHands(WrapRing(g.ring).threads) == InHands(g.ring.threads)
  {
    var (threads, wrapped) := (g.ring.threads, WrapRing(g.ring).threads);
    forall x | x in InHands(threads)
      ensures x in InHands(wrapped)
    {
      var t :| 0 <= t < |threads| && threads[t].Publishing() && threads[t].item == x;
      assert wrapped[t].Publishing() && wrapped[t].item == x;
    }
    forall x | x in InHands(wrapped)
      ensures x in InHands(threads)
    {
      var t :| 0 <= t < |wrapped| && wrapped[t].Publishing() && wrapped[t].item == x;
      assert threads[t].Publishing() && threads[t].item == x;
    }
  }

  lemma QueuedAreContents(g: Traced<nat>)
    requires Inv(g) && Sized(g.ring)
    ensures Elements(Contents(WrapRing(g.ring))) == Queued(g)
  {
    ContentsAreLog(g);
    var slice := g.log[g.ring.head..g.ring.tail];
    forall x | x in Queued(g)
      ensures x in slice
    {
      var k :| g.ring.head <= k < g.ring.tail && g.log[k] == x;
      assert slice[k - g.ring.head] == x;
    }
  }

  lemma HoldsAreHeld(r: Ring<nat>, g: Traced<nat>, ids: nat)
    requires Shows(r, g, ids)
    ensures |r.buffer| == ids > 0 && Holds(r) == Held(g) && Holds(r) <= Below(ids)
    ensures Elements(Contents(r)) == Queued(g) && InHands(r.threads) == InHands(g.ring.threads)
  {
    WrapKeepsHands(g);
    QueuedAreContents(g);
  }

  /** Queued ids and ids in hand are below the size, distinct and disjoint. */
  lemma GoodHolds(r: Ring<nat>, ids: nat)
    requires Good(r, ids)
    ensures |r.buffer| == ids > 0 && Holds(r) <= Below(ids)
    ensures Distinct(Contents(r)) && Elements(Contents(r)) !! InHands(r.threads)
  {
    var g :| Shows(r, g, ids);
    HoldsAreHeld(r, g, ids);
    ContentsAreLog(g);
  }

  /**
   One step of a ring that carries slot ids. Offering an id it does not hold keeps it good; it
   never refuses; ids enter it only by being offered and leave it only by being handed out; and
   its contents move as a FIFO queue.
   */
  lemma GoodStep(r: Ring<nat>, a: Action<nat>, ids: nat)
    requires Good(r, ids) && !a.Unleak?
    requires Offering(r, a) ==> |r.buffer| > 0 && a.item < ids && a.item !in Holds(r)
    ensures |r.buffer| == ids > 0
    ensures var (r', o) := (Next(Wrapping, r, a), Observe(Wrapping, r, a));
      && |r'.buffer| == ids && |r'.threads| == |r.threads|
      && Good(r', ids)
      && !o.Refused? && !o.Unleaked? && (Offering(r, a) ==> o == Silent)
      && (o.Published? || o.Consumed? ==> o.item in Holds(r))
      && Holds(r') == (if Offering(r, a) then Holds(r) + {a.item}
                       else if o.Consumed? then Holds(r) - {o.item} else Holds(r))
      && QueueStep(Contents(r), o, Contents(r'), ids)
  {
    var g :| Shows(r, g, ids);
    var g' := Trace(g, a);
    HoldsAreHeld(r, g, ids);
    assert Offering(r, a) == Offers(g, a);
    NeverRefused(g, a, ids);
    NextWraps(g, a);
    assert Shows(Next(Wrapping, r, a), g', ids);
    HoldsAreHeld(Next(Wrapping, r, a), g', ids);
    ShowsQueueStep(g, a);
  }

  lemma ShowsQueueStep(g: Traced<nat>, a: Action<nat>)
    requires Inv(g) && Sized(g.ring)
    ensures var r' := Next(Wrapping, WrapRing(g.ring), a);
      && |r'.buffer| > 0
      && QueueStep(Contents(WrapRing(g.ring)), Observe(Wrapping, WrapRing(g.ring), a), Contents(r'), |g.ring.buffer|)
  {
    TraceKeepsInv(g, a);
    NextKeepsShape(Unbounded, g.ring, a);
    NextWraps(g, a);
    TracedQueueStep(g, a);
    ContentsAreLog(g);
    ContentsAreLog(Trace(g, a));
  }

  // ---------------------------------------------------------------------------------------
  // An empty ring, and the ring an allocator starts with

  lemma IdleHasNoHands(threads: nat)
    ensures InHands(seq(threads, _ => Idle)) == {}
  {
  }

  /** With every thread outside the ring, it holds what is queued. */
  lemma QuietTokens(g: Traced<nat>, ids: nat)
    requires Inv(g) && QueueUnique(g) && Queued(g) <= Below(ids)
    requires forall t | 0 <= t < |g.ring.threads| :: g.ring.threads[t].Idle?
    ensures Tokens(g, ids) && Held(g) == Queued(g)
  {
    assert InHands(g.ring.threads) == {};
  }

  lemma QuietWraps(r: Ring<nat>)
    requires r.head < 0x1_0000_0000 && r.dequeuerHead < 0x1_0000_0000
    requires r.tail < 0x1_0000_0000 && r.enqueuerTail < 0x1_0000_0000
    requires forall t | 0 <= t < |r.threads| :: r.threads[t].Idle?
    ensures WrapRing(r) == r
  {
    assert WrapRing(r).threads == r.threads;
  }

  lemma FreshTokens(buffer: seq<nat>, threads: nat)
    requires |buffer| > 0
    ensures var g := Traced(Fresh(buffer, threads), [], map[], map[]);
      Tokens(g, |buffer|) && Held(g) == Queued(g) == {}
  {
    var g := Traced(Fresh(buffer, threads), [], map[], map[]);
    assert Inv(g);
    assert Queued(g) == {};
    QuietTokens(g, |buffer|);
  }

  lemma FreshIsGood(buffer: seq<nat>, threads: nat)
    requires Supported(buffer, threads)
    ensures |buffer| > 0 && Good(Fresh(buffer, threads), |buffer|)
    ensures Holds(Fresh(buffer, threads)) == {} && Contents(Fresh(buffer, threads)) == []
  {
    var g := Traced(Fresh(buffer, threads), [], map[], map[]);
    FreshTokens(buffer, threads);
    QuietWraps(g.ring);
    assert Shows(g.ring, g, |buffer|);
    HoldsAreHeld(g.ring, g, |buffer|);
  }

  /** `0, 1, .., n-1` */
  function Iota(n: nat): (s: seq<nat>)
    ensures |s| == n && forall i | 0 <= i < n :: s[i] == i
  {
    seq(n, i => i)
  }

  /** The free list that `OgreArrayPoolAllocator::new` leaves behind: every id published, in order. */
  function FullRing(size: nat, threads: nat): Ring<nat> {
    Ring(0, 0, size, size, Iota(size), seq(threads, _ => Idle))
  }

  function FullTrace(size: nat, threads: nat): Traced<nat> {
    Traced(FullRing(size, threads), Iota(size), map[], map[])
  }

  lemma FullTraceInv(size: nat, threads: nat)
    requires size > 0
    ensures Inv(FullTrace(size, threads))
  {
    var g := FullTrace(size, threads);
    assert Ordered(g);
    assert forall t | 0 <= t < threads :: g.ring.threads[t].Idle?;
    forall id | 0 <= id < size
      ensures g.ring.buffer[id % size] == g.log[id]
    {
      U32.RemainderIs(id, size, 0, id);
    }
  }

  lemma FullTraceQueue(size: nat, threads: nat)
    ensures Queued(FullTrace(size, threads)) == Below(size) && QueueUnique(FullTrace(size, threads))
  {
    var g := FullTrace(size, threads);
    forall x | 0 <= x < size
      ensures x in Queued(g)
    {
      assert g.log[x] == x;
    }
  }

  lemma FullTraceTokens(size: nat, threads: nat)
    requires size > 0
    ensures Tokens(FullTrace(size, threads), size) && Held(FullTrace(size, threads)) == Below(size)
  {
    FullTraceInv(size, threads);
    FullTraceQueue(size, threads);
    QuietTokens(FullTrace(size, threads), size);
  }

  lemma FullRingShows(size: nat, threads: nat)
    requires U32.PowerOfTwo(size) && size < 0x8000_0000 && threads <= 0x8000_0001
    ensures size > 0 && Shows(FullRing(size, threads), FullTrace(size, threads), size)
  {
    FullTraceTokens(size, threads);
    QuietWraps(FullRing(size, threads));
  }

  lemma FullRingIsGood(size: nat, threads: nat)
    requires U32.PowerOfTwo(size) && size < 0x8000_0000 && threads <= 0x8000_0001
    ensures size > 0 && Good(FullRing(size, threads), size) && Holds(FullRing(size, threads)) == Below(size)
    ensures InHands(FullRing(size, threads).threads) == {}
  {
    FullRingShows(size, threads);
    FullTraceTokens(size, threads);
    IdleHasNoHands(threads);
    HoldsAreHeld(FullRing(size, threads), FullTrace(size, threads), size);
  }
}
