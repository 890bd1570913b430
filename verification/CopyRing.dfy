/**
 The `u32` ring in any run, carrying ids of which it may hold several copies: how many there are,
 and how one step changes that. Unlike the rings of `SlotRing` it may refuse a copy.
 */
module CopyRing {
  import opened Counting
  import opened RingMachine
  import opened RingInvariant
  import opened RingTheorems
  import opened RingFifo
  import opened TokenRing
  import opened SlotRing

  ghost predicate Pictures(r: Ring<nat>, g: Traced<nat>) {
    r == WrapRing(g.ring) && Inv(g) && Sized(g.ring)
  }

  /** A state that some run of the ring reaches. */
  ghost predicate Real(r: Ring<nat>) {
    exists g :: Pictures(r, g)
  }

  /** One for a thread that is publishing a copy of `id`. */
  function InHand(id: nat): Pc<nat> -> int {
    (pc: Pc<nat>) => if pc.Publishing() && pc.item == id then 1 else 0
  }

  /** The copies of `id` in the ring: queued, or in the hands of a thread that is publishing one. */
  function CopiesIn(r: Ring<nat>, id: nat): int {
    (if |r.buffer| > 0 then multiset(Contents(r))[id] else 0) + Sum(InHand(id), r.threads)
  }

  function CopiesOf(id: nat): Ring<nat> -> int {
    (r: Ring<nat>) => CopiesIn(r, id)
  }

  lemma NotNegative(r: Ring<nat>, id: nat)
    ensures CopiesIn(r, id) >= 0 && Sum(InHand(id), r.threads) >= 0
    ensures |r.buffer| > 0 && id in Contents(r) ==> CopiesIn(r, id) > 0
    ensures forall t | 0 <= t < |r.threads| && r.threads[t].Publishing() && r.threads[t].item == id ::
              CopiesIn(r, id) > 0
  {
    SumAtLeast(InHand(id), r.threads);
    forall t | 0 <= t < |r.threads| && r.threads[t].Publishing() && r.threads[t].item == id
      ensures InHand(id)(r.threads[t]) == 1
    {
    }
  }

  /** There is a copy exactly when the ring holds the id. */
  lemma HoldsMeansCopies(r: Ring<nat>, id: nat)
    requires |r.buffer| > 0
    ensures CopiesIn(r, id) > 0 <==> id in Holds(r)
  {
    NotNegative(r, id);
    if id !in Holds(r) {
      forall t | 0 <= t < |r.threads|
        ensures InHand(id)(r.threads[t]) == 0
      {
        if r.threads[t].Publishing() { assert r.threads[t].item in InHands(r.threads); }
      }
      SumOfNone(InHand(id), r.threads);
    }
  }

  lemma RealStep(r: Ring<nat>, a: Action<nat>)
    requires Real(r)
    ensures 0 < |r.buffer| < 0x8000_0000
    ensures var (r', o) := (Next(Wrapping, r, a), Observe(Wrapping, r, a));
      && |r'.buffer| == |r.buffer| && |r'.threads| == |r.threads| && Real(r')
      && QueueStep(Contents(r), o, Contents(r'), |r.buffer|)
  {
    var g :| Pictures(r, g);
    TraceKeepsInv(g, a);
    NextKeepsShape(Unbounded, g.ring, a);
    NextWraps(g, a);
    assert Pictures(Next(Wrapping, r, a), Trace(g, a));
    ShowsQueueStep(g, a);
  }

  lemma RealContents(r: Ring<nat>)
    requires Real(r)
    ensures 0 < |r.buffer| < 0x8000_0000 && |Contents(r)| <= |r.buffer|
  {
    var g :| Pictures(r, g);
    ContentsLength(g);
  }

  /** A step changes the acting thread only. */
  lemma OneThreadMoves(r: Ring<nat>, a: Action<nat>)
    requires |r.buffer| > 0 && !a.Unleak?
    ensures var (threads, threads') := (r.threads, Next(Wrapping, r, a).threads);
      && |threads'| == |threads|
      && (a.t < |threads| ==> threads' == threads[a.t := threads'[a.t]])
      && (a.t >= |threads| ==> threads' == threads && Observe(Wrapping, r, a) == Silent)
  {
  }

  lemma QueueCounts(queue: seq<nat>, o: Outcome<nat>, queue': seq<nat>, size: nat, id: nat)
    requires QueueStep(queue, o, queue', size)
    ensures multiset(queue')[id] == multiset(queue)[id]
              + (if o.Published? && o.item == id then 1 else 0) - (if o.Consumed? && o.item == id then 1 else 0)
  {
    if o.Consumed? { assert multiset(queue) == multiset{o.item} + multiset(queue'); }
  }

  lemma HandCounts(pc: Pc<nat>, pc': Pc<nat>, offers: bool, o: Outcome<nat>, id: nat)
    requires HandMove(offers, o, pc, pc') && !o.Unleaked?
    ensures InHand(id)(pc') == InHand(id)(pc) + (if offers && pc'.item == id then 1 else 0)
              - (if (o.Published? || o.Refused?) && o.item == id then 1 else 0)
  {
  }

  /** How a step changes the number of copies of `id`: it is offered, handed out, or refused. */
  function CopyChange(offers: bool, item: nat, o: Outcome<nat>, id: nat): int {
    if offers then (if item == id then 1 else 0)
    else if o.Consumed? || o.Refused? then (if o.item == id then -1 else 0)
    else 0
  }

  function Item(a: Action<nat>): nat {
    if a.CallPublish? then a.item else 0
  }

  lemma CopiesStep(r: Ring<nat>, a: Action<nat>, id: nat)
    requires Real(r) && !a.Unleak? && a.t < |r.threads|
    ensures CopiesIn(Next(Wrapping, r, a), id) ==
              CopiesIn(r, id) + CopyChange(Offering(r, a), Item(a), Observe(Wrapping, r, a), id)
  {
    var (r', o) := (Next(Wrapping, r, a), Observe(Wrapping, r, a));
    RealStep(r, a);
    StepHandMove(Wrapping, r, a);
    OneThreadMoves(r, a);
    QueueCounts(Contents(r), o, Contents(r'), |r.buffer|, id);
    HandCounts(r.threads[a.t], r'.threads[a.t], Offering(r, a), o, id);
    SumChanges(InHand(id), r.threads, a.t, r'.threads[a.t]);
  }

  lemma FreshIsReal(buffer: seq<nat>, threads: nat)
    requires Supported(buffer, threads)
    ensures Real(Fresh(buffer, threads)) && |buffer| > 0 && Contents(Fresh(buffer, threads)) == []
    ensures forall id :: CopiesIn(Fresh(buffer, threads), id) == 0
  {
    FreshIsGood(buffer, threads);
    GoodIsReal(Fresh(buffer, threads), |buffer|);
    forall id
      ensures CopiesIn(Fresh(buffer, threads), id) == 0
    {
      SumOfNone(InHand(id), Fresh(buffer, threads).threads);
    }
  }

  lemma GoodIsReal(r: Ring<nat>, ids: nat)
    requires Good(r, ids)
    ensures Real(r)
  {
    var g :| Shows(r, g, ids);
    assert Pictures(r, g);
  }
}
