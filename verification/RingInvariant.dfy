/**
 The inductive invariant of the ring over unbounded counters: who owns which id, which
 buffer slots belong to whom, and what the published part of the buffer holds.
 */
module RingInvariant {
  import opened RingMachine
  import U32

  /**
   The ring together with what happened to it: `log[i]` is the item published under id `i`,
   and the maps name the last thread that claimed each id.
   */
  datatype Traced<T> = Traced(ring: Ring<T>, log: seq<T>, publisher: map<nat, nat>, consumer: map<nat, nat>)

  function Trace<T>(g: Traced<T>, a: Action<T>): Traced<T>
    requires |g.ring.buffer| > 0
  {
    var r := g.ring;
    var claims := a.Step? && a.t < |r.threads|;
    Traced(Next(Unbounded, r, a),
           if Observe(Unbounded, r, a).Published? then g.log + [Observe(Unbounded, r, a).item] else g.log,
           if claims && r.threads[a.t].PublishCall? then g.publisher[r.enqueuerTail := a.t] else g.publisher,
           if claims && r.threads[a.t].ConsumeCall? then g.consumer[r.dequeuerHead := a.t] else g.consumer)
  }

  ghost predicate Ordered<T>(g: Traced<T>) {
    var r := g.ring;
    && |r.buffer| > 0
    && |g.log| == r.tail
    && r.head <= r.tail <= r.head + |r.buffer|
    && r.tail <= r.enqueuerTail
    && r.head <= r.dequeuerHead
  }

  /** A thread inside the ring holds exactly the id it claimed, within the window of its kind. */
  ghost predicate ThreadOk<T>(g: Traced<T>, t: nat)
    requires Ordered(g) && t < |g.ring.threads|
  {
    var r := g.ring;
    var pc := r.threads[t];
    && (pc.ClaimsPublish() ==>
          r.tail <= pc.slot < r.enqueuerTail && pc.slot in g.publisher && g.publisher[pc.slot] == t)
    && (pc.MayWrite() ==> pc.slot - r.head <= pc.lenBefore < |r.buffer|)
    && (pc.PublishWritten? ==> r.buffer[pc.slot % |r.buffer|] == pc.item)
    && (pc.ClaimsConsume() ==>
          r.head <= pc.slot < r.dequeuerHead && pc.slot in g.consumer && g.consumer[pc.slot] == t)
    && (pc.MayRead() ==> pc.slot < r.tail)
    && (pc.ConsumeRead? ==> pc.item == g.log[pc.slot])
  }

  ghost predicate ThreadsOk<T>(g: Traced<T>)
    requires Ordered(g)
  {
    forall t | 0 <= t < |g.ring.threads| :: ThreadOk(g, t)
  }

  /** Every id of the publishing window is held by the thread that claimed it. */
  ghost predicate PublishWindowOwned<T>(g: Traced<T>) {
    forall id | g.ring.tail <= id < g.ring.enqueuerTail ::
      id in g.publisher && g.publisher[id] < |g.ring.threads|
      && g.ring.threads[g.publisher[id]].ClaimsPublish() && g.ring.threads[g.publisher[id]].slot == id
  }

  ghost predicate ConsumeWindowOwned<T>(g: Traced<T>) {
    forall id | g.ring.head <= id < g.ring.dequeuerHead ::
      id in g.consumer && g.consumer[id] < |g.ring.threads|
      && g.ring.threads[g.consumer[id]].ClaimsConsume() && g.ring.threads[g.consumer[id]].slot == id
  }

  /** The published part of the buffer is the published part of the log. */
  ghost predicate BufferHoldsLog<T>(g: Traced<T>)
    requires Ordered(g)
  {
    forall id | g.ring.head <= id < g.ring.tail :: g.ring.buffer[id % |g.ring.buffer|] == g.log[id]
  }

  ghost predicate Inv<T>(g: Traced<T>) {
    && Ordered(g)
    && ThreadsOk(g)
    && PublishWindowOwned(g)
    && ConsumeWindowOwned(g)
    && BufferHoldsLog(g)
  }

  /** Distinct ids of one window of `size` ids have distinct indexes. */
  lemma IndexesDiffer(a: nat, b: nat, lo: nat, size: nat)
    requires lo <= a < lo + size && lo <= b < lo + size && a != b
    ensures a % size != b % size
  {
    if a < b { U32.IndexInjective(a, b, size); } else { U32.IndexInjective(b, a, size); }
  }

  /** The write of a granted producer touches no slot another thread relies on. */
  lemma WriteIsPrivate<T>(g: Traced<T>, t: nat, id: nat)
    requires Inv(g) && t < |g.ring.threads| && g.ring.threads[t].MayWrite()
    requires g.ring.head <= id < g.ring.head + |g.ring.buffer| && id != g.ring.threads[t].slot
    ensures id % |g.ring.buffer| != g.ring.threads[t].slot % |g.ring.buffer|
  {
    assert ThreadOk(g, t);
    IndexesDiffer(id, g.ring.threads[t].slot, g.ring.head, |g.ring.buffer|);
  }

  // ---------------------------------------------------------------------------------------
  // Each step does one of four things to the publishing window, and one of four to the
  // consuming window. The preservation proofs argue about these moves only.

  ghost predicate ClaimUnchanged(before: bool, slot: nat, after: bool, slot': nat) {
    before == after && (before ==> slot == slot')
  }

  function PublishSlot<T>(pc: Pc<T>): nat {
    if pc.ClaimsPublish() then pc.slot else 0
  }

  function ConsumeSlot<T>(pc: Pc<T>): nat {
    if pc.ClaimsConsume() then pc.slot else 0
  }

  /** Thread `t` leaves the window alone, claims its next id, publishes its first, or retracts its last. */
  ghost predicate PublishMove<T>(g: Traced<T>, t: nat, g': Traced<T>)
    requires t < |g.ring.threads| == |g'.ring.threads|
  {
    var (r, r') := (g.ring, g'.ring);
    var (pc, pc') := (r.threads[t], r'.threads[t]);
    || (&& ClaimUnchanged(pc.ClaimsPublish(), PublishSlot(pc), pc'.ClaimsPublish(), PublishSlot(pc'))
        && r'.tail == r.tail && r'.enqueuerTail == r.enqueuerTail && g'.publisher == g.publisher && g'.log == g.log)
    || (&& !pc.ClaimsPublish() && pc'.ClaimsPublish() && pc'.slot == r.enqueuerTail
        && r'.tail == r.tail && r'.enqueuerTail == r.enqueuerTail + 1
        && g'.publisher == g.publisher[r.enqueuerTail := t] && g'.log == g.log)
    || (&& pc.PublishWritten? && !pc'.ClaimsPublish() && pc.slot == r.tail
        && r'.tail == r.tail + 1 && r'.enqueuerTail == r.enqueuerTail
        && g'.publisher == g.publisher && g'.log == g.log + [pc.item])
    || (&& pc.ClaimsPublish() && !pc'.ClaimsPublish() && pc.slot + 1 == r.enqueuerTail
        && r'.tail == r.tail && r'.enqueuerTail == pc.slot && g'.publisher == g.publisher && g'.log == g.log)
  }

  ghost predicate ConsumeMove<T>(g: Traced<T>, t: nat, g': Traced<T>)
    requires t < |g.ring.threads| == |g'.ring.threads|
  {
    var (r, r') := (g.ring, g'.ring);
    var (pc, pc') := (r.threads[t], r'.threads[t]);
    || (&& ClaimUnchanged(pc.ClaimsConsume(), ConsumeSlot(pc), pc'.ClaimsConsume(), ConsumeSlot(pc'))
        && r'.head == r.head && r'.dequeuerHead == r.dequeuerHead && g'.consumer == g.consumer)
    || (&& !pc.ClaimsConsume() && pc'.ClaimsConsume() && pc'.slot == r.dequeuerHead
        && r'.head == r.head && r'.dequeuerHead == r.dequeuerHead + 1
        && g'.consumer == g.consumer[r.dequeuerHead := t])
    || (&& pc.ConsumeRead? && !pc'.ClaimsConsume() && pc.slot == r.head
        && r'.head == r.head + 1 && r'.dequeuerHead == r.dequeuerHead && g'.consumer == g.consumer)
    || (&& pc.ClaimsConsume() && !pc'.ClaimsConsume() && pc.slot + 1 == r.dequeuerHead
        && r'.head == r.head && r'.dequeuerHead == pc.slot && g'.consumer == g.consumer)
  }

  /** The buffer changes only when a granted producer writes its own slot. */
  ghost predicate BufferMove<T>(g: Traced<T>, t: nat, g': Traced<T>)
    requires t < |g.ring.threads| && |g.ring.buffer| > 0
  {
    var pc := g.ring.threads[t];
    || g'.ring.buffer == g.ring.buffer
    || (&& pc.PublishGranted?
        && g'.ring.buffer == g.ring.buffer[pc.slot % |g.ring.buffer| := pc.item])
  }

  ghost predicate Moves<T>(g: Traced<T>, t: nat, g': Traced<T>)
    requires t < |g.ring.threads| && |g.ring.buffer| > 0
  {
    && |g'.ring.threads| == |g.ring.threads|
    && g'.ring.threads == g.ring.threads[t := g'.ring.threads[t]]
    && PublishMove(g, t, g')
    && ConsumeMove(g, t, g')
    && BufferMove(g, t, g')
  }

  ghost predicate Producing<T>(g: Traced<T>, a: Action<T>) {
    a.t < |g.ring.threads| && a.Step? && g.ring.threads[a.t].Publishing()
  }

  lemma ProducerMoves<T>(g: Traced<T>, a: Action<T>)
    requires |g.ring.buffer| > 0 && Producing(g, a)
    ensures Moves(g, a.t, Trace(g, a))
  {
  }

  lemma ConsumerMoves<T>(g: Traced<T>, a: Action<T>)
    requires |g.ring.buffer| > 0 && a.t < |g.ring.threads| && a.Step? && !Producing(g, a)
    ensures Moves(g, a.t, Trace(g, a))
  {
  }

  lemma CallMoves<T>(g: Traced<T>, a: Action<T>)
    requires |g.ring.buffer| > 0 && a.t < |g.ring.threads| && !a.Step?
    ensures Moves(g, a.t, Trace(g, a))
  {
  }

  lemma StepMoves<T>(g: Traced<T>, a: Action<T>)
    requires |g.ring.buffer| > 0 && a.t < |g.ring.threads|
    ensures Moves(g, a.t, Trace(g, a))
  {
    if Producing(g, a) { ProducerMoves(g, a); }
    else if a.Step? { ConsumerMoves(g, a); }
    else { CallMoves(g, a); }
  }

  lemma MovesKeepOrder<T>(g: Traced<T>, t: nat, g': Traced<T>)
    requires Inv(g) && t < |g.ring.threads| && Moves(g, t, g')
    ensures Ordered(g')
  {
    assert ThreadOk(g, t);
  }

  lemma ProducerStaysOk<T>(g: Traced<T>, a: Action<T>)
    requires Inv(g) && Producing(g, a)
    requires Ordered(Trace(g, a))
    ensures ThreadOk(Trace(g, a), a.t)
  {
    assert ThreadOk(g, a.t);
  }

  lemma ConsumerStaysOk<T>(g: Traced<T>, a: Action<T>)
    requires Inv(g) && a.t < |g.ring.threads| && !Producing(g, a)
    requires Ordered(Trace(g, a))
    ensures ThreadOk(Trace(g, a), a.t)
  {
    assert ThreadOk(g, a.t);
  }

  /** Every other thread is undisturbed by it. */
  lemma OthersStayOk<T>(g: Traced<T>, t: nat, g': Traced<T>, other: nat)
    requires Inv(g) && t < |g.ring.threads| && Moves(g, t, g') && Ordered(g')
    requires other < |g.ring.threads| && other != t
    ensures ThreadOk(g', other)
  {
    var r := g.ring;
    assert ThreadOk(g, t) && ThreadOk(g, other);
    if r.threads[t].PublishGranted? && r.threads[other].PublishWritten? {
      WriteIsPrivate(g, t, r.threads[other].slot);
    }
  }

  lemma BufferStaysOk<T>(g: Traced<T>, t: nat, g': Traced<T>)
    requires Inv(g) && t < |g.ring.threads| && Moves(g, t, g') && Ordered(g')
    ensures BufferHoldsLog(g')
  {
    var r := g.ring;
    assert ThreadOk(g, t);
    if r.threads[t].PublishGranted? {
      forall id | r.head <= id < r.tail
        ensures id % |r.buffer| != r.threads[t].slot % |r.buffer|
      {
        WriteIsPrivate(g, t, id);
      }
    }
  }

  lemma WindowsStayOwned<T>(g: Traced<T>, t: nat, g': Traced<T>)
    requires Inv(g) && t < |g.ring.threads| && Moves(g, t, g')
    ensures PublishWindowOwned(g') && ConsumeWindowOwned(g')
  {
    assert ThreadOk(g, t);
  }

  /** Every step of every thread keeps the invariant. */
  lemma TraceKeepsInv<T>(g: Traced<T>, a: Action<T>)
    requires Inv(g)
    ensures Inv(Trace(g, a))
  {
    if a.t < |g.ring.threads| {
      var g' := Trace(g, a);
      StepMoves(g, a);
      MovesKeepOrder(g, a.t, g');
      forall t | 0 <= t < |g.ring.threads|
        ensures ThreadOk(g', t)
      {
        if t != a.t { OthersStayOk(g, a.t, g', t); }
        else if Producing(g, a) { ProducerStaysOk(g, a); }
        else { ConsumerStaysOk(g, a); }
      }
      BufferStaysOk(g, a.t, g');
      WindowsStayOwned(g, a.t, g');
    }
  }
}
