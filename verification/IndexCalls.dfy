/**
 The two calls that know a reservation by its buffer index, `try_publish_leaked_internal_index`
 and `try_unleak_slot_index_internal`, on the shared `u32` ring: each compare-exchange of their
 loops is one step, weak ones may fail spuriously, and between any two of them the other threads
 do anything. A thread inside such a call keeps the id it tries next in a local variable.
 */
module IndexCalls {
  import opened Wrappers
  import opened RingMachine
  import opened RingInvariant
  import opened RingTheorems
  import opened RingFifo
  import opened Laps
  import U32

  /** Which call by index a thread is inside, with its local `slot_id`. */
  datatype Loop = Outside | Cancelling(slotId: nat) | Sending(slotId: nat)

  datatype Indexed<T> = Indexed(ring: Ring<T>, loops: seq<Loop>)

  datatype Event<T> =
    | Base(a: Action<T>)                      // an action of `RingMachine`
    | CancelByIndex(t: nat)
    | SendByIndex(t: nat)
    | Exchange(t: nat, spurious: bool)        // the next compare-exchange of the call `t` is inside

  /** The thread holds a granted slot, whose index it knows. */
  predicate Holding<T>(x: Indexed<T>, t: nat) {
    t < |x.loops| == |x.ring.threads| && |x.ring.buffer| > 0 && x.ring.threads[t].MayWrite()
  }

  predicate Matches<T>(x: Indexed<T>, e: Event<T>) {
    && e.Exchange? && Holding(x, e.t) && !e.spurious
    && match x.loops[e.t]
       case Outside => false
       case Cancelling(slotId) => x.ring.enqueuerTail == U32.Wrap(slotId + 1)
       case Sending(slotId) => x.ring.tail == slotId
  }

  /** The id before the counter just reloaded, or the counter itself: where the lap is read off. */
  function Reloaded<T>(x: Indexed<T>, t: nat): nat
    requires t < |x.loops|
  {
    if x.loops[t].Cancelling? then U32.Wrap(x.ring.enqueuerTail - 1) else x.ring.tail
  }

  /** A failed exchange: try again on a later lap, or give up. */
  function Failed<T>(x: Indexed<T>, t: nat): Loop
    requires Holding(x, t) && !x.loops[t].Outside?
  {
    var size := |x.ring.buffer|;
    match Adjusted(x.ring.threads[t].slot % size, x.loops[t].slotId, Reloaded(x, t), size)
    case Some(slotId) => x.loops[t].(slotId := slotId)
    case None => Outside
  }

  function ExchangeNext<T>(x: Indexed<T>, e: Event<T>): Indexed<T>
    requires e.Exchange?
  {
    var (r, t) := (x.ring, e.t);
    if !Holding(x, t) || x.loops[t].Outside? then x
    else if !Matches(x, e) then x.(loops := x.loops[t := Failed(x, t)])
    else
      var slotId := x.loops[t].slotId;
      Indexed(if x.loops[t].Cancelling? then SetPc(r, t, Idle).(enqueuerTail := slotId)
              else SetPc(r, t, Idle).(tail := U32.Wrap(slotId + 1)),
              x.loops[t := Outside])
  }

  /** A thread inside a call by index does nothing else; an event that does not apply changes nothing. */
  function IndexedNext<T>(x: Indexed<T>, e: Event<T>): Indexed<T> {
    match e
    case Base(a) =>
      if a.t < |x.loops| && x.loops[a.t].Outside? && |x.ring.buffer| > 0 then
        x.(ring := Next(Wrapping, x.ring, a))
      else x
    case CancelByIndex(t) =>
      if Holding(x, t) && x.loops[t].Outside? then
        x.(loops := x.loops[t := Cancelling(x.ring.threads[t].slot % |x.ring.buffer|)])
      else x
    case SendByIndex(t) =>
      if Holding(x, t) && x.loops[t].Outside? && x.ring.threads[t].PublishWritten? then
        x.(loops := x.loops[t := Sending(x.ring.threads[t].slot % |x.ring.buffer|)])
      else x
    case Exchange(_, _) => ExchangeNext(x, e)
  }

  /** The ring after a whole run, from any starting point. */
  function IndexedRun<T>(x: Indexed<T>, events: seq<Event<T>>): Indexed<T> {
    if events == [] then x else IndexedNext(IndexedRun(x, events[..|events| - 1]), events[|events| - 1])
  }

  function New<T>(buffer: seq<T>, threads: nat): Indexed<T> {
    Indexed(Fresh(buffer, threads), seq(threads, _ => Outside))
  }

  /** What the event is when done by id: one action of `RingMachine`, or none. */
  function ById<T>(x: Indexed<T>, e: Event<T>): seq<Action<T>> {
    match e
    case Base(a) => if a.t < |x.loops| && x.loops[a.t].Outside? then [a] else []
    case Exchange(t, _) =>
      if !Matches(x, e) then [] else if x.loops[t].Cancelling? then [Unleak(t, false)] else [Step(t, false, false)]
    case _ => []
  }

  function RunById<T>(x: Indexed<T>, events: seq<Event<T>>): seq<Action<T>> {
    if events == [] then [] else
    var front := events[..|events| - 1];
    RunById(x, front) + ById(IndexedRun(x, front), events[|events| - 1])
  }

  /** At most a whole buffer of ids was reserved from the caller's own on. */
  predicate WithinBuffer<T>(x: Indexed<T>, t: nat)
    requires Holding(x, t)
  {
    U32.Wrap(x.ring.enqueuerTail - x.ring.threads[t].slot) <= |x.ring.buffer|
  }

  /**
   A cancel by index that succeeds although more than a whole buffer of ids was reserved from
   the caller's own on.
   */
  predicate Strays<T>(x: Indexed<T>, e: Event<T>) {
    Matches(x, e) && x.loops[e.t].Cancelling? && !WithinBuffer(x, e.t)
  }

  ghost predicate NoneStrays<T>(x: Indexed<T>, events: seq<Event<T>>) {
    forall n | 0 <= n < |events| :: !Strays(IndexedRun(x, events[..n]), events[n])
  }

  // ---------------------------------------------------------------------------------------

  /** The local id of a call by index is one of the caller's index. */
  ghost predicate LoopOk<T>(r: Ring<T>, t: nat, loop: Loop)
    requires |r.buffer| > 0 && t < |r.threads|
  {
    !loop.Outside? ==>
      && (if loop.Sending? then r.threads[t].PublishWritten? else r.threads[t].MayWrite())
      && loop.slotId < 0x1_0000_0000 && loop.slotId % |r.buffer| == r.threads[t].slot % |r.buffer|
  }

  /** `x` is what the unbounded ring `g` looks like, with the threads inside calls by index marked. */
  ghost predicate Shadows<T>(x: Indexed<T>, g: Traced<T>) {
    && Inv(g) && Sized(g.ring) && x.ring == WrapRing(g.ring) && |x.loops| == |g.ring.threads|
    && forall t | 0 <= t < |x.loops| :: LoopOk(x.ring, t, x.loops[t])
  }

  /** A granted id is less than a buffer ahead of `tail`, and no more than the threads fit above it. */
  lemma GrantedRange<T>(g: Traced<T>, t: nat)
    requires Inv(g) && Sized(g.ring) && t < |g.ring.threads| && g.ring.threads[t].MayWrite()
    ensures g.ring.tail <= g.ring.threads[t].slot < g.ring.tail + |g.ring.buffer|
    ensures 0 < g.ring.enqueuerTail - g.ring.threads[t].slot <= 0x8000_0001
  {
    WindowsFitThreads(g);
    assert ThreadOk(g, t);
  }

  /** The id behind a matching exchange has the caller's index. */
  lemma SameIndex(counter: nat, slotId: nat, own: nat, size: nat)
    requires U32.PowerOfTwo(size) && 0 < size <= 0x8000_0000
    requires slotId == U32.Wrap(counter) && slotId % size == U32.Wrap(own) % size
    ensures counter % size == own % size
  {
    U32.IndexSurvivesWrap(counter, size);
    U32.IndexSurvivesWrap(own, size);
  }

  /** The numbers behind a cancel by index whose exchange for `slotId` succeeds. */
  lemma CancelNumbers(top: nat, own: nat, size: nat, slotId: nat)
    requires U32.PowerOfTwo(size) && 0 < size < 0x8000_0000 && own <= top <= own + 0x8000_0000
    requires slotId < 0x1_0000_0000 && U32.Wrap(top + 1) == U32.Wrap(slotId + 1)
    requires slotId % size == U32.Wrap(own) % size
    ensures slotId == U32.Wrap(top) && top % size == own % size
    ensures U32.Wrap(U32.Wrap(top + 1) - U32.Wrap(own)) <= size <==> top == own
  {
    assert slotId == U32.Wrap(top) by {
      U32.NextWraps(top);
      ExchangeMatches(U32.Wrap(top + 1), 1, slotId);
    }
    SameIndex(top, slotId, own, size);
    assert U32.Wrap(U32.Wrap(top + 1) - U32.Wrap(own)) == top + 1 - own by { U32.Distance(top + 1, own); }
    if top != own && top < own + size { U32.IndexInjective(own, top, size); }
  }

  /**
   What a successful cancel by index retracts is the topmost id, which has the caller's index. It
   is the caller's own exactly when at most a buffer of ids was reserved from that one on.
   */
  lemma CancelRetracts<T>(x: Indexed<T>, g: Traced<T>, e: Event<T>)
    requires Shadows(x, g) && Matches(x, e) && x.loops[e.t].Cancelling?
    ensures var (top, own, size) := (g.ring.enqueuerTail - 1, g.ring.threads[e.t].slot, |g.ring.buffer|);
      && top >= own && x.loops[e.t].slotId == U32.Wrap(top) && top % size == own % size
      && (Strays(x, e) <==> top != own)
  {
    var (top, own, size) := (g.ring.enqueuerTail - 1, g.ring.threads[e.t].slot, |g.ring.buffer|);
    GrantedRange(g, e.t);
    assert LoopOk(x.ring, e.t, x.loops[e.t]);
    CancelNumbers(top, own, size, x.loops[e.t].slotId);
  }

  /** A publish by index succeeds with the caller's own id only. */
  lemma SendIsOwn<T>(x: Indexed<T>, g: Traced<T>, e: Event<T>)
    requires Shadows(x, g) && Matches(x, e) && x.loops[e.t].Sending?
    ensures g.ring.tail == g.ring.threads[e.t].slot
  {
    var (tail, own, size) := (g.ring.tail, g.ring.threads[e.t].slot, |g.ring.buffer|);
    GrantedRange(g, e.t);
    assert LoopOk(x.ring, e.t, x.loops[e.t]);
    SameIndex(tail, x.loops[e.t].slotId, own, size);
    IndexDeterminesId(own, tail, size);
  }

  /** An exchange that matches the caller's own id is the exchange by id. */
  lemma OwnExchange<T>(x: Indexed<T>, g: Traced<T>, e: Event<T>)
    requires Shadows(x, g) && Matches(x, e) && !Strays(x, e)
    ensures var a := if x.loops[e.t].Cancelling? then Unleak(e.t, false) else Step(e.t, false, false);
      IndexedNext(x, e) == Indexed(Next(Wrapping, x.ring, a), x.loops[e.t := Outside])
  {
    if x.loops[e.t].Cancelling? { CancelRetracts(x, g, e); } else { SendIsOwn(x, g, e); }
  }

  /** The exchange publishes the caller's own id, as the publish by id would. */
  ghost predicate SendsLikeById<T>(x: Indexed<T>, e: Event<T>)
    requires e.Exchange? && Holding(x, e.t)
  {
    && x.ring.tail == x.ring.threads[e.t].slot
    && IndexedNext(x, e).ring == Next(Wrapping, x.ring, Step(e.t, false, false))
  }

  lemma SendIsExact<T>(x: Indexed<T>, g: Traced<T>, e: Event<T>)
    requires Shadows(x, g) && Matches(x, e) && x.loops[e.t].Sending?
    ensures SendsLikeById(x, e)
  {
    SendIsOwn(x, g, e);
    OwnExchange(x, g, e);
  }

  /** Where a cancel by index strays, the cancel by id does nothing. */
  lemma StrayIsNotOwn<T>(x: Indexed<T>, g: Traced<T>, e: Event<T>)
    requires Shadows(x, g) && Strays(x, e)
    ensures Next(Wrapping, x.ring, Unleak(e.t, false)) == x.ring
    ensures IndexedNext(x, e).ring != x.ring
  {
    CancelRetracts(x, g, e);
    GrantedRange(g, e.t);
    var (counter, own) := (g.ring.enqueuerTail, g.ring.threads[e.t].slot);
    U32.Injective(counter, own + 1);
    U32.NextWraps(own);
    assert IndexedNext(x, e).ring.threads[e.t].Idle?;
  }

  lemma CancelEffect<T>(x: Indexed<T>, g: Traced<T>, e: Event<T>)
    requires Shadows(x, g) && Matches(x, e) && x.loops[e.t].Cancelling?
    ensures IndexedNext(x, e).ring.enqueuerTail == U32.Wrap(x.ring.enqueuerTail - 1)
  {
    CancelRetracts(x, g, e);
    U32.NextWraps(g.ring.enqueuerTail - 1);
  }

  /** The exchange does to the ring what the cancel by id would do. */
  ghost predicate CancelsLikeById<T>(x: Indexed<T>, e: Event<T>)
    requires e.Exchange? && Holding(x, e.t)
  {
    IndexedNext(x, e).ring == Next(Wrapping, x.ring, Unleak(e.t, false))
  }

  lemma CancelIsExact<T>(x: Indexed<T>, g: Traced<T>, e: Event<T>)
    requires Shadows(x, g) && Matches(x, e) && x.loops[e.t].Cancelling?
    ensures CancelsLikeById(x, e) <==> WithinBuffer(x, e.t)
    ensures IndexedNext(x, e).ring.enqueuerTail == U32.Wrap(x.ring.enqueuerTail - 1)
  {
    CancelEffect(x, g, e);
    if Strays(x, e) { StrayIsNotOwn(x, g, e); } else { OwnExchange(x, g, e); }
  }

  lemma FailedIsOk<T>(x: Indexed<T>, t: nat)
    requires Holding(x, t) && !x.loops[t].Outside? && LoopOk(x.ring, t, x.loops[t])
    requires U32.PowerOfTwo(|x.ring.buffer|) && |x.ring.buffer| < 0x8000_0000
    requires x.ring.tail < 0x1_0000_0000
    ensures LoopOk(x.ring, t, Failed(x, t))
  {
    AdjustedIndex(x.ring.threads[t].slot % |x.ring.buffer|, x.loops[t].slotId, Reloaded(x, t), |x.ring.buffer|);
  }

  /** Other threads' actions leave a call by index where it is. */
  lemma OthersKeepLoop<T>(k: Counters, r: Ring<T>, a: Action<T>, t: nat, loop: Loop)
    requires |r.buffer| > 0 && t < |r.threads| && a.t != t && LoopOk(r, t, loop)
    ensures |Next(k, r, a).buffer| == |r.buffer| && |Next(k, r, a).threads| == |r.threads|
    ensures LoopOk(Next(k, r, a), t, loop)
  {
    NextKeepsShape(k, r, a);
  }

  /** One action of `RingMachine` on both rings, by a thread that is or gets outside. */
  lemma ActionShadowed<T>(x: Indexed<T>, g: Traced<T>, a: Action<T>)
    requires Shadows(x, g) && a.t < |x.loops|
    ensures Shadows(Indexed(Next(Wrapping, x.ring, a), x.loops[a.t := Outside]), Trace(g, a))
  {
    TraceKeepsInv(g, a);
    NextWraps(g, a);
    NextKeepsShape(Unbounded, g.ring, a);
    NextKeepsShape(Wrapping, x.ring, a);
    forall t | 0 <= t < |x.loops| && t != a.t
      ensures LoopOk(Next(Wrapping, x.ring, a), t, x.loops[t])
    {
      OthersKeepLoop(Wrapping, x.ring, a, t, x.loops[t]);
    }
  }

  lemma CallShadowed<T>(x: Indexed<T>, g: Traced<T>, t: nat, loop: Loop)
    requires Shadows(x, g) && t < |x.loops| && LoopOk(x.ring, t, loop)
    ensures Shadows(x.(loops := x.loops[t := loop]), g)
  {
  }

  function TraceAll<T>(g: Traced<T>, actions: seq<Action<T>>): Traced<T>
    requires |g.ring.buffer| > 0 && |actions| <= 1
  {
    if actions == [] then g else Trace(g, actions[0])
  }

  lemma FirstGuessIsOk<T>(x: Indexed<T>, g: Traced<T>, t: nat)
    requires Shadows(x, g) && Holding(x, t)
    ensures var index := x.ring.threads[t].slot % |x.ring.buffer|;
      LoopOk(x.ring, t, Cancelling(index)) && (x.ring.threads[t].PublishWritten? ==> LoopOk(x.ring, t, Sending(index)))
  {
    OwnIndex(x.ring.threads[t].slot % |x.ring.buffer|, |x.ring.buffer|);
  }

  /** As long as it does not stray, every event is the action by id, or leaves the ring alone. */
  lemma EventShadowed<T>(x: Indexed<T>, g: Traced<T>, e: Event<T>)
    requires Shadows(x, g) && !Strays(x, e)
    ensures Shadows(IndexedNext(x, e), TraceAll(g, ById(x, e)))
  {
    match e
    case Base(a) =>
      if a.t < |x.loops| && x.loops[a.t].Outside? {
        ActionShadowed(x, g, a);
        assert x.loops[a.t := Outside] == x.loops;
      }
    case Exchange(t, _) =>
      if Matches(x, e) {
        OwnExchange(x, g, e);
        ActionShadowed(x, g, if x.loops[t].Cancelling? then Unleak(t, false) else Step(t, false, false));
      } else if Holding(x, t) && !x.loops[t].Outside? {
        FailedIsOk(x, t);
        CallShadowed(x, g, t, Failed(x, t));
      }
    case CancelByIndex(t) =>
      if Holding(x, t) { FirstGuessIsOk(x, g, t); }
    case SendByIndex(t) =>
      if Holding(x, t) { FirstGuessIsOk(x, g, t); }
  }

  // ---------------------------------------------------------------------------------------
  // Whole runs

  lemma TracedRunAppends<T>(buffer: seq<T>, threads: nat, schedule: seq<Action<T>>, more: seq<Action<T>>)
    requires |buffer| > 0 && |more| <= 1
    ensures TracedRun(buffer, threads, schedule + more) == TraceAll(TracedRun(buffer, threads, schedule), more)
  {
    if more == [] {
      assert schedule + more == schedule;
    } else {
      assert (schedule + more)[..|schedule|] == schedule;
    }
  }

  lemma {:induction false} RunShadowed<T>(buffer: seq<T>, threads: nat, events: seq<Event<T>>)
    requires Supported(buffer, threads) && NoneStrays(New(buffer, threads), events)
    ensures |buffer| > 0
    ensures Shadows(IndexedRun(New(buffer, threads), events),
                    TracedRun(buffer, threads, RunById(New(buffer, threads), events)))
  {
    var start := New(buffer, threads);
    if events == [] {
      var g := ReachedIsTraced(buffer, threads, []);
    } else {
      var (front, e) := (events[..|events| - 1], events[|events| - 1]);
      forall n | 0 <= n < |front|
        ensures !Strays(IndexedRun(start, front[..n]), front[n])
      {
        assert front[..n] == events[..n];
      }
      RunShadowed(buffer, threads, front);
      var x := IndexedRun(start, front);
      assert !Strays(x, e);
      EventShadowed(x, TracedRun(buffer, threads, RunById(start, front)), e);
      TracedRunAppends(buffer, threads, RunById(start, front), ById(x, e));
    }
  }

  lemma ReachedShadow<T>(buffer: seq<T>, threads: nat, events: seq<Event<T>>) returns (x: Indexed<T>, g: Traced<T>)
    requires Supported(buffer, threads) && NoneStrays(New(buffer, threads), events)
    ensures x == IndexedRun(New(buffer, threads), events) && Shadows(x, g)
    ensures |x.ring.buffer| == |buffer| > 0 && |x.loops| == |x.ring.threads| == threads
  {
    RunShadowed(buffer, threads, events);
    x := IndexedRun(New(buffer, threads), events);
    g := TracedRun(buffer, threads, RunById(New(buffer, threads), events));
  }

  /**
   Refinement: over every run in which no cancel by index strays, the ring is the one reached by
   the same calls made by id. So everything `RingFifo` promises holds with calls by index too.
   */
  lemma CallsByIndexRefineCallsById<T>(buffer: seq<T>, threads: nat, events: seq<Event<T>>)
    requires Supported(buffer, threads) && NoneStrays(New(buffer, threads), events)
    ensures |buffer| > 0
    ensures var start := New(buffer, threads);
      IndexedRun(start, events).ring == Reached(buffer, threads, RunById(start, events))
  {
    RunShadowed(buffer, threads, events);
    var g := ReachedIsTraced(buffer, threads, RunById(New(buffer, threads), events));
  }

  /** In every interleaving, a publish by index that succeeds publishes the caller's own id. */
  lemma SendByIndexIsOwn<T>(buffer: seq<T>, threads: nat, events: seq<Event<T>>, x: Indexed<T>, e: Event<T>)
    requires Supported(buffer, threads) && NoneStrays(New(buffer, threads), events)
    requires x == IndexedRun(New(buffer, threads), events) && Matches(x, e) && x.loops[e.t].Sending?
    ensures SendsLikeById(x, e)
  {
    var y, g := ReachedShadow(buffer, threads, events);
    SendIsExact(x, g, e);
  }

  /**
   In every interleaving, a cancel by index that answers `true` does what the cancel by id does
   if and only if at most a buffer of ids was reserved from the caller's own on. Otherwise the
   cancel by id would have answered `false`, and this one retracts another thread's id.
   */
  lemma CancelByIndexIsOwn<T>(buffer: seq<T>, threads: nat, events: seq<Event<T>>, x: Indexed<T>, e: Event<T>)
    requires Supported(buffer, threads) && NoneStrays(New(buffer, threads), events)
    requires x == IndexedRun(New(buffer, threads), events) && Matches(x, e) && x.loops[e.t].Cancelling?
    ensures CancelsLikeById(x, e) <==> WithinBuffer(x, e.t)
    ensures IndexedNext(x, e).ring.enqueuerTail == U32.Wrap(x.ring.enqueuerTail - 1)
  {
    var y, g := ReachedShadow(buffer, threads, events);
    CancelIsExact(x, g, e);
  }

  lemma WindowsAgree(tail: nat, end: nat, tail': nat, end': nat)
    requires U32.Wrap(tail) == U32.Wrap(tail') && U32.Wrap(end) == U32.Wrap(end')
    requires 0 <= end - tail < 0x1_0000_0000 && 0 <= end' - tail' < 0x1_0000_0000
    ensures end - tail == end' - tail'
  {
    U32.Distance(end, tail);
    U32.Distance(end', tail');
  }

  lemma WindowsCorrespond(tail: nat, own: nat, end: nat, tail': nat, end': nat)
    requires U32.Wrap(tail) == U32.Wrap(tail') && U32.Wrap(end) == U32.Wrap(end')
    requires tail <= own < end < tail + 0x1_0000_0000 && 0 <= end' - tail' < 0x1_0000_0000
    ensures tail' + (own - tail) < end' && U32.Wrap(U32.Wrap(tail') + (own - tail)) == U32.Wrap(own)
  {
    WindowsAgree(tail, end, tail', end');
    U32.WrapSum(tail, own - tail);
  }

  /** In a ring of calls by id, whatever lies in the publishing window is held by some thread. */
  lemma WindowHeld<T>(g: Traced<T>, offset: nat) returns (u: nat)
    requires Inv(g) && Sized(g.ring) && g.ring.tail + offset < g.ring.enqueuerTail
    ensures u < |g.ring.threads| && WrapRing(g.ring).threads[u].ClaimsPublish()
    ensures WrapRing(g.ring).threads[u].slot == U32.Wrap(U32.Wrap(g.ring.tail) + offset)
  {
    var id := g.ring.tail + offset;
    u := g.publisher[id];
    assert g.ring.threads[u].ClaimsPublish() && g.ring.threads[u].slot == id;
    U32.WrapSum(g.ring.tail, offset);
  }

  /** In a ring of calls by id, no two threads hold ids that look the same. */
  lemma HeldByOne<T>(g: Traced<T>, t: nat, u: nat)
    requires Inv(g) && Sized(g.ring) && t < |g.ring.threads| && u < |g.ring.threads|
    requires g.ring.threads[t].ClaimsPublish() && g.ring.threads[u].ClaimsPublish()
    requires U32.Wrap(g.ring.threads[t].slot) == U32.Wrap(g.ring.threads[u].slot)
    ensures t == u
  {
    WindowsFitThreads(g);
    assert ThreadOk(g, t) && ThreadOk(g, u);
    U32.Injective(g.ring.threads[t].slot, g.ring.threads[u].slot);
  }

  /** An id inside what is left of the window has its counterpart in any ring that looks the same. */
  lemma Counterpart<T>(g: Traced<T>, own: nat, g': Traced<T>) returns (offset: nat)
    requires Inv(g) && Sized(g.ring) && Inv(g') && Sized(g'.ring) && |g'.ring.threads| == |g.ring.threads|
    requires g.ring.tail <= own < g.ring.enqueuerTail - 1
    requires U32.Wrap(g'.ring.tail) == U32.Wrap(g.ring.tail)
    requires U32.Wrap(g'.ring.enqueuerTail) == U32.Wrap(g.ring.enqueuerTail - 1)
    ensures g'.ring.tail + offset < g'.ring.enqueuerTail
    ensures U32.Wrap(U32.Wrap(g'.ring.tail) + offset) == U32.Wrap(own)
  {
    WindowsFitThreads(g);
    WindowsFitThreads(g');
    offset := own - g.ring.tail;
    WindowsCorrespond(g.ring.tail, own, g.ring.enqueuerTail - 1, g'.ring.tail, g'.ring.enqueuerTail);
  }

  lemma StrayedRing<T>(x: Indexed<T>, g: Traced<T>, e: Event<T>, g': Traced<T>)
    requires Shadows(x, g) && Strays(x, e)
    requires Inv(g') && Sized(g'.ring) && |g'.ring.threads| == |x.ring.threads|
    ensures IndexedNext(x, e).ring != WrapRing(g'.ring)
  {
    var (r, r') := (x.ring, IndexedNext(x, e).ring);
    CancelRetracts(x, g, e);
    GrantedRange(g, e.t);
    if r' == WrapRing(g'.ring) {
      var offset := Counterpart(g, g.ring.threads[e.t].slot, g');
      var u := WindowHeld(g', offset);
      assert r'.threads[e.t].Idle?;
      assert r'.threads[u] == r.threads[u] == WrapPc(g.ring.threads[u]);
      HeldByOne(g, e.t, u);
    }
  }

  /** A cancel by index that strays leaves a ring that no run of calls by id can reach. */
  lemma StrayIsUnreachable<T>(buffer: seq<T>, threads: nat, events: seq<Event<T>>, x: Indexed<T>, e: Event<T>,
                              schedule: seq<Action<T>>)
    requires Supported(buffer, threads) && NoneStrays(New(buffer, threads), events) && |buffer| > 0
    requires x == IndexedRun(New(buffer, threads), events) && Strays(x, e)
    ensures IndexedNext(x, e).ring != Reached(buffer, threads, schedule)
  {
    var y, g := ReachedShadow(buffer, threads, events);
    var g' := ReachedIsTraced(buffer, threads, schedule);
    StrayedRing(x, g, e, g');
  }

  // ---------------------------------------------------------------------------------------
  // A cancel by index that nobody disturbs

  /** The topmost id is another one than the caller's, of the same index. */
  predicate TopClashes<T>(x: Indexed<T>, t: nat)
    requires Holding(x, t)
  {
    var (top, own) := (U32.Wrap(x.ring.enqueuerTail - 1), x.ring.threads[t].slot);
    top != own && top % |x.ring.buffer| == own % |x.ring.buffer|
  }

  /** The call and its two exchanges; the second one may find the call finished already. */
  function LoneCancel<T>(x: Indexed<T>, t: nat): Indexed<T> {
    IndexedNext(IndexedNext(IndexedNext(x, CancelByIndex(t)), Exchange(t, false)), Exchange(t, false))
  }

  ghost predicate Free<T>(x: Indexed<T>, t: nat) {
    && Holding(x, t) && x.loops[t].Outside?
    && U32.PowerOfTwo(|x.ring.buffer|) && |x.ring.buffer| < 0x8000_0000
    && x.ring.enqueuerTail < 0x1_0000_0000 && x.ring.threads[t].slot < 0x1_0000_0000
  }

  function Retracted<T>(x: Indexed<T>, t: nat): Indexed<T>
    requires Holding(x, t)
  {
    Indexed(SetPc(x.ring, t, Idle).(enqueuerTail := U32.Wrap(x.ring.enqueuerTail - 1)), x.loops[t := Outside])
  }

  /** One exchange, which nobody made fail. */
  lemma LoneExchange<T>(x: Indexed<T>, t: nat, slotId: nat, next: Option<nat>)
    requires Holding(x, t) && x.loops[t] == Cancelling(slotId)
    requires slotId < 0x1_0000_0000 && x.ring.enqueuerTail < 0x1_0000_0000
    requires var (top, size) := (U32.Wrap(x.ring.enqueuerTail - 1), |x.ring.buffer|);
      next == Adjusted(x.ring.threads[t].slot % size, slotId, top, size)
    ensures IndexedNext(x, Exchange(t, false)) ==
              if U32.Wrap(x.ring.enqueuerTail - 1) == slotId then Retracted(x, t)
              else x.(loops := x.loops[t := if next.Some? then Cancelling(next.value) else Outside])
  {
    ExchangeMatches(x.ring.enqueuerTail, 1, slotId);
  }

  /** It retracts the topmost id exactly when that has the caller's index. */
  lemma LoneCancelEffect<T>(x: Indexed<T>, t: nat)
    requires Free(x, t)
    ensures LoneCancel(x, t) ==
              if U32.Wrap(x.ring.enqueuerTail - 1) % |x.ring.buffer| == x.ring.threads[t].slot % |x.ring.buffer|
              then Retracted(x, t) else x
  {
    var (size, top) := (|x.ring.buffer|, U32.Wrap(x.ring.enqueuerTail - 1));
    var index := x.ring.threads[t].slot % size;
    var x1 := x.(loops := x.loops[t := Cancelling(index)]);
    assert IndexedNext(x, CancelByIndex(t)) == x1;
    assert x1.loops[t := Outside] == x.loops;
    AdjustedOnce(index, index, top, size);
    var lap := LapOf(top, index, size);
    LoneExchange(x1, t, index, Adjusted(index, index, top, size));
    if top != index && Adjusted(index, index, top, size).Some? {
      var x2 := x.(loops := x.loops[t := Cancelling(lap)]);
      assert x2 == x1.(loops := x1.loops[t := Cancelling(lap)]);
      assert x2.loops[t := Outside] == x.loops;
      AdjustedOnce(index, lap, top, size);
      LoneExchange(x2, t, lap, Adjusted(index, lap, top, size));
    }
  }

  /**
   From every reachable state, an undisturbed cancel by index does what the cancel by id does if
   and only if the topmost id is not another one of the caller's index; in particular whenever
   at most a buffer of ids was reserved from the caller's own on.
   */
  lemma LoneCancelIsExact<T>(buffer: seq<T>, threads: nat, events: seq<Event<T>>, x: Indexed<T>, t: nat)
    requires Supported(buffer, threads) && NoneStrays(New(buffer, threads), events)
    requires x == IndexedRun(New(buffer, threads), events) && Holding(x, t) && x.loops[t].Outside?
    ensures LoneCancel(x, t).ring == Next(Wrapping, x.ring, Unleak(t, false)) <==> !TopClashes(x, t)
    ensures WithinBuffer(x, t) ==> !TopClashes(x, t)
  {
    var y, g := ReachedShadow(buffer, threads, events);
    ShadowIsFree(x, g, t);
    LoneCancelCompared(x, t);
    if WithinBuffer(x, t) { WithinIsOwn(x, g, t); }
  }

  lemma LoneCancelCompared<T>(x: Indexed<T>, t: nat)
    requires Free(x, t)
    ensures LoneCancel(x, t).ring == Next(Wrapping, x.ring, Unleak(t, false)) <==> !TopClashes(x, t)
  {
    LoneCancelEffect(x, t);
    UnleakEffect(x.ring, t);
    var (r, top) := (x.ring, U32.Wrap(x.ring.enqueuerTail - 1));
    assert SetPc(r, t, Idle).(enqueuerTail := top).threads[t] != r.threads[t];
  }

  lemma ShadowIsFree<T>(x: Indexed<T>, g: Traced<T>, t: nat)
    requires Shadows(x, g) && Holding(x, t) && x.loops[t].Outside?
    ensures Free(x, t)
  {
  }

  lemma UnleakEffect<T>(r: Ring<T>, t: nat)
    requires t < |r.threads| && |r.buffer| > 0 && r.threads[t].MayWrite()
    requires r.enqueuerTail < 0x1_0000_0000 && r.threads[t].slot < 0x1_0000_0000
    ensures var top := U32.Wrap(r.enqueuerTail - 1);
      Next(Wrapping, r, Unleak(t, false)) ==
        if top == r.threads[t].slot then SetPc(r, t, Idle).(enqueuerTail := top) else r
  {
    ExchangeMatches(r.enqueuerTail, 1, r.threads[t].slot);
  }

  lemma TopIsOwn(top: nat, own: nat, size: nat)
    requires U32.PowerOfTwo(size) && size < 0x8000_0000 && own <= top < own + size
    requires U32.Wrap(top) % size == U32.Wrap(own) % size
    ensures top == own
  {
    U32.IndexSurvivesWrap(top, size);
    U32.IndexSurvivesWrap(own, size);
    IndexDeterminesId(own, top, size);
  }

  lemma WithinIsOwn<T>(x: Indexed<T>, g: Traced<T>, t: nat)
    requires Shadows(x, g) && Holding(x, t) && WithinBuffer(x, t)
    ensures !TopClashes(x, t)
  {
    var (top, own) := (g.ring.enqueuerTail - 1, g.ring.threads[t].slot);
    GrantedRange(g, t);
    assert x.ring.threads[t].slot == U32.Wrap(own);
    assert U32.Wrap(x.ring.enqueuerTail - 1) == U32.Wrap(top) by { U32.NextWraps(top); }
    assert top < own + |x.ring.buffer| by { U32.Distance(top + 1, own); }
    if TopClashes(x, t) { TopIsOwn(top, own, |x.ring.buffer|); }
  }

  // ---------------------------------------------------------------------------------------
  // The subtraction from the counter reloaded

  /** The exchange fails on a counter that is zero: `reloaded_enqueuer_tail-1` goes below zero. */
  predicate Underflows<T>(x: Indexed<T>, e: Event<T>) {
    && e.Exchange? && Holding(x, e.t) && x.loops[e.t].Cancelling?
    && !Matches(x, e) && x.ring.enqueuerTail < 1
  }

  function Exchanges<T>(t: nat, spurious: seq<bool>): seq<Event<T>> {
    seq(|spurious|, i requires 0 <= i < |spurious| => Exchange(t, spurious[i]))
  }

  /** Until the undisturbed call is over, the counter is the one it was called with. */
  lemma {:induction false} CounterStays<T>(x: Indexed<T>, t: nat, spurious: seq<bool>)
    requires t < |x.loops|
    ensures var y := IndexedRun(x, Exchanges(t, spurious));
      |y.loops| == |x.loops| && (y.loops[t].Outside? || y.ring == x.ring)
  {
    if spurious != [] {
      var front := spurious[..|spurious| - 1];
      CounterStays(x, t, front);
      assert Exchanges<T>(t, spurious)[..|front|] == Exchanges<T>(t, front);
    }
  }

  /**
   However its exchanges fail, some iteration of an undisturbed cancel by index subtracts one
   from zero if and only if the counter was zero at the call.
   */
  lemma UnderflowIsExact<T>(x: Indexed<T>, t: nat, spurious: seq<bool>)
    requires Free(x, t) && spurious != []
    ensures (exists n :: 0 <= n < |spurious|
               && Underflows(IndexedRun(IndexedNext(x, CancelByIndex(t)), Exchanges(t, spurious[..n])),
                             Exchange(t, spurious[n])))
            <==> x.ring.enqueuerTail == 0
  {
    var x1 := IndexedNext(x, CancelByIndex(t));
    forall n | 0 <= n < |spurious|
      ensures Underflows(IndexedRun(x1, Exchanges(t, spurious[..n])), Exchange(t, spurious[n])) ==>
                x.ring.enqueuerTail == 0
    {
      CounterStays(x1, t, spurious[..n]);
    }
    if x.ring.enqueuerTail == 0 {
      assert IndexedRun(x1, Exchanges(t, spurious[..0])) == x1;
      U32.SmallIsItself(x.ring.threads[t].slot % |x.ring.buffer| + 1);
      assert Underflows(x1, Exchange(t, spurious[0]));
    }
  }

  /** What every run keeps, those with a cancel that strayed too: loops try ids of the caller's index. */
  ghost predicate LoopsOk<T>(x: Indexed<T>) {
    && U32.PowerOfTwo(|x.ring.buffer|) && |x.ring.buffer| < 0x8000_0000
    && x.ring.tail < 0x1_0000_0000 && |x.loops| == |x.ring.threads|
    && forall t | 0 <= t < |x.loops| :: LoopOk(x.ring, t, x.loops[t])
  }

  lemma BaseKeepsLoops<T>(x: Indexed<T>, a: Action<T>)
    requires LoopsOk(x)
    ensures LoopsOk(IndexedNext(x, Base(a)))
  {
    if a.t < |x.loops| && x.loops[a.t].Outside? {
      NextKeepsShape(Wrapping, x.ring, a);
      forall t | 0 <= t < |x.loops| && t != a.t
        ensures LoopOk(Next(Wrapping, x.ring, a), t, x.loops[t])
      {
        OthersKeepLoop(Wrapping, x.ring, a, t, x.loops[t]);
      }
    }
  }

  lemma EventKeepsLoops<T>(x: Indexed<T>, e: Event<T>)
    requires LoopsOk(x)
    ensures LoopsOk(IndexedNext(x, e))
  {
    if e.Base? {
      BaseKeepsLoops(x, e.a);
    } else if Holding(x, e.t) {
      OwnIndex(x.ring.threads[e.t].slot % |x.ring.buffer|, |x.ring.buffer|);
      if e.Exchange? && !x.loops[e.t].Outside? && !Matches(x, e) { FailedIsOk(x, e.t); }
    }
  }

  lemma {:induction false} RunKeepsLoops<T>(x: Indexed<T>, events: seq<Event<T>>)
    requires LoopsOk(x)
    ensures LoopsOk(IndexedRun(x, events))
  {
    if events != [] {
      RunKeepsLoops(x, events[..|events| - 1]);
      EventKeepsLoops(IndexedRun(x, events[..|events| - 1]), events[|events| - 1]);
    }
  }

  lemma ZeroAtExchange<T>(x: Indexed<T>, t: nat, spurious: bool)
    requires LoopsOk(x) && Holding(x, t) && x.loops[t].Cancelling?
    ensures Underflows(x, Exchange(t, spurious)) <==>
              x.ring.enqueuerTail == 0 && (spurious || x.loops[t].slotId != 0xFFFF_FFFF)
    ensures x.loops[t].slotId == x.ring.threads[t].slot % |x.ring.buffer| ==> x.loops[t].slotId != 0xFFFF_FFFF
  {
    assert LoopOk(x.ring, t, x.loops[t]);
    OnlyLastWrapsToZero(x.loops[t].slotId);
  }

  lemma OnlyLastWrapsToZero(slotId: nat)
    requires slotId < 0x1_0000_0000
    ensures U32.Wrap(slotId + 1) == 0 <==> slotId == 0xFFFF_FFFF
  {
  }

  /**
   In every interleaving, whatever other threads did since the call, an exchange of a cancel by
   index subtracts one from zero if and only if it meets a counter of zero, unless the local id has
   become the last one before the wrap and the exchange does not fail spuriously. That local id is
   never the one a call begins with.
   */
  lemma UnderflowMeetsZero<T>(buffer: seq<T>, threads: nat, events: seq<Event<T>>, x: Indexed<T>, t: nat,
                              spurious: bool)
    requires Supported(buffer, threads) && x == IndexedRun(New(buffer, threads), events)
    requires Holding(x, t) && x.loops[t].Cancelling?
    ensures Underflows(x, Exchange(t, spurious)) <==>
              x.ring.enqueuerTail == 0 && (spurious || x.loops[t].slotId != 0xFFFF_FFFF)
    ensures x.loops[t].slotId == x.ring.threads[t].slot % |x.ring.buffer| ==> x.loops[t].slotId != 0xFFFF_FFFF
  {
    RunKeepsLoops(New(buffer, threads), events);
    ZeroAtExchange(x, t, spurious);
  }
}
