/**
 `AtomicIncrementalAverage64`: a counter and an average packed in one 64-bit word, updated by a
 compare-exchange loop that any number of threads run at once. The average is a real number
 here; its packing is about its 32-bit pattern.
 */
module IncrementalAverages {
  import U32

  // ---------------------------------------------------------------------------------------
  // Packing

  /** `split_joined`: the counter and the bit pattern of the average. */
  function SplitJoined(joined: bv64): (bv32, bv32) {
    ((joined & 0xFFFF_FFFF) as bv32, (joined >> 32) as bv32)
  }

  /** `join_split` */
  function JoinSplit(counter: bv32, average: bv32): bv64 {
    (counter as bv64) | ((average as bv64) << 32)
  }

  /**
   Nothing is lost in the packed word, either way, so equal words are equal pairs; the counter
   is its lower half, as in the struct that shares the word's memory.
   */
  lemma PackingIsExact(counter: bv32, average: bv32, joined: bv64)
    ensures JoinSplit(counter, average) & 0xFFFF_FFFF == counter as bv64
    ensures SplitJoined(JoinSplit(counter, average)) == (counter, average)
    ensures JoinSplit(SplitJoined(joined).0, SplitJoined(joined).1) == joined
  {
  }

  // ---------------------------------------------------------------------------------------
  // The update

  const MAX_COUNT: nat := 0xFFFF_FFFF

  datatype Average = Average(counter: nat, value: real)

  /** The closure of `inc`: the new counter and average, after a reset to weight 100 if the counter is exhausted. */
  function Inc(current: Average, measurement: real): Average {
    var counter := if current.counter == MAX_COUNT then 100 else current.counter;
    Average(counter + 1,
            (counter as real / (1.0 + counter as real)) * current.value + measurement / (1.0 + counter as real))
  }

  /** The measurements taken in one after the other, starting from `new()`. */
  function Fold(measurements: seq<real>): Average {
    if measurements == [] then Average(0, 0.0)
    else Inc(Fold(measurements[..|measurements| - 1]), measurements[|measurements| - 1])
  }

  function Sum(measurements: seq<real>): real {
    if measurements == [] then 0.0
    else Sum(measurements[..|measurements| - 1]) + measurements[|measurements| - 1]
  }

  lemma DivTimes(x: real, n: real)
    requires n > 0.0
    ensures (x / n) * n == x
  {
  }

  lemma WeightedMean(weight: real, value: real, measurement: real)
    requires weight >= 0.0
    ensures ((weight / (1.0 + weight)) * value + measurement / (1.0 + weight)) * (1.0 + weight)
         == weight * value + measurement
  {
    var n := 1.0 + weight;
    DivTimes(weight, n);
    DivTimes(measurement, n);
    assert ((weight / n) * value) * n == ((weight / n) * n) * value;
  }

  /** The average after up to 2^32 - 1 measurements is their exact mean. */
  lemma {:induction false} FoldIsMean(measurements: seq<real>)
    requires |measurements| <= MAX_COUNT
    ensures Fold(measurements).counter == |measurements|
    ensures Fold(measurements).value * |measurements| as real == Sum(measurements)
  {
    if measurements != [] {
      var n := |measurements| - 1;
      var before := Fold(measurements[..n]);
      FoldIsMean(measurements[..n]);
      WeightedMean(n as real, before.value, measurements[n]);
    }
  }

  lemma BetweenBounds(weight: real, value: real, measurement: real, mean: real, lo: real, hi: real)
    requires weight >= 0.0 && lo <= measurement <= hi && (weight > 0.0 ==> lo <= value <= hi)
    requires mean == (weight / (1.0 + weight)) * value + measurement / (1.0 + weight)
    ensures lo <= mean <= hi
  {
    var n := 1.0 + weight;
    WeightedMean(weight, value, measurement);
    Signs(weight, value - lo);
    Signs(weight, value - hi);
    assert (mean - lo) * n == weight * (value - lo) + (measurement - lo);
    assert (mean - hi) * n == weight * (value - hi) + (measurement - hi);
    Signs(n, mean - lo);
    Signs(n, mean - hi);
  }

  lemma Signs(weight: real, x: real)
    requires weight >= 0.0
    ensures x >= 0.0 || weight == 0.0 ==> weight * x >= 0.0
    ensures x <= 0.0 || weight == 0.0 ==> weight * x <= 0.0
    ensures weight > 0.0 && weight * x >= 0.0 ==> x >= 0.0
    ensures weight > 0.0 && weight * x <= 0.0 ==> x <= 0.0
  {
  }

  lemma IncWithinBounds(before: Average, measurement: real, lo: real, hi: real)
    requires lo <= measurement <= hi && (before.counter > 0 ==> lo <= before.value <= hi)
    ensures lo <= Inc(before, measurement).value <= hi
  {
    var weight := if before.counter == MAX_COUNT then 100 else before.counter;
    var w := weight as real;
    assert w > 0.0 ==> before.counter > 0;
    BetweenBounds(w, before.value, measurement, Inc(before, measurement).value, lo, hi);
  }

  /** However many measurements there are, and across resets, the average stays within their bounds. */
  lemma {:induction false} FoldWithinBounds(measurements: seq<real>, lo: real, hi: real)
    requires measurements != [] && forall i | 0 <= i < |measurements| :: lo <= measurements[i] <= hi
    ensures lo <= Fold(measurements).value <= hi
  {
    var n := |measurements| - 1;
    if n > 0 {
      FoldWithinBounds(measurements[..n], lo, hi);
    }
    IncWithinBounds(Fold(measurements[..n]), measurements[n], lo, hi);
  }

  lemma NextRemainder(x: nat, n: nat)
    requires n > 0
    ensures (x + 1) % n == if x % n == n - 1 then 0 else x % n + 1
  {
    if x % n == n - 1 {
      U32.RemainderIs(x + 1, n, x / n + 1, 0);
    } else {
      U32.RemainderIs(x + 1, n, x / n, x % n + 1);
    }
  }

  /** The counter counts up to its limit and from then on cycles through 101 ..= u32::MAX. */
  function CounterAfter(k: nat): nat {
    if k <= MAX_COUNT then k else 101 + (k - MAX_COUNT - 1) % (MAX_COUNT - 100)
  }

  lemma {:induction false} FoldCounter(measurements: seq<real>)
    ensures Fold(measurements).counter == CounterAfter(|measurements|)
  {
    if measurements != [] {
      var n := |measurements| - 1;
      FoldCounter(measurements[..n]);
      if n > MAX_COUNT { NextRemainder(n - MAX_COUNT - 1, MAX_COUNT - 100); }
    }
  }

  // ---------------------------------------------------------------------------------------
  // Threads

  /** Where a thread stands in `atomic_compute`. */
  datatype Pc =
    | Idle
    | Loading(measurement: real)                   // about to load the word
    | Exchanging(measurement: real, seen: Average) // about to compare-exchange it

  /** The shared word, the threads, and the measurements of the exchanges that succeeded, in order. */
  datatype Shared = Shared(word: Average, threads: seq<Pc>, done: seq<real>)

  datatype Event = CallInc(t: nat, measurement: real) | Step(t: nat)

  function Next(s: Shared, e: Event): Shared {
    if e.t >= |s.threads| then s else
    match e
    case CallInc(t, measurement) =>
      if s.threads[t].Idle? then s.(threads := s.threads[t := Loading(measurement)]) else s
    case Step(t) =>
      match s.threads[t]
      case Idle => s
      case Loading(measurement) => s.(threads := s.threads[t := Exchanging(measurement, s.word)])
      case Exchanging(measurement, seen) =>
        if s.word == seen then
          Shared(Inc(seen, measurement), s.threads[t := Idle], s.done + [measurement])
        else s.(threads := s.threads[t := Exchanging(measurement, s.word)])
  }

  function Run(threads: nat, events: seq<Event>): Shared {
    if events == [] then Shared(Average(0, 0.0), seq(threads, _ => Idle), [])
    else Next(Run(threads, events[..|events| - 1]), events[|events| - 1])
  }

  ghost predicate Begins(s: Shared, e: Event) {
    e.CallInc? && e.t < |s.threads| && s.threads[e.t].Idle?
  }

  /** How often `x` was measured by the calls begun so far. */
  ghost function Begun(threads: nat, events: seq<Event>, x: real): nat {
    if events == [] then 0 else
    var (front, e) := (events[..|events| - 1], events[|events| - 1]);
    Begun(threads, front, x) + if Begins(Run(threads, front), e) && e.measurement == x then 1 else 0
  }

  function Carries(pc: Pc, x: real): nat {
    if !pc.Idle? && pc.measurement == x then 1 else 0
  }

  /** How often `x` is measured by the calls still under way. */
  function UnderWay(threads: seq<Pc>, x: real): nat {
    if threads == [] then 0 else
    UnderWay(threads[..|threads| - 1], x) + Carries(threads[|threads| - 1], x)
  }

  lemma {:induction false} UnderWayUpdate(threads: seq<Pc>, t: nat, pc: Pc, x: real)
    requires t < |threads|
    ensures UnderWay(threads[t := pc], x) + Carries(threads[t], x) == UnderWay(threads, x) + Carries(pc, x)
  {
    var last := |threads| - 1;
    if t == last {
      assert threads[t := pc][..last] == threads[..last];
    } else {
      assert threads[t := pc][..last] == threads[..last][t := pc];
      UnderWayUpdate(threads[..last], t, pc, x);
    }
  }

  lemma {:induction false} NoneUnderWay(threads: nat, x: real)
    ensures UnderWay(seq(threads, _ => Idle), x) == 0
  {
    if threads > 0 {
      NoneUnderWay(threads - 1, x);
      assert seq(threads, _ => Idle)[..threads - 1] == seq(threads - 1, _ => Idle);
    }
  }

  /** What one event does to the shared word and to one thread. */
  ghost predicate Move(s: Shared, e: Event, s': Shared) {
    && e.t < |s.threads| == |s'.threads|
    && s'.threads == s.threads[e.t := s'.threads[e.t]]
    && var (pc, pc') := (s.threads[e.t], s'.threads[e.t]);
       if s'.done == s.done then
         && s'.word == s.word
         && forall x :: Carries(pc', x) == Carries(pc, x) + if Begins(s, e) && e.measurement == x then 1 else 0
       else
         && !pc.Idle? && pc'.Idle? && !Begins(s, e)
         && s'.done == s.done + [pc.measurement] && s'.word == Inc(s.word, pc.measurement)
  }

  lemma NextMoves(s: Shared, e: Event)
    requires e.t < |s.threads|
    ensures Move(s, e, Next(s, e))
  {
  }

  /** One event adds a call, or completes one with its measurement taken in, or neither. */
  lemma MoveConserves(s: Shared, e: Event, s': Shared, x: real)
    requires s.word == Fold(s.done) && Move(s, e, s')
    ensures s'.word == Fold(s'.done)
    ensures multiset(s'.done)[x] + UnderWay(s'.threads, x)
         == multiset(s.done)[x] + UnderWay(s.threads, x) + if Begins(s, e) && e.measurement == x then 1 else 0
  {
    UnderWayUpdate(s.threads, e.t, s'.threads[e.t], x);
    if s'.done != s.done {
      assert s'.done[..|s.done|] == s.done;
    }
  }

  /**
   No update is lost or applied twice: in every interleaving, the word is what taking in the
   completed measurements one after the other gives, and every call begun is either completed
   or still under way.
   */
  lemma {:induction false} NoUpdateIsLost(threads: nat, events: seq<Event>, x: real)
    ensures var s := Run(threads, events);
      && |s.threads| == threads
      && s.word == Fold(s.done)
      && Begun(threads, events, x) == multiset(s.done)[x] + UnderWay(s.threads, x)
  {
    if events == [] {
      NoneUnderWay(threads, x);
    } else {
      var (front, e) := (events[..|events| - 1], events[|events| - 1]);
      NoUpdateIsLost(threads, front, x);
      if e.t < threads {
        NextMoves(Run(threads, front), e);
        MoveConserves(Run(threads, front), e, Run(threads, events), x);
      }
    }
  }

  /** The word holds the number of the measurements and their exact mean. */
  ghost predicate IsMean(word: Average, done: seq<real>) {
    word.counter == |done| && word.value * |done| as real == Sum(done)
  }

  lemma FoldedIsMean(word: Average, done: seq<real>)
    requires word == Fold(done)
    ensures |done| <= MAX_COUNT ==> IsMean(word, done)
  {
    if |done| <= MAX_COUNT { FoldIsMean(done); }
  }

  /** After up to 2^32 - 1 completed calls, in any interleaving, the word holds their number and exact mean. */
  lemma ConcurrentMean(threads: nat, events: seq<Event>)
    ensures |Run(threads, events).done| <= MAX_COUNT ==> IsMean(Run(threads, events).word, Run(threads, events).done)
  {
    NoUpdateIsLost(threads, events, 0.0);
    FoldedIsMean(Run(threads, events).word, Run(threads, events).done);
  }

  /** However many calls completed, the average lies between the least and the greatest measurement. */
  lemma ConcurrentBounds(threads: nat, events: seq<Event>, lo: real, hi: real)
    requires forall i | 0 <= i < |Run(threads, events).done| :: lo <= Run(threads, events).done[i] <= hi
    ensures Run(threads, events).done != [] ==> lo <= Run(threads, events).word.value <= hi
  {
    NoUpdateIsLost(threads, events, lo);
    if Run(threads, events).done != [] { FoldWithinBounds(Run(threads, events).done, lo, hi); }
  }
}
