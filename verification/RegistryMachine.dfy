/**
 Creations and drops of streams by any number of threads at once. `vacant_streams` is an atomic
 bounded queue that is changed outside `streams_lock`; the list of used streams is rebuilt under
 the lock, entry by entry, from the vacant ids peeked at the start. The counts are taken unbounded;
 `StreamsManager` has their `u32` form and the rebuild itself.
 */
module RegistryMachine {
  import opened Counting
  import opened Wrappers
  import opened StreamsManager

  /** Where a thread stands inside `create_stream_id` or `report_stream_dropped`. */
  datatype Pc =
    | Outside
    | CountCreated | CountUsed                    // about to raise one of the two counts
    | Taking                                      // about to take a vacant id
    | CountFinished(id: nat) | CountUnused(id: nat)
    | Giving(id: nat)                             // about to make the id vacant
    | Locking                                     // about to take `streams_lock`
    | Peeking                                     // holds it, about to read the vacant ids
    | Writing(list: seq<nat>, next: nat)          // holds it, about to write entry `next`
    | Unlocking
  {
    predicate HoldsLock() {
      Peeking? || Writing? || Unlocking?
    }

    /** The thread has yet to read the vacant ids. */
    predicate WillPeek() {
      Locking? || Peeking?
    }

    /** The thread is dropping the stream `id`, which is not vacant yet. */
    predicate Drops() {
      CountFinished? || CountUnused? || Giving?
    }
  }

  /**
   `live` are the ids that were taken and whose drop was not called yet; `exhausted` counts the
   creations that found no vacant id and panicked.
   */
  datatype Registry = Registry(
    vacant: seq<nat>, usedStreams: seq<nat>, lock: Option<nat>,
    created: nat, finished: nat, usedCount: int, exhausted: nat,
    live: set<nat>, threads: seq<Pc>)

  datatype Event =
    | Create(t: nat)
    | Drop(t: nat, id: nat)     // only by the owner of a live id
    | Step(t: nat)

  function SetPc(r: Registry, t: nat, pc: Pc): Registry
    requires t < |r.threads|
  {
    r.(threads := r.threads[t := pc])
  }

  function StepNext(r: Registry, t: nat): Registry
    requires t < |r.threads|
  {
    var n := |r.usedStreams|;
    match r.threads[t]
    case Outside => r
    case CountCreated => SetPc(r, t, CountUsed).(created := r.created + 1)
    case CountUsed => SetPc(r, t, Taking).(usedCount := r.usedCount + 1)
    case Taking =>
      if r.vacant == [] then SetPc(r, t, Outside).(exhausted := r.exhausted + 1)
      else SetPc(r, t, Locking).(vacant := r.vacant[1..], live := r.live + {r.vacant[0]})
    case CountFinished(id) => SetPc(r, t, CountUnused(id)).(finished := r.finished + 1)
    case CountUnused(id) => SetPc(r, t, Giving(id)).(usedCount := r.usedCount - 1)
    case Giving(id) =>
      // the queue's capacity is the number of ids, and its answer is not looked at
      SetPc(r, t, Locking).(vacant := if |r.vacant| < n then r.vacant + [id] else r.vacant)
    case Locking => if r.lock.None? then SetPc(r, t, Peeking).(lock := Some(t)) else r
    case Peeking => SetPc(r, t, Writing(Padded(Elements(r.vacant), n), 0))
    case Writing(list, next) =>
      if next < |list| && next < n then
        SetPc(r, t, Writing(list, next + 1)).(usedStreams := r.usedStreams[next := list[next]])
      else SetPc(r, t, Unlocking)
    case Unlocking => SetPc(r, t, Outside).(lock := None)
  }

  /** An event that does not apply changes nothing. */
  function Next(r: Registry, e: Event): Registry {
    if e.t >= |r.threads| then r else
    match e
    case Create(t) => if r.threads[t].Outside? then SetPc(r, t, CountCreated) else r
    case Drop(t, id) =>
      if r.threads[t].Outside? && id in r.live then SetPc(r, t, CountFinished(id)).(live := r.live - {id}) else r
    case Step(t) => StepNext(r, t)
  }

  function Run(r: Registry, events: seq<Event>): Registry {
    if events == [] then r else Next(Run(r, events[..|events| - 1]), events[|events| - 1])
  }

  function New(n: nat, threads: nat): Registry {
    Registry(seq(n, i => i), seq(n, _ => SENTINEL), None, 0, 0, 0, 0, {}, seq(threads, _ => Outside))
  }

  // ---------------------------------------------------------------------------------------
  // Ids

  ghost predicate DropsUnique(threads: seq<Pc>) {
    forall t, u | 0 <= t < u < |threads| && threads[t].Drops() && threads[u].Drops() :: threads[t].id != threads[u].id
  }

  /** The ids being dropped. */
  ghost function Dropping(threads: seq<Pc>): set<nat> {
    set t | 0 <= t < |threads| && threads[t].Drops() :: threads[t].id
  }

  /** Each id is in exactly one of the three sets. */
  ghost predicate ThreeWay(a: set<nat>, b: set<nat>, c: set<nat>, n: nat) {
    a !! b && a !! c && b !! c && a + b + c == Below(n)
  }

  /** Vacant, live and being-dropped ids partition the ids. */
  ghost predicate IdsOk(vacant: seq<nat>, live: set<nat>, threads: seq<Pc>, n: nat) {
    Distinct(vacant) && DropsUnique(threads) && ThreeWay(Elements(vacant), live, Dropping(threads), n)
  }

  /** One id passes from one set to another. */
  lemma IdPasses(a: set<nat>, b: set<nat>, c: set<nat>, id: nat, n: nat)
    requires ThreeWay(a, b, c, n) && id in a
    ensures id < n && id !in b && id !in c && ThreeWay(a - {id}, b + {id}, c, n)
  {
    assert id in Below(n);
    assert a - {id} + (b + {id}) + c == a + b + c;
  }

  lemma Rotate(a: set<nat>, b: set<nat>, c: set<nat>, n: nat)
    ensures ThreeWay(a, b, c, n) == ThreeWay(b, c, a, n)
  {
    assert a + b + c == b + c + a;
  }

  lemma IsDropped(vacant: set<nat>, live: set<nat>, dropping: set<nat>, id: nat, n: nat)
    requires ThreeWay(vacant, live, dropping, n) && id in live
    ensures id !in dropping && ThreeWay(vacant, live - {id}, dropping + {id}, n)
  {
    Rotate(vacant, live, dropping, n);
    IdPasses(live, dropping, vacant, id, n);
    Rotate(vacant, live - {id}, dropping + {id}, n);
  }

  lemma BecomesVacant(vacant: set<nat>, live: set<nat>, dropping: set<nat>, id: nat, n: nat)
    requires ThreeWay(vacant, live, dropping, n) && id in dropping
    ensures id < n && id !in vacant && ThreeWay(vacant + {id}, live, dropping - {id}, n)
  {
    Rotate(dropping, vacant, live, n);
    IdPasses(dropping, vacant, live, id, n);
    Rotate(dropping - {id}, vacant + {id}, live, n);
  }

  lemma DroppingChanges(threads: seq<Pc>, t: nat, pc: Pc)
    requires t < |threads| && DropsUnique(threads)
    requires pc.Drops() && !(threads[t].Drops() && threads[t].id == pc.id) ==> pc.id !in Dropping(threads)
    ensures DropsUnique(threads[t := pc])
    ensures Dropping(threads[t := pc]) ==
              Dropping(threads) - (if threads[t].Drops() then {threads[t].id} else {})
              + (if pc.Drops() then {pc.id} else {})
  {
    var threads' := threads[t := pc];
    forall x | x in Dropping(threads) && !(threads[t].Drops() && threads[t].id == x)
      ensures x in Dropping(threads')
    {
      var u :| 0 <= u < |threads| && threads[u].Drops() && threads[u].id == x;
      assert threads'[u] == threads[u];
    }
    if pc.Drops() { assert threads'[t].Drops() && threads'[t].id == pc.id; }
  }

  lemma ElementsSplit(vacant: seq<nat>, id: nat)
    ensures Elements(vacant + [id]) == Elements(vacant) + {id}
    ensures vacant != [] ==> Elements(vacant) == Elements(vacant[1..]) + {vacant[0]}
  {
    if vacant != [] {
      assert vacant == [vacant[0]] + vacant[1..];
    }
  }

  /** A vacant queue that lacks an id has room for it. */
  lemma RoomForId(vacant: seq<nat>, id: nat, n: nat)
    requires Distinct(vacant) && Elements(vacant) <= Below(n) && id < n && id !in Elements(vacant)
    ensures |vacant| < n && Distinct(vacant + [id])
  {
    DistinctCount(vacant);
    assert Elements(vacant) <= Below(n) - {id};
    SubsetCount(Elements(vacant), Below(n) - {id});
    assert forall i | 0 <= i < |vacant| :: vacant[i] in Elements(vacant);
  }

  lemma FirstLeaves(vacant: seq<nat>)
    requires Distinct(vacant) && vacant != []
    ensures vacant[0] in Elements(vacant) && Elements(vacant[1..]) == Elements(vacant) - {vacant[0]}
    ensures Distinct(vacant[1..])
  {
    ElementsSplit(vacant, 0);
    assert vacant[0] !in vacant[1..];
  }

  lemma TakeKeepsIds(vacant: seq<nat>, live: set<nat>, threads: seq<Pc>, t: nat, pc: Pc, n: nat)
    requires IdsOk(vacant, live, threads, n) && vacant != [] && t < |threads| && !threads[t].Drops() && !pc.Drops()
    ensures IdsOk(vacant[1..], live + {vacant[0]}, threads[t := pc], n) && vacant[0] < n && vacant[0] !in live
  {
    SameDropping(threads, t, pc);
    FirstLeaves(vacant);
    IdPasses(Elements(vacant), live, Dropping(threads), vacant[0], n);
  }

  lemma InDropping(threads: seq<Pc>, t: nat)
    requires t < |threads| && threads[t].Drops()
    ensures threads[t].id in Dropping(threads)
  {
  }

  lemma GiveKeepsIds(vacant: seq<nat>, live: set<nat>, threads: seq<Pc>, t: nat, pc: Pc, n: nat)
    requires IdsOk(vacant, live, threads, n) && t < |threads| && threads[t].Drops() && !pc.Drops()
    ensures |vacant| < n && IdsOk(vacant + [threads[t].id], live, threads[t := pc], n)
  {
    var id := threads[t].id;
    DroppingChanges(threads, t, pc);
    InDropping(threads, t);
    BecomesVacant(Elements(vacant), live, Dropping(threads), id, n);
    ElementsSplit(vacant, id);
    assert Dropping(threads[t := pc]) == Dropping(threads) - {id};
    RoomForId(vacant, id, n);
  }

  lemma DropKeepsIds(vacant: seq<nat>, live: set<nat>, threads: seq<Pc>, t: nat, id: nat, n: nat)
    requires IdsOk(vacant, live, threads, n) && t < |threads| && !threads[t].Drops() && id in live
    ensures IdsOk(vacant, live - {id}, threads[t := CountFinished(id)], n)
  {
    IsDropped(Elements(vacant), live, Dropping(threads), id, n);
    DroppingChanges(threads, t, CountFinished(id));
    assert Dropping(threads[t := CountFinished(id)]) == Dropping(threads) + {id};
  }

  lemma SameDropping(threads: seq<Pc>, t: nat, pc: Pc)
    requires t < |threads| && DropsUnique(threads)
    requires threads[t].Drops() == pc.Drops() && (pc.Drops() ==> pc.id == threads[t].id)
    ensures DropsUnique(threads[t := pc]) && Dropping(threads[t := pc]) == Dropping(threads)
  {
    var threads' := threads[t := pc];
    forall x | x in Dropping(threads)
      ensures x in Dropping(threads')
    {
      var u :| 0 <= u < |threads| && threads[u].Drops() && threads[u].id == x;
      assert threads'[u].Drops() && threads'[u].id == x;
    }
  }

  lemma SameKeepsIds(vacant: seq<nat>, live: set<nat>, threads: seq<Pc>, t: nat, pc: Pc, n: nat)
    requires IdsOk(vacant, live, threads, n) && t < |threads|
    requires threads[t].Drops() == pc.Drops() && (pc.Drops() ==> pc.id == threads[t].id)
    ensures IdsOk(vacant, live, threads[t := pc], n)
  {
    SameDropping(threads, t, pc);
  }

  /** An event of a thread leaves the ids alone, takes one, makes one vacant, or begins to drop one. */
  ghost predicate IdMove(vacant: seq<nat>, live: set<nat>, pc: Pc, vacant': seq<nat>, live': set<nat>, pc': Pc,
                         n: nat) {
    if pc.Drops() && !pc'.Drops() then live' == live && vacant' == if |vacant| < n then vacant + [pc.id] else vacant
    else if !pc.Drops() && pc'.Drops() then
      vacant' == vacant && pc'.id in live && live' == live - {pc'.id} && pc' == CountFinished(pc'.id)
    else
      && (pc.Drops() ==> pc'.id == pc.id)
      && ((vacant' == vacant && live' == live)
          || (!pc.Drops() && vacant != [] && vacant' == vacant[1..] && live' == live + {vacant[0]}))
  }

  lemma NextIdMove(r: Registry, e: Event)
    requires e.t < |r.threads|
    ensures var (r', t) := (Next(r, e), e.t);
      && |r'.usedStreams| == |r.usedStreams|
      && |r'.threads| == |r.threads| && r'.threads == r.threads[t := r'.threads[t]]
      && IdMove(r.vacant, r.live, r.threads[t], r'.vacant, r'.live, r'.threads[t], |r.usedStreams|)
  {
  }

  lemma MoveKeepsIds(vacant: seq<nat>, live: set<nat>, threads: seq<Pc>, t: nat, vacant': seq<nat>, live': set<nat>,
                     pc': Pc, n: nat)
    requires IdsOk(vacant, live, threads, n) && t < |threads|
    requires IdMove(vacant, live, threads[t], vacant', live', pc', n)
    ensures IdsOk(vacant', live', threads[t := pc'], n)
  {
    var pc := threads[t];
    if pc.Drops() && !pc'.Drops() { GiveKeepsIds(vacant, live, threads, t, pc', n); }
    else if !pc.Drops() && pc'.Drops() { DropKeepsIds(vacant, live, threads, t, pc'.id, n); }
    else if vacant' == vacant && live' == live { SameKeepsIds(vacant, live, threads, t, pc', n); }
    else { TakeKeepsIds(vacant, live, threads, t, pc', n); }
  }

  lemma NextKeepsIds(r: Registry, e: Event)
    requires IdsOk(r.vacant, r.live, r.threads, |r.usedStreams|)
    ensures IdsOk(Next(r, e).vacant, Next(r, e).live, Next(r, e).threads, |r.usedStreams|)
    ensures |Next(r, e).usedStreams| == |r.usedStreams| && |Next(r, e).threads| == |r.threads|
  {
    if e.t < |r.threads| {
      NextIdMove(r, e);
      var r' := Next(r, e);
      MoveKeepsIds(r.vacant, r.live, r.threads, e.t, r'.vacant, r'.live, r'.threads[e.t], |r.usedStreams|);
    }
  }

  // ---------------------------------------------------------------------------------------
  // The list

  ghost predicate LockOk(r: Registry) {
    forall t | 0 <= t < |r.threads| :: r.threads[t].HoldsLock() <==> r.lock == Some(t)
  }

  /** What is written so far of the list is in place. */
  ghost predicate WrittenOk(r: Registry) {
    forall t | 0 <= t < |r.threads| && r.threads[t].Writing? ::
      var (list, next) := (r.threads[t].list, r.threads[t].next);
      |list| == |r.usedStreams| && next <= |list| && r.usedStreams[..next] == list[..next]
  }

  ghost predicate SomeoneWillPeek(r: Registry) {
    exists t :: 0 <= t < |r.threads| && r.threads[t].WillPeek()
  }

  ghost predicate NobodyWrites(r: Registry) {
    forall t | 0 <= t < |r.threads| :: !r.threads[t].Writing?
  }

  /** The list the registry should show. */
  ghost function Due(r: Registry): seq<nat> {
    Padded(Elements(r.vacant), |r.usedStreams|)
  }

  /**
   Unless somebody will read the vacant ids again, whoever is writing writes the right list, and
   if nobody is, the list is right.
   */
  ghost predicate ListOk(r: Registry) {
    !SomeoneWillPeek(r) ==>
      && (forall t | 0 <= t < |r.threads| && r.threads[t].Writing? :: r.threads[t].list == Due(r))
      && (NobodyWrites(r) ==> r.usedStreams == Due(r))
  }

  ghost predicate TableOk(r: Registry) {
    LockOk(r) && WrittenOk(r) && ListOk(r)
  }

  /** An event that leaves the list and the vacant ids alone, and does not end a rebuild. */
  lemma QuietStep(r: Registry, t: nat, pc: Pc, r': Registry)
    requires TableOk(r) && t < |r.threads| && !pc.Writing? && !r.threads[t].HoldsLock() && !pc.HoldsLock()
    requires r'.threads == r.threads[t := pc] && r'.usedStreams == r.usedStreams && r'.lock == r.lock
    requires pc.WillPeek() || (r'.vacant == r.vacant && !r.threads[t].WillPeek())
    ensures TableOk(r')
  {
    if pc.WillPeek() {
      assert r'.threads[t].WillPeek();
    } else if SomeoneWillPeek(r) {
      var u :| 0 <= u < |r.threads| && r.threads[u].WillPeek();
      assert r'.threads[u].WillPeek();
    }
  }

  lemma LockStep(r: Registry, t: nat)
    requires TableOk(r) && t < |r.threads| && r.threads[t].Locking?
    ensures TableOk(StepNext(r, t))
  {
    if r.lock.None? { assert StepNext(r, t).threads[t].WillPeek(); }
  }

  /** Only the holder of the lock peeks, writes or unlocks. */
  lemma AloneInLock(r: Registry, t: nat)
    requires LockOk(r) && t < |r.threads| && r.threads[t].HoldsLock()
    ensures forall u | 0 <= u < |r.threads| && u != t :: !r.threads[u].HoldsLock()
  {
  }

  lemma PeekStep(r: Registry, t: nat)
    requires TableOk(r) && t < |r.threads| && r.threads[t].Peeking?
    ensures TableOk(StepNext(r, t))
  {
    AloneInLock(r, t);
  }

  lemma WriteStep(r: Registry, t: nat)
    requires TableOk(r) && t < |r.threads| && r.threads[t].Writing?
    ensures TableOk(StepNext(r, t))
  {
    AloneInLock(r, t);
    var (r', list, next) := (StepNext(r, t), r.threads[t].list, r.threads[t].next);
    if SomeoneWillPeek(r) {
      var u :| 0 <= u < |r.threads| && r.threads[u].WillPeek();
      assert r'.threads[u].WillPeek();
    }
    if next < |list| {
      assert r'.usedStreams[..next + 1] == r.usedStreams[..next] + [list[next]];
      assert list[..next + 1] == list[..next] + [list[next]];
    } else {
      assert r.usedStreams[..next] == r.usedStreams && list[..next] == list;
    }
  }

  lemma UnlockStep(r: Registry, t: nat)
    requires TableOk(r) && t < |r.threads| && r.threads[t].Unlocking?
    ensures TableOk(StepNext(r, t))
  {
    AloneInLock(r, t);
    if SomeoneWillPeek(r) {
      var u :| 0 <= u < |r.threads| && r.threads[u].WillPeek();
      assert StepNext(r, t).threads[u].WillPeek();
    }
  }

  lemma NextKeepsTable(r: Registry, e: Event)
    requires TableOk(r)
    ensures TableOk(Next(r, e))
  {
    if e.t < |r.threads| {
      var (t, pc) := (e.t, r.threads[e.t]);
      if e.Step? && pc.Locking? { LockStep(r, t); }
      else if e.Step? && pc.Peeking? { PeekStep(r, t); }
      else if e.Step? && pc.Writing? { WriteStep(r, t); }
      else if e.Step? && pc.Unlocking? { UnlockStep(r, t); }
      else if Next(r, e) != r { QuietStep(r, t, Next(r, e).threads[t], Next(r, e)); }
    }
  }

  // ---------------------------------------------------------------------------------------
  // The counts

  /** By how much `used_streams_count` is ahead of the ids taken because of one thread. */
  function Ahead(pc: Pc): int {
    match pc
    case Taking => 1
    case Giving(_) => -1
    case _ => 0
  }

  /** By how much the created less the finished streams are ahead of `used_streams_count`. */
  function Lead(pc: Pc): int {
    match pc
    case CountUsed => 1
    case CountUnused(_) => -1
    case _ => 0
  }

  ghost predicate CountsOk(r: Registry) {
    && r.usedCount == |r.usedStreams| - |r.vacant| + r.exhausted + Sum(Ahead, r.threads)
    && r.created - r.finished == r.usedCount + Sum(Lead, r.threads)
  }

  /** One event changes one thread, and by as much the differences between the counts. */
  lemma CountsFollow(r: Registry, e: Event)
    requires e.t < |r.threads|
    requires r.threads[e.t].Giving? ==> |r.vacant| < |r.usedStreams|
    ensures var (r', t) := (Next(r, e), e.t);
      && |r'.threads| == |r.threads| && r'.threads == r.threads[t := r'.threads[t]]
      && |r'.usedStreams| == |r.usedStreams|
      && r'.usedCount + |r'.vacant| - r'.exhausted - Ahead(r'.threads[t]) ==
           r.usedCount + |r.vacant| - r.exhausted - Ahead(r.threads[t])
      && r'.created - r'.finished - r'.usedCount - Lead(r'.threads[t]) ==
           r.created - r.finished - r.usedCount - Lead(r.threads[t])
  {
  }

  lemma NextKeepsCounts(r: Registry, e: Event)
    requires CountsOk(r) && IdsOk(r.vacant, r.live, r.threads, |r.usedStreams|)
    ensures CountsOk(Next(r, e))
  {
    if e.t < |r.threads| {
      var t := e.t;
      if r.threads[t].Giving? { GiveKeepsIds(r.vacant, r.live, r.threads, t, Locking, |r.usedStreams|); }
      CountsFollow(r, e);
      SumChanges(Ahead, r.threads, t, Next(r, e).threads[t]);
      SumChanges(Lead, r.threads, t, Next(r, e).threads[t]);
    }
  }

  // ---------------------------------------------------------------------------------------
  // Whole runs

  ghost predicate RegistryInv(r: Registry, n: nat) {
    && |r.usedStreams| == n
    && IdsOk(r.vacant, r.live, r.threads, n) && TableOk(r) && CountsOk(r)
  }

  lemma NobodyInside(threads: seq<Pc>)
    requires forall t | 0 <= t < |threads| :: threads[t].Outside?
    ensures Dropping(threads) == {} && DropsUnique(threads) && Sum(Ahead, threads) == 0 && Sum(Lead, threads) == 0
  {
    SumOfNone(Ahead, threads);
    SumOfNone(Lead, threads);
  }

  lemma AllVacantList(vacant: seq<nat>, list: seq<nat>)
    requires |list| == |vacant| && forall i | 0 <= i < |vacant| :: vacant[i] == i && list[i] == SENTINEL
    ensures Distinct(vacant) && Elements(vacant) == Below(|vacant|) && list == Padded(Elements(vacant), |vacant|)
  {
    AllVacant(vacant);
  }

  lemma StartIsOk(r: Registry)
    requires forall t | 0 <= t < |r.threads| :: r.threads[t].Outside?
    requires r.lock == None && r.live == {} && r.created == r.finished == r.usedCount == r.exhausted == 0
    requires Distinct(r.vacant) && Elements(r.vacant) == Below(|r.vacant|)
    requires |r.usedStreams| == |r.vacant| && r.usedStreams == Due(r)
    ensures RegistryInv(r, |r.vacant|)
  {
    NobodyInside(r.threads);
  }

  lemma NewIsOk(n: nat, threads: nat)
    ensures RegistryInv(New(n, threads), n)
  {
    AllVacantList(New(n, threads).vacant, New(n, threads).usedStreams);
    StartIsOk(New(n, threads));
  }

  lemma {:induction false} RunKeeps(n: nat, threads: nat, events: seq<Event>)
    ensures RegistryInv(Run(New(n, threads), events), n)
  {
    if events == [] {
      NewIsOk(n, threads);
    } else {
      RunKeeps(n, threads, events[..|events| - 1]);
      var (before, e) := (Run(New(n, threads), events[..|events| - 1]), events[|events| - 1]);
      NextKeepsIds(before, e);
      NextKeepsTable(before, e);
      NextKeepsCounts(before, e);
    }
  }

  /**
   In every interleaving of creations and drops: once none is under way, the list is the ascending
   sequence of the live ids followed by sentinels only, vacant and live ids partition all ids, and
   `used_streams_count` is created less finished streams, and the number of live ids exactly as
   long as no creation failed.
   */
  lemma QuietRegistryIsExact(n: nat, threads: nat, events: seq<Event>, r: Registry)
    requires r == Run(New(n, threads), events)
    requires forall t | 0 <= t < |r.threads| :: r.threads[t].Outside?
    ensures r.usedStreams == Padded(Elements(r.vacant), n)
    ensures Distinct(r.vacant) && Elements(r.vacant) !! r.live && Elements(r.vacant) + r.live == Below(n)
    ensures r.usedCount == r.created - r.finished
    ensures r.usedCount == |r.live| <==> r.exhausted == 0
  {
    RunKeeps(n, threads, events);
    NobodyInside(r.threads);
    DistinctCount(r.vacant);
    assert |Elements(r.vacant) + r.live| == |Elements(r.vacant)| + |r.live|;
  }

  /** In every interleaving, a creation takes an id that is not in use, and making an id vacant always has room. */
  lemma IdsAreExclusive(n: nat, threads: nat, events: seq<Event>, r: Registry, t: nat)
    requires r == Run(New(n, threads), events) && t < |r.threads|
    ensures r.threads[t].Taking? && r.vacant != [] ==> r.vacant[0] < n && r.vacant[0] !in r.live
    ensures r.threads[t].Giving? ==> |r.vacant| < n
  {
    RunKeeps(n, threads, events);
    if r.threads[t].Taking? && r.vacant != [] {
      TakeKeepsIds(r.vacant, r.live, r.threads, t, Locking, n);
    }
    if r.threads[t].Giving? { GiveKeepsIds(r.vacant, r.live, r.threads, t, Locking, n); }
  }
}
