/**
 The stream registry of every channel: `used_streams` is kept as the ascending complement of
 the vacant ids, rebuilt in place after each creation and each drop. One operation at a time;
 `RegistryMachine` has creations and drops that interleave, and `WakeUp` the wakers.
 */
module StreamsManager {
  import opened Counting
  import opened Wrappers
  import U32

  /** `u32::MAX`, the sentinel that ends the list of used streams early. */
  const SENTINEL: nat := 0xFFFF_FFFF

  // ---------------------------------------------------------------------------------------
  // The ascending complement

  /** The ids below `n` that are not vacant, in ascending order. */
  function Complement(vacant: set<nat>, n: nat): (used: seq<nat>)
    ensures |used| <= n
  {
    if n == 0 then [] else Complement(vacant, n - 1) + if n - 1 in vacant then [] else [n - 1]
  }

  ghost predicate Ascending(s: seq<nat>) {
    forall i, j | 0 <= i < j < |s| :: s[i] < s[j]
  }

  lemma {:induction false} ComplementIsExact(vacant: set<nat>, n: nat)
    ensures Ascending(Complement(vacant, n))
    ensures forall id: nat :: id in Complement(vacant, n) <==> id < n && id !in vacant
  {
    if n > 0 {
      ComplementIsExact(vacant, n - 1);
      var front := Complement(vacant, n - 1);
      assert forall i | 0 <= i < |front| :: front[i] in front;
    }
  }

  lemma {:induction false} ComplementLength(vacant: set<nat>, n: nat)
    requires vacant <= Below(n)
    ensures |Complement(vacant, n)| + |vacant| == n
    decreases n
  {
    if n == 0 {
      assert vacant == {};
    } else {
      var rest := vacant - {n - 1};
      assert rest <= Below(n - 1);
      ComplementLength(rest, n - 1);
      ComplementIgnores(vacant, n - 1, n - 1);
      assert |rest| == |vacant| - if n - 1 in vacant then 1 else 0;
    }
  }

  lemma {:induction false} ComplementIgnores(vacant: set<nat>, id: nat, n: nat)
    requires n <= id
    ensures Complement(vacant - {id}, n) == Complement(vacant, n)
  {
    if n > 0 {
      ComplementIgnores(vacant, id, n - 1);
    }
  }

  /** The part of the list before the first sentinel, as readers of `used_streams` take it. */
  function UntilSentinel(list: seq<nat>): seq<nat> {
    if list == [] || list[0] == SENTINEL then [] else [list[0]] + UntilSentinel(list[1..])
  }

  lemma {:induction false} UntilSentinelIsUsed(used: seq<nat>, padding: nat)
    requires forall i | 0 <= i < |used| :: used[i] != SENTINEL
    ensures UntilSentinel(used + seq(padding, _ => SENTINEL)) == used
  {
    var list := used + seq(padding, _ => SENTINEL);
    if used != [] {
      UntilSentinelIsUsed(used[1..], padding);
      assert list[1..] == used[1..] + seq(padding, _ => SENTINEL);
    }
  }

  // ---------------------------------------------------------------------------------------
  // `sort_unstable`

  function Insert(x: nat, s: seq<nat>): (r: seq<nat>)
    ensures Elements(r) == Elements(s) + {x} && |r| == |s| + 1
  {
    if s == [] then [x]
    else if x <= s[0] then InsertFront(x, s); [x] + s
    else InsertBehind(x, s); [s[0]] + Insert(x, s[1..])
  }

  lemma InsertFront(x: nat, s: seq<nat>)
    ensures Elements([x] + s) == Elements(s) + {x}
  {
    assert forall y :: y in [x] + s <==> y == x || y in s;
  }

  lemma InsertBehind(x: nat, s: seq<nat>)
    requires s != []
    ensures Elements(s) == Elements(s[1..]) + {s[0]}
    ensures forall r: seq<nat> :: Elements([s[0]] + r) == Elements(r) + {s[0]}
  {
    forall r: seq<nat>
      ensures Elements([s[0]] + r) == Elements(r) + {s[0]}
    {
      InsertFront(s[0], r);
    }
    assert s == [s[0]] + s[1..];
  }

  function Sort(s: seq<nat>): (r: seq<nat>)
    ensures Elements(r) == Elements(s) && |r| == |s|
  {
    if s == [] then [] else
    InsertBehind(0, s);
    Insert(s[0], Sort(s[1..]))
  }

  lemma {:induction false} InsertAscending(x: nat, s: seq<nat>)
    requires Ascending(s) && x !in s
    ensures Ascending(Insert(x, s))
  {
    if s != [] && x > s[0] {
      InsertAscending(x, s[1..]);
      var r := Insert(x, s[1..]);
      forall i | 0 <= i < |r|
        ensures s[0] < r[i]
      {
        assert r[i] in Elements(r);
        assert r[i] == x || r[i] in s[1..];
      }
    }
  }

  lemma {:induction false} SortAscending(s: seq<nat>)
    requires Distinct(s)
    ensures Ascending(Sort(s))
  {
    if s != [] {
      SortAscending(s[1..]);
      assert s[0] !in Elements(s[1..]);
      assert s[0] !in Elements(Sort(s[1..]));
      InsertAscending(s[0], Sort(s[1..]));
    }
  }

  lemma SortedIds(s: seq<nat>, n: nat)
    requires Distinct(s) && Elements(s) <= Below(n)
    ensures Ascending(Sort(s)) && Elements(Sort(s)) == Elements(s)
    ensures forall j | 0 <= j < |Sort(s)| :: Sort(s)[j] < n
  {
    SortAscending(s);
    var sorted := Sort(s);
    assert Elements(sorted) == Elements(s);
    AllBelow(sorted, n);
  }

  lemma AllBelow(s: seq<nat>, n: nat)
    requires Elements(s) <= Below(n)
    ensures forall j | 0 <= j < |s| :: s[j] < n
  {
    forall j | 0 <= j < |s|
      ensures s[j] < n
    {
      assert s[j] in Elements(s);
      assert s[j] in Below(n);
    }
  }

  /** `vacant.sort_unstable()`, for distinct ids below `n`. */
  method SortUnstable(s: seq<nat>, ghost n: nat) returns (sorted: seq<nat>)
    requires Distinct(s) && Elements(s) <= Below(n)
    ensures Ascending(sorted) && Elements(sorted) == Elements(s)
    ensures forall j | 0 <= j < |sorted| :: sorted[j] < n
  {
    sorted := Sort(s);
    SortedIds(s, n);
  }

  // ---------------------------------------------------------------------------------------

  /** `used_streams` as a whole: the ascending complement, then sentinels only. */
  function Padded(vacant: set<nat>, n: nat): (list: seq<nat>)
    ensures |list| == n
  {
    Complement(vacant, n) + seq(n - |Complement(vacant, n)|, _ => SENTINEL)
  }

  lemma PaddedPrefix(vacant: set<nat>, n: nat)
    requires n <= SENTINEL
    ensures UntilSentinel(Padded(vacant, n)) == Complement(vacant, n)
  {
    ComplementIsExact(vacant, n);
    var used := Complement(vacant, n);
    forall i | 0 <= i < |used|
      ensures used[i] != SENTINEL
    {
      assert used[i] in used;
    }
    UntilSentinelIsUsed(used, n - |used|);
  }

  /** The iterator has handed out exactly the vacant ids below `i`. */
  ghost predicate Passed(sorted: seq<nat>, next: nat, i: nat) {
    && next <= |sorted|
    && (forall j | 0 <= j < next :: sorted[j] < i)
    && (forall j | next <= j < |sorted| :: i <= sorted[j])
  }

  /** No id from `i` up to the next one the iterator hands out is vacant. */
  lemma NoneVacantBefore(sorted: seq<nat>, next: nat, i: nat, upTo: nat)
    requires Ascending(sorted) && Passed(sorted, next, i)
    requires next < |sorted| ==> upTo == sorted[next]
    ensures forall id: nat | i <= id < upTo :: id !in Elements(sorted)
    ensures next < |sorted| ==> i <= upTo && Passed(sorted, next + 1, upTo + 1)
    ensures next == |sorted| ==> Passed(sorted, next, i + 1)
  {
  }

  lemma AllVacant(vacant: seq<nat>)
    requires forall i | 0 <= i < |vacant| :: vacant[i] == i
    ensures Distinct(vacant) && Elements(vacant) == Below(|vacant|) && Complement(Elements(vacant), |vacant|) == []
  {
    forall x | 0 <= x < |vacant|
      ensures x in vacant
    {
      assert vacant[x] == x;
    }
    ComplementLength(Elements(vacant), |vacant|);
  }

  /** Vacant and used ids are together all ids. */
  lemma UsedLength(vacant: seq<nat>, n: nat)
    requires Distinct(vacant) && Elements(vacant) <= Below(n)
    ensures |Complement(Elements(vacant), n)| + |vacant| == n
  {
    DistinctCount(vacant);
    ComplementLength(Elements(vacant), n);
  }

  lemma ComplementMember(vacant: set<nat>, n: nat, id: nat)
    ensures id in Complement(vacant, n) <==> id < n && id !in vacant
  {
    ComplementIsExact(vacant, n);
  }

  lemma FirstOfDistinct(s: seq<nat>)
    requires Distinct(s) && s != []
    ensures Distinct(s[1..]) && s == [s[0]] + s[1..]
    ensures Elements(s) == Elements(s[1..]) + {s[0]} && s[0] !in Elements(s[1..])
  {
    InsertFront(s[0], s[1..]);
  }

  /** The first vacant id passes to the used ones, which grow by one. */
  lemma FirstTaken(vacant: seq<nat>, n: nat)
    requires Distinct(vacant) && Elements(vacant) <= Below(n) && vacant != []
    ensures Distinct(vacant[1..]) && Elements(vacant[1..]) <= Below(n) && vacant[0] < n
    ensures vacant == [vacant[0]] + vacant[1..]
    ensures |Complement(Elements(vacant[1..]), n)| == |Complement(Elements(vacant), n)| + 1
    ensures vacant[0] in Complement(Elements(vacant[1..]), n) && vacant[0] !in Complement(Elements(vacant), n)
  {
    FirstOfDistinct(vacant);
    UsedLength(vacant, n);
    UsedLength(vacant[1..], n);
    ComplementMember(Elements(vacant), n, vacant[0]);
    ComplementMember(Elements(vacant[1..]), n, vacant[0]);
    assert vacant[0] in Below(n);
  }

  /** A used id becomes the last vacant one, and the used ones shrink by one. */
  lemma LastGiven(vacant: seq<nat>, id: nat, n: nat)
    requires Distinct(vacant) && Elements(vacant) <= Below(n) && id in Complement(Elements(vacant), n)
    ensures id < n && |vacant| < n && Distinct(vacant + [id]) && Elements(vacant + [id]) <= Below(n)
    ensures Elements(vacant + [id]) == Elements(vacant) + {id}
    ensures |Complement(Elements(vacant + [id]), n)| == |Complement(Elements(vacant), n)| - 1
  {
    ComplementIsExact(Elements(vacant), n);
    assert id !in Elements(vacant);
    assert Elements(vacant + [id]) == Elements(vacant) + {id};
    UsedLength(vacant, n);
    UsedLength(vacant + [id], n);
  }

  /** Entry `i` of the list is a used id, or the sentinel exactly when the used ids end before it. */
  lemma UsedEntry(vacant: seq<nat>, n: nat, i: nat)
    requires i < n < SENTINEL
    ensures var (list, used) := (Padded(Elements(vacant), n), Complement(Elements(vacant), n));
      if i < |used| then list[i] == used[i] < n && list[i] != SENTINEL else list[i] == SENTINEL
  {
    ComplementIsExact(Elements(vacant), n);
    var used := Complement(Elements(vacant), n);
    if i < |used| { assert used[i] in used; }
  }

  /** Used ids do not repeat: the next entry is none of those before it. */
  lemma UsedNext(vacant: seq<nat>, n: nat, from: nat, i: nat)
    requires from <= i < |Complement(Elements(vacant), n)|
    ensures var used := Complement(Elements(vacant), n);
      used[i] !in used[from..i] && used[from..i + 1] == used[from..i] + [used[i]]
  {
    ComplementIsExact(Elements(vacant), n);
    var used := Complement(Elements(vacant), n);
    assert forall j | from <= j < i :: used[j] < used[i];
  }

  /** The task behind the waker of stream `id`, if it registered one. */
  function Waked(wakers: seq<Option<nat>>, id: nat): seq<nat> {
    if id < |wakers| && wakers[id].Some? then [wakers[id].value] else []
  }

  /** The tasks behind the wakers of the streams `ids`, in that order. */
  function WakedAll(ids: seq<nat>, wakers: seq<Option<nat>>): seq<nat> {
    if ids == [] then [] else WakedAll(ids[..|ids| - 1], wakers) + Waked(wakers, ids[|ids| - 1])
  }

  /** The first `i` used streams were told to end and woken, and no other. */
  ghost predicate CancelledUpTo(used: seq<nat>, i: nat, was: seq<bool>, now: seq<bool>, wakers: seq<Option<nat>>,
                                before: seq<nat>, after: seq<nat>) {
    && i <= |used| && |now| == |was|
    && (forall id | 0 <= id < |was| :: now[id] == (was[id] && id !in used[..i]))
    && after == before + WakedAll(used[..i], wakers)
  }

  lemma CancelledNext(used: seq<nat>, i: nat, was: seq<bool>, now: seq<bool>, wakers: seq<Option<nat>>,
                      before: seq<nat>, after: seq<nat>)
    requires CancelledUpTo(used, i, was, now, wakers, before, after) && i < |used| && used[i] < |was|
    ensures CancelledUpTo(used, i + 1, was, now[used[i] := false], wakers, before, after + Waked(wakers, used[i]))
  {
    WakedNext(used, i, wakers);
    Regroup(before, WakedAll(used[..i], wakers), Waked(wakers, used[i]));
    assert used[..i + 1] == used[..i] + [used[i]];
  }

  lemma WakedNext(used: seq<nat>, i: nat, wakers: seq<Option<nat>>)
    requires i < |used|
    ensures WakedAll(used[..i + 1], wakers) == WakedAll(used[..i], wakers) + Waked(wakers, used[i])
  {
    assert used[..i + 1][..i] == used[..i];
  }

  /** What runs the tasks: the wake-ups it was asked for so far, in order. */
  class Executor {
    var wakeUps: seq<nat>

    constructor ()
      ensures wakeUps == []
    {
      wakeUps := [];
    }

    method Wake(task: nat)
      modifies this
      ensures wakeUps == old(wakeUps) + [task]
    {
      wakeUps := wakeUps + [task];
    }
  }

  class StreamsManagerBase {
    const maxStreams: nat
    var vacantStreams: seq<nat>
    const usedStreams: array<nat>
    var usedStreamsCount: nat
    var createdStreamsCount: nat
    var finishedStreamsCount: nat
    const wakers: array<Option<nat>>
    const keepStreamsRunning: array<bool>

    /** How many streams were ever created and finished, and how many creations found no vacant id. */
    ghost var created: nat
    ghost var finished: nat
    ghost var exhausted: nat

    const executor: Executor

    ghost predicate Valid()
      reads this, usedStreams
    {
      && 0 < maxStreams < SENTINEL
      && usedStreams.Length == wakers.Length == keepStreamsRunning.Length == maxStreams
      && Distinct(vacantStreams) && Elements(vacantStreams) <= Below(maxStreams)
      && usedStreams[..] == Padded(Elements(vacantStreams), maxStreams)
      && created == finished + |Used()| + exhausted
      && Counted()
    }

    /** The `u32` counts are what `created` and `finished` wrap to. */
    ghost predicate Counted()
      reads this
    {
      && finished <= created
      && createdStreamsCount == U32.Wrap(created) && finishedStreamsCount == U32.Wrap(finished)
      && usedStreamsCount == U32.Wrap(created - finished)
    }

    method CountCreated()
      requires Counted()
      modifies this`createdStreamsCount, this`usedStreamsCount, this`created
      ensures Counted() && created == old(created) + 1
    {
      U32.NextWraps(created);
      U32.NextWraps(created - finished);
      createdStreamsCount := U32.Wrap(createdStreamsCount + 1);
      usedStreamsCount := U32.Wrap(usedStreamsCount + 1);
      created := created + 1;
    }

    method CountFinished()
      requires Counted() && finished < created
      modifies this`finishedStreamsCount, this`usedStreamsCount, this`finished
      ensures Counted() && finished == old(finished) + 1
    {
      U32.NextWraps(finished);
      U32.NextWraps(created - finished - 1);
      finishedStreamsCount := U32.Wrap(finishedStreamsCount + 1);
      usedStreamsCount := U32.Wrap(usedStreamsCount - 1);
      finished := finished + 1;
    }

    /** The ids in use, ascending. */
    ghost function Used(): seq<nat>
      reads this
    {
      Complement(Elements(vacantStreams), maxStreams)
    }

    constructor (maxStreams: nat)
      requires 0 < maxStreams < SENTINEL
      ensures Valid() && fresh(usedStreams) && fresh(wakers) && fresh(keepStreamsRunning)
      ensures fresh(executor) && executor.wakeUps == []
      ensures this.maxStreams == maxStreams && Used() == [] && created == finished == exhausted == 0
      ensures |vacantStreams| == maxStreams && forall i | 0 <= i < maxStreams :: vacantStreams[i] == i
    {
      this.maxStreams := maxStreams;
      vacantStreams := seq(maxStreams, i => i);
      usedStreams := new nat[maxStreams](_ => SENTINEL);
      usedStreamsCount, createdStreamsCount, finishedStreamsCount := 0, 0, 0;
      wakers := new Option<nat>[maxStreams](_ => None);
      keepStreamsRunning := new bool[maxStreams](_ => false);
      created, finished, exhausted := 0, 0, 0;
      executor := new Executor();
      new;
      AllVacant(vacantStreams);
      assert usedStreams[..] == seq(maxStreams, _ => SENTINEL);
    }

    /**
     Takes the longest-vacant id into use. `None` stands for the panic of a registry that has no
     vacant id left: by then both counts are raised already.
     */
    method CreateStreamId() returns (streamId: Option<nat>)
      requires Valid()
      modifies this`vacantStreams, this`usedStreamsCount, this`createdStreamsCount, this`created, this`exhausted
      modifies usedStreams, keepStreamsRunning
      ensures Valid() && created == old(created) + 1
      ensures streamId.None? <==> |old(Used())| == maxStreams
      ensures streamId.None? ==> vacantStreams == old(vacantStreams) && exhausted == old(exhausted) + 1
                                 && keepStreamsRunning[..] == old(keepStreamsRunning[..])
      ensures streamId.Some? ==>
                && streamId.value < maxStreams
                && old(vacantStreams) == [streamId.value] + vacantStreams && exhausted == old(exhausted)
                && streamId.value in Used() && streamId.value !in old(Used())
                && keepStreamsRunning[..] == old(keepStreamsRunning[..])[streamId.value := true]
    {
      UsedLength(vacantStreams, maxStreams);
      CountCreated();
      if vacantStreams == [] {
        exhausted := exhausted + 1;
        return None;
      }
      var id := vacantStreams[0];
      FirstTaken(vacantStreams, maxStreams);
      vacantStreams := vacantStreams[1..];
      keepStreamsRunning[id] := true;
      SyncVacantAndUsedStreams();
      return Some(id);
    }

    /** Makes a used id vacant again; the queue of vacant ids always has room for it. */
    method ReportStreamDropped(streamId: nat)
      requires Valid() && streamId < maxStreams && streamId in Used()
      modifies this`vacantStreams, this`usedStreamsCount, this`finishedStreamsCount, this`finished
      modifies usedStreams, wakers
      ensures Valid() && finished == old(finished) + 1
      ensures vacantStreams == old(vacantStreams) + [streamId]
      ensures wakers[..] == old(wakers[..])[streamId := None]
    {
      LastGiven(vacantStreams, streamId, maxStreams);
      wakers[streamId] := None;
      CountFinished();
      PublishVacant(streamId);
      SyncVacantAndUsedStreams();
    }

    /** The publish of a vacant id, whose result the original does not look at. */
    method PublishVacant(streamId: nat)
      requires |vacantStreams| < maxStreams
      modifies this`vacantStreams
      ensures vacantStreams == old(vacantStreams) + [streamId]
    {
      if |vacantStreams| < maxStreams {
        vacantStreams := vacantStreams + [streamId];
      }
    }

    /**
     `used_streams_count` is the length of the list up to the first sentinel exactly as long as
     no creation ever failed: each failed one leaves it one too high.
     */
    method RunningStreamsCount() returns (count: nat)
      requires Valid()
      ensures count == U32.Wrap(|Used()| + exhausted)
      ensures UntilSentinel(usedStreams[..]) == Used()
      ensures |Used()| + exhausted < 0x1_0000_0000 ==>
                (count == |UntilSentinel(usedStreams[..])| <==> exhausted == 0)
    {
      PaddedPrefix(Elements(vacantStreams), maxStreams);
      if |Used()| + exhausted < 0x1_0000_0000 { U32.Injective(|Used()| + exhausted, |Used()|); }
      count := usedStreamsCount;
    }

    /** Wakes the task that polls a stream, if it registered a waker. A second look, under the lock, sees the same. */
    method WakeStream(streamId: nat)
      requires streamId < wakers.Length
      modifies executor
      ensures executor.wakeUps == old(executor.wakeUps) + Waked(wakers[..], streamId)
    {
      match wakers[streamId] {
        case Some(task) => executor.Wake(task);
        case None =>
      }
    }

    /** Registers the waker a stream is polled with, and wakes it at once if it is not the one known already. */
    method RegisterStreamWaker(streamId: nat, waker: nat)
      requires Valid() && streamId < maxStreams
      modifies executor, wakers
      ensures Valid()
      ensures wakers[..] == old(wakers[..])[streamId := Some(waker)]
      ensures executor.wakeUps ==
                old(executor.wakeUps) + if old(wakers[streamId]) == Some(waker) then [] else [waker]
    {
      if wakers[streamId] != Some(waker) {
        wakers[streamId] := Some(waker);
        executor.Wake(waker);
      }
    }

    /** Tells one stream to end, and wakes it to see so. */
    method CancelStream(streamId: nat)
      requires Valid() && streamId < maxStreams
      modifies keepStreamsRunning, executor
      ensures Valid()
      ensures keepStreamsRunning[..] == old(keepStreamsRunning[..])[streamId := false]
      ensures executor.wakeUps == old(executor.wakeUps) + Waked(wakers[..], streamId)
    {
      keepStreamsRunning[streamId] := false;
      WakeStream(streamId);
    }

    /** Tells every used stream to end, and no other, by reading the list up to the first sentinel, and wakes each. */
    method CancelAllStreams()
      requires Valid()
      modifies keepStreamsRunning, executor
      ensures Valid()
      ensures forall id | 0 <= id < maxStreams ::
                keepStreamsRunning[id] == (old(keepStreamsRunning[id]) && id !in Used())
      ensures executor.wakeUps == old(executor.wakeUps) + WakedAll(Used(), wakers[..])
    {
      ghost var (used, was, before) := (Used(), keepStreamsRunning[..], executor.wakeUps);
      var i := 0;
      while i < usedStreams.Length
        invariant i <= |used|
        invariant CancelledUpTo(used, i, was, keepStreamsRunning[..], wakers[..], before, executor.wakeUps)
      {
        UsedEntry(vacantStreams, maxStreams, i);
        if usedStreams[i] == SENTINEL {
          break;
        }
        CancelledNext(used, i, was, keepStreamsRunning[..], wakers[..], before, executor.wakeUps);
        CancelStream(usedStreams[i]);
        i := i + 1;
      }
      assert i == |used| && used[..i] == used;
    }

    /** Writes the ids from `i` up to the next vacant one. */
    method AppendUsed(from: nat, to: nat, count: nat, ghost vacantIds: set<nat>) returns (count': nat)
      requires count <= from <= to <= usedStreams.Length
      requires usedStreams[..count] == Complement(vacantIds, from)
      requires forall id | from <= id < to :: id !in vacantIds
      modifies usedStreams
      ensures count' <= to && usedStreams[..count'] == Complement(vacantIds, to)
    {
      count' := count;
      var usedStreamId := from;
      while usedStreamId < to
        invariant from <= usedStreamId <= to && count' <= usedStreamId
        invariant usedStreams[..count'] == Complement(vacantIds, usedStreamId)
      {
        usedStreams[count'] := usedStreamId;
        count' := count' + 1;
        usedStreamId := usedStreamId + 1;
      }
    }

    method FillSentinels(from: nat)
      requires from <= usedStreams.Length
      modifies usedStreams
      ensures usedStreams[..] == old(usedStreams[..from]) + seq(usedStreams.Length - from, _ => SENTINEL)
    {
      var i := from;
      while i < usedStreams.Length
        invariant from <= i <= usedStreams.Length
        invariant usedStreams[..i] == old(usedStreams[..from]) + seq(i - from, _ => SENTINEL)
      {
        usedStreams[i] := SENTINEL;
        i := i + 1;
      }
    }

    /** Rebuilds `used_streams` from the vacant ids, whatever order they are in. */
    method SyncVacantAndUsedStreams()
      requires usedStreams.Length == maxStreams
      requires Distinct(vacantStreams) && Elements(vacantStreams) <= Below(maxStreams)
      modifies usedStreams
      ensures usedStreams[..] == Padded(Elements(vacantStreams), maxStreams)
    {
      ghost var vacantIds := Elements(vacantStreams);
      var vacant := SortUnstable(vacantStreams, maxStreams);
      var next: nat := 0;
      var i: nat := 0;
      var count: nat := 0;          // last_used_stream_id + 1
      while i < maxStreams
        invariant count <= i <= maxStreams
        invariant Passed(vacant, next, i)
        invariant usedStreams[..count] == Complement(vacantIds, i)
        decreases maxStreams - i
      {
        var upTo := if next < |vacant| then vacant[next] else i + 1;
        NoneVacantBefore(vacant, next, i, upTo);
        count := AppendUsed(i, upTo, count, vacantIds);
        if next < |vacant| {
          assert vacant[next] in Elements(vacant);
          i := upTo + 1;
          next := next + 1;
        } else {
          i := upTo;
        }
      }
      FillSentinels(count);
    }
  }
}
