/**
 What becomes of the slots of the fan-out channel: a slot that one thread is sending can be brought
 back to the allocator if and only if no reference to it was lost.
 */
module FanOutDrain {
  import opened Counting
  import opened Wrappers
  import opened RingMachine
  import opened RingInvariant
  import opened RingTheorems
  import opened RingFifo
  import opened CopyRing
  import opened LoneCalls
  import opened RingProgress
  import opened FanOutMachine
  import opened FanOutCounts
  import U32

  // ---------------------------------------------------------------------------------------
  // A dispatcher with nobody inside

  lemma RealComesOut(r: Ring<nat>) returns (more: seq<Action<nat>>)
    requires Real(r)
    ensures |r.buffer| > 0 && Plain(more) && Outside(Exec(Wrapping, r, more))
  {
    var g :| Pictures(r, g);
    more := EverybodyComesOut(g);
    FollowWraps(g, more);
  }

  lemma PictureIsQuiet(r: Ring<nat>, g: Traced<nat>)
    requires Pictures(r, g) && Outside(r)
    ensures r.enqueuerTail == r.tail && r.dequeuerHead == r.head
  {
    forall t | 0 <= t < |g.ring.threads|
      ensures g.ring.threads[t].Idle?
    {
      assert r.threads[t] == WrapPc(g.ring.threads[t]);
    }
    QuietHasNoClaims(g);
  }

  /** No id is claimed. */
  lemma RealIsQuiet(r: Ring<nat>)
    requires Real(r) && Outside(r)
    ensures 0 < |r.buffer| < 0x8000_0000 && |Contents(r)| <= |r.buffer|
    ensures r.enqueuerTail == r.tail && r.dequeuerHead == r.head
  {
    var g :| Pictures(r, g);
    PictureIsQuiet(r, g);
    RealContents(r);
  }

  lemma WrapDown(tail: nat, head: nat)
    requires 0 < U32.Wrap(tail - head) < 0x8000_0000
    ensures U32.Wrap(tail - U32.Wrap(head + 1)) == U32.Wrap(tail - head) - 1
    ensures Pending(Wrapping, tail, head) > 0
  {
    var laps := (tail - head) / 0x1_0000_0000 + (head + 1) / 0x1_0000_0000;
    U32.RemainderIs(tail - U32.Wrap(head + 1), 0x1_0000_0000, laps, U32.Wrap(tail - head) - 1);
  }

  lemma WrapUp(tail: nat, head: nat)
    requires U32.Wrap(tail - head) < 0x8000_0000
    ensures U32.Wrap(U32.Wrap(tail + 1) - head) == U32.Wrap(tail - head) + 1
  {
    var laps := (tail - head) / 0x1_0000_0000 - (tail + 1) / 0x1_0000_0000;
    U32.RemainderIs(U32.Wrap(tail + 1) - head, 0x1_0000_0000, laps, U32.Wrap(tail - head) + 1);
  }

  /** One item fewer. */
  lemma ContentsShrink(r: Ring<nat>)
    requires |r.buffer| > 0 && 0 < |Contents(r)| < 0x8000_0000
    ensures Pending(Wrapping, r.tail, r.head) > 0
    ensures |Contents(WithoutItem(Wrapping, r))| == |Contents(r)| - 1
  {
    ContentsCount(r);
    ContentsCount(WithoutItem(Wrapping, r));
    WrapDown(r.tail, r.head);
  }

  /** One item more. */
  lemma ContentsGrow(r: Ring<nat>, item: nat)
    requires |r.buffer| > 0 && |Contents(r)| < 0x8000_0000
    ensures Occupied(Wrapping, r.tail, r.head) == |Contents(r)|
    ensures |Contents(WithItem(Wrapping, r, item))| == |Contents(r)| + 1
  {
    ContentsCount(r);
    ContentsCount(WithItem(Wrapping, r, item));
    WrapUp(r.tail, r.head);
  }

  // ---------------------------------------------------------------------------------------
  // Runs of one dispatcher

  function Dispatches(stream: nat, actions: seq<Action<nat>>): seq<Event> {
    seq(|actions|, i requires 0 <= i < |actions| => Dispatcher(stream, actions[i]))
  }

  /** A dispatcher step only ever adds to a slot's handles. */
  ghost predicate Grown(s: Slot, s': Slot) {
    if !s.Live? then s' == s else s'.Live? && s'.handles >= s.handles && s' == s.(handles := s'.handles)
  }

  /** A copy in flight arrives, or is refused, which is counted; a sender without one stays where it is. */
  ghost predicate Carried(send: Send, send': Send, panicked: bool) {
    if send.Dispatching? && send.inFlight then
      || send' == send || send' == send.(next := send.next + 1, inFlight := false)
      || (panicked && send'.Panicking? && send'.id == send.id)
    else send' == send
  }

  ghost predicate Stirred(c: Channel, c': Channel) {
    && ChannelInv(c') && |c'.dispatchers| == |c.dispatchers|
    && c'.used == c.used && c'.failed == c.failed && c'.panics >= c.panics
    && |c'.slots| == |c.slots| && (forall id | 0 <= id < |c.slots| :: Grown(c.slots[id], c'.slots[id]))
    && |c'.senders| == |c.senders|
    && (forall t | 0 <= t < |c.senders| :: Carried(c.senders[t], c'.senders[t], c'.panics > c.panics))
  }

  lemma StirredTwice(c: Channel, c': Channel, c'': Channel)
    requires Stirred(c, c') && Stirred(c', c'')
    ensures Stirred(c, c'')
  {
  }

  lemma StepGrows(slots: seq<Slot>, o: Outcome<nat>)
    ensures |SlotsMoved(slots, o)| == |slots|
    ensures forall id | 0 <= id < |slots| :: Grown(slots[id], SlotsMoved(slots, o)[id])
  {
  }

  lemma SendCarried(send: Send, o: Outcome<nat>, used: seq<nat>, stream: nat)
    requires FlightFacts(send, false, 0, o, used, stream)
    ensures Carried(send, SendMoved(send, false, o, |used|), o.Refused?)
  {
  }

  lemma StepStirs(c: Channel, stream: nat, a: Action<nat>)
    requires ChannelInv(c) && Permitted(c, stream, a) && !a.CallPublish?
    ensures Stirred(c, DispatcherNext(c, stream, a))
  {
    var o := Observe(Wrapping, c.dispatchers[stream], a);
    DispatcherNextKeeps(c, stream, a);
    StepGrows(c.slots, o);
    if a.t < |c.senders| {
      StepFacts(c, stream, a);
      SendCarried(c.senders[a.t], o, c.used, stream);
    }
  }

  function IsRefusal(): Outcome<nat> -> int {
    (o: Outcome<nat>) => if o.Refused? then 1 else 0
  }

  /** How many of the outcomes are refusals. */
  function Refusals(seen: seq<Outcome<nat>>): int {
    Sum(IsRefusal(), seen)
  }

  predicate NoCalls(actions: seq<Action<nat>>) {
    forall i | 0 <= i < |actions| :: !actions[i].CallPublish? && !actions[i].Unleak?
  }

  lemma RunAppends(c: Channel, events: seq<Event>, e: Event)
    requires HasBuffers(c)
    ensures Run(Unbounded, c, events + [e]) == ChannelNext(Unbounded, Run(Unbounded, c, events), e)
  {
    assert (events + [e])[..|events|] == events;
  }

  lemma {:induction false} RunConcat(c: Channel, first: seq<Event>, second: seq<Event>)
    requires HasBuffers(c)
    ensures Run(Unbounded, c, first + second) == Run(Unbounded, Run(Unbounded, c, first), second)
  {
    if second == [] {
      assert first + second == first;
    } else {
      assert (first + second)[..|first + second| - 1] == first + second[..|second| - 1];
      RunConcat(c, first, second[..|second| - 1]);
    }
  }

  lemma LastDispatch(c: Channel, stream: nat, actions: seq<Action<nat>>)
    requires HasBuffers(c) && stream < |c.dispatchers| && NoCalls(actions) && actions != []
    ensures var c1 := Run(Unbounded, c, Dispatches(stream, actions[..|actions| - 1]));
      Run(Unbounded, c, Dispatches(stream, actions)) == DispatcherNext(c1, stream, actions[|actions| - 1])
  {
    var (front, a) := (actions[..|actions| - 1], actions[|actions| - 1]);
    assert Dispatches(stream, actions) == Dispatches(stream, front) + [Dispatcher(stream, a)];
    RunAppends(c, Dispatches(stream, front), Dispatcher(stream, a));
  }

  lemma {:induction false} RunStirs(c: Channel, stream: nat, actions: seq<Action<nat>>)
    requires ChannelInv(c) && stream < |c.dispatchers| && NoCalls(actions)
    ensures Stirred(c, Run(Unbounded, c, Dispatches(stream, actions)))
  {
    if actions == [] {
      assert Dispatches(stream, actions) == [];
    } else {
      var (front, a) := (actions[..|actions| - 1], actions[|actions| - 1]);
      RunStirs(c, stream, front);
      var c1 := Run(Unbounded, c, Dispatches(stream, front));
      LastDispatch(c, stream, actions);
      StepStirs(c1, stream, a);
      StirredTwice(c, c1, DispatcherNext(c1, stream, a));
    }
  }

  /** The ring goes through the actions, and its refusals are counted. */
  ghost predicate Executed(c: Channel, stream: nat, actions: seq<Action<nat>>, c': Channel) {
    && stream < |c.dispatchers| && |c.dispatchers[stream].buffer| > 0
    && c'.dispatchers == c.dispatchers[stream := Exec(Wrapping, c.dispatchers[stream], actions)]
    && c'.panics == c.panics + Refusals(History(Wrapping, c.dispatchers[stream], actions))
  }

  lemma OneMoreRefusal(seen: seq<Outcome<nat>>, o: Outcome<nat>)
    ensures Refusals(seen + [o]) == Refusals(seen) + if o.Refused? then 1 else 0
  {
    assert (seen + [o])[..|seen|] == seen;
  }

  /** What one action more does to the ring and its refusals. */
  lemma RingOnce(r: Ring<nat>, front: seq<Action<nat>>, a: Action<nat>)
    requires |r.buffer| > 0
    ensures var (r1, o) := (Exec(Wrapping, r, front), Observe(Wrapping, Exec(Wrapping, r, front), a));
      && Exec(Wrapping, r, front + [a]) == Next(Wrapping, r1, a)
      && Refusals(History(Wrapping, r, front + [a])) ==
           Refusals(History(Wrapping, r, front)) + if o.Refused? then 1 else 0
  {
    assert (front + [a])[..|front|] == front;
    OneMoreRefusal(History(Wrapping, r, front), Observe(Wrapping, Exec(Wrapping, r, front), a));
  }

  /** And to the channel. */
  lemma ChannelOnce(c: Channel, stream: nat, r1: Ring<nat>, a: Action<nat>)
    requires stream < |c.dispatchers| && c.dispatchers[stream] == r1 && |r1.buffer| > 0
    ensures var c' := DispatcherNext(c, stream, a);
      && c'.dispatchers == c.dispatchers[stream := Next(Wrapping, r1, a)]
      && c'.panics == c.panics + if Observe(Wrapping, r1, a).Refused? then 1 else 0
  {
  }

  lemma ExecutedOnce(c: Channel, stream: nat, front: seq<Action<nat>>, a: Action<nat>, c1: Channel)
    requires Executed(c, stream, front, c1)
    ensures |c1.dispatchers[stream].buffer| > 0
    ensures Executed(c, stream, front + [a], DispatcherNext(c1, stream, a))
  {
    RingOnce(c.dispatchers[stream], front, a);
    ChannelOnce(c1, stream, Exec(Wrapping, c.dispatchers[stream], front), a);
  }

  lemma {:induction false} RunExecutes(c: Channel, stream: nat, actions: seq<Action<nat>>)
    requires HasBuffers(c) && stream < |c.dispatchers| && NoCalls(actions)
    ensures Executed(c, stream, actions, Run(Unbounded, c, Dispatches(stream, actions)))
  {
    if actions == [] {
      assert Dispatches(stream, actions) == [];
      assert c.dispatchers[stream := c.dispatchers[stream]] == c.dispatchers;
    } else {
      var (front, a) := (actions[..|actions| - 1], actions[|actions| - 1]);
      RunExecutes(c, stream, front);
      LastDispatch(c, stream, actions);
      ExecutedOnce(c, stream, front, a, Run(Unbounded, c, Dispatches(stream, front)));
      assert front + [a] == actions;
    }
  }

  /** The channel after a run of one dispatcher. */
  ghost predicate Moved(c: Channel, stream: nat, actions: seq<Action<nat>>, c': Channel) {
    Stirred(c, c') && Executed(c, stream, actions, c')
  }

  lemma DispatcherRun(c: Channel, stream: nat, actions: seq<Action<nat>>)
    requires ChannelInv(c) && stream < |c.dispatchers| && NoCalls(actions)
    ensures Moved(c, stream, actions, Run(Unbounded, c, Dispatches(stream, actions)))
  {
    RunStirs(c, stream, actions);
    RunExecutes(c, stream, actions);
  }

  // ---------------------------------------------------------------------------------------
  // Channels whose dispatchers have nobody inside

  ghost predicate Ready(c: Channel) {
    ChannelInv(c) && |c.senders| > 0 && forall s | 0 <= s < |c.dispatchers| :: Outside(c.dispatchers[s])
  }

  /** How many items are queued in a dispatcher, and in all of them. */
  function QueueLength(): Ring<nat> -> int {
    (r: Ring<nat>) => if |r.buffer| > 0 then |Contents(r)| else 0
  }

  function Queues(c: Channel): int {
    Sum(QueueLength(), c.dispatchers)
  }

  /** A copy in flight is being published. */
  lemma InFlightPublishes(c: Channel, t: nat) returns (stream: nat)
    requires ChannelInv(c) && t < |c.senders| && c.senders[t].Dispatching? && c.senders[t].inFlight
    ensures stream < |c.dispatchers| && t < |c.dispatchers[stream].threads|
    ensures c.dispatchers[stream].threads[t].Publishing()
  {
    stream := c.used[c.senders[t].next];
    assert FlightTo(c.senders[t], c.used, stream);
  }

  /** With nobody inside, no copy is in flight. */
  lemma NothingInFlight(c: Channel, t: nat)
    requires Ready(c) && t < |c.senders| && c.senders[t].Dispatching?
    ensures !c.senders[t].inFlight && c.senders[t].next <= |c.used|
  {
    if c.senders[t].inFlight {
      var stream := InFlightPublishes(c, t);
      assert false;
    }
  }

  lemma StillReady(c: Channel, stream: nat, r: Ring<nat>, c': Channel)
    requires Ready(c) && Stirred(c, c') && stream < |c.dispatchers|
    requires c'.dispatchers == c.dispatchers[stream := r] && r.threads == c.dispatchers[stream].threads
    ensures Ready(c')
  {
  }

  /** Nothing but queues and handles changed, and nobody panicked. */
  ghost predicate Rounded(c: Channel, c': Channel, senders': seq<Send>, queues': int) {
    && Ready(c') && c'.used == c.used && c'.failed == c.failed && c'.panics == c.panics && c'.senders == senders'
    && |c'.slots| == |c.slots| && (forall id | 0 <= id < |c.slots| :: Grown(c.slots[id], c'.slots[id]))
    && |c'.dispatchers| == |c.dispatchers| && Queues(c') == queues'
  }

  lemma SameSendersAtRest(c: Channel, c': Channel)
    requires Ready(c) && Stirred(c, c')
    ensures c'.senders == c.senders
  {
    forall t | 0 <= t < |c.senders|
      ensures c'.senders[t] == c.senders[t]
    {
      if c.senders[t].Dispatching? { NothingInFlight(c, t); }
    }
  }

  /** A stream consumes its oldest copy. */
  lemma ConsumeRound(c: Channel, stream: nat) returns (events: seq<Event>)
    requires Ready(c) && stream < |c.dispatchers| && |c.dispatchers[stream].buffer| > 0
    requires Contents(c.dispatchers[stream]) != []
    ensures Rounded(c, Run(Unbounded, c, events), c.senders, Queues(c) - 1)
    ensures forall i | 0 <= i < |events| :: events[i].Dispatcher?
  {
    var (r, calls) := (c.dispatchers[stream], Undisturbed(CallConsume(0), 0));
    RealIsQuiet(r);
    ContentsShrink(r);
    events := Dispatches(stream, calls);
    LoneConsumeSucceeds(Wrapping, r, 0);
    DispatcherRun(c, stream, calls);
    var c' := Run(Unbounded, c, events);
    StillReady(c, stream, WithoutItem(Wrapping, r), c');
    SameSendersAtRest(c, c');
    SumChanges(QueueLength(), c.dispatchers, stream, WithoutItem(Wrapping, r));
    NoRefusals(Consumed(r.buffer[r.head % |r.buffer|]));
  }

  lemma NoRefusals(last: Outcome<nat>)
    requires !last.Refused?
    ensures Refusals(Learns(Silent, last)) == 0 && Refusals([Silent, Silent, Silent, last]) == 0
  {
    SumOfNone(IsRefusal(), Learns(Silent, last));
    SumOfNone(IsRefusal(), [Silent, Silent, Silent, last]);
  }

  // ---------------------------------------------------------------------------------------
  // A publish by a sender

  function FourSteps(t: nat): seq<Action<nat>> {
    var s := Step(t, false, false);
    [s, s, s, s]
  }

  /** Thread `t` passes its next copy to the dispatcher and goes through the publish undisturbed. */
  function PublishEvents(stream: nat, t: nat, id: nat): seq<Event> {
    [Dispatcher(stream, CallPublish(t, id))] + Dispatches(stream, FourSteps(t))
  }

  /** The event that passes the next copy to its dispatcher. */
  lemma OfferEvent(c: Channel, stream: nat, t: nat, id: nat)
    requires Ready(c) && DueAt(c, stream, t, id) && stream < |c.dispatchers|
    ensures var (a, r) := (CallPublish(t, id), c.dispatchers[stream]);
      var c1 := ChannelNext(Unbounded, c, Dispatcher(stream, a));
      && ChannelInv(c1) && |r.buffer| > 0
      && c1 == c.(dispatchers := c.dispatchers[stream := Next(Wrapping, r, a)],
                  senders := c.senders[t := c.senders[t].(inFlight := true)])
  {
    DispatcherNextKeeps(c, stream, CallPublish(t, id));
  }

  /** The ring before the call, and after the four steps that follow it. */
  lemma CallThenSteps(r: Ring<nat>, t: nat, id: nat, r': Ring<nat>, fourth: Outcome<nat>, fifth: Outcome<nat>)
    requires |r.buffer| > 0
    requires Exec(Wrapping, r, Undisturbed(CallPublish(t, id), t)) == r'
    requires History(Wrapping, r, Undisturbed(CallPublish(t, id), t)) == Learns(fourth, fifth)
    ensures var r1 := Next(Wrapping, r, CallPublish(t, id));
      |r1.buffer| > 0 && Exec(Wrapping, r1, FourSteps(t)) == r'
      && History(Wrapping, r1, FourSteps(t)) == [Silent, Silent, fourth, fifth]
  {
    var a: Action<nat> := CallPublish(t, id);
    NextKeepsShape(Wrapping, r, a);
    assert [a] + FourSteps(t) == Undisturbed(a, t);
    assert Exec(Wrapping, r, [a]) == Next(Wrapping, Exec(Wrapping, r, []), a);
    ExecConcat(Wrapping, r, [a], FourSteps(t));
    HistoryConcat(Wrapping, r, [a], FourSteps(t));
    assert |History(Wrapping, r, [a])| == 1;
    assert Learns(fourth, fifth)[1..] == [Silent, Silent, fourth, fifth];
  }

  lemma {:induction false} HistoryConcat(k: Counters, r: Ring<nat>, first: seq<Action<nat>>, second: seq<Action<nat>>)
    requires |r.buffer| > 0
    ensures History(k, r, first + second) == History(k, r, first) + History(k, Exec(k, r, first), second)
  {
    if second == [] {
      assert first + second == first;
    } else {
      var (all, front) := (first + second, second[..|second| - 1]);
      assert all[..|all| - 1] == first + front;
      HistoryConcat(k, r, first, front);
      ExecConcat(k, r, first, front);
    }
  }

  /** The channel after the call and the four steps. */
  lemma PublishRun(c: Channel, stream: nat, t: nat, id: nat) returns (c1: Channel)
    requires Ready(c) && DueAt(c, stream, t, id) && stream < |c.dispatchers|
    ensures |c.dispatchers[stream].buffer| > 0
    ensures c1 == c.(dispatchers := c.dispatchers[stream := Next(Wrapping, c.dispatchers[stream], CallPublish(t, id))],
                     senders := c.senders[t := c.senders[t].(inFlight := true)])
    ensures Moved(c1, stream, FourSteps(t), Run(Unbounded, c, PublishEvents(stream, t, id)))
  {
    OfferEvent(c, stream, t, id);
    var e := Dispatcher(stream, CallPublish(t, id));
    c1 := ChannelNext(Unbounded, c, e);
    RunAppends(c, [], e);
    assert [] + [e] == [e];
    DispatcherRun(c1, stream, FourSteps(t));
    RunConcat(c, [e], Dispatches(stream, FourSteps(t)));
  }

  /** With room in the queue, the copy arrives. */
  lemma PublishRound(c: Channel, stream: nat, t: nat, id: nat)
    requires Ready(c) && DueAt(c, stream, t, id) && stream < |c.dispatchers| && |c.dispatchers[stream].buffer| > 0
    requires |Contents(c.dispatchers[stream])| < |c.dispatchers[stream].buffer|
    ensures var c' := Run(Unbounded, c, PublishEvents(stream, t, id));
      && Rounded(c, c', c.senders[t := c.senders[t].(next := c.senders[t].next + 1)], Queues(c) + 1)
      && c'.dispatchers == c.dispatchers[stream := WithItem(Wrapping, c.dispatchers[stream], id)]
      && |Contents(c'.dispatchers[stream])| == |Contents(c.dispatchers[stream])| + 1
  {
    var r := c.dispatchers[stream];
    RealIsQuiet(r);
    ContentsGrow(r, id);
    LonePublishSucceeds(Wrapping, r, t, id);
    var last := Published(id, Occupied(Wrapping, r.tail, r.head) + 1);
    CallThenSteps(r, t, id, WithItem(Wrapping, r, id), Silent, last);
    NoRefusals(last);
    var c1 := PublishRun(c, stream, t, id);
    Arrived(c, stream, t, id, c1, Run(Unbounded, c, PublishEvents(stream, t, id)));
  }

  lemma Arrived(c: Channel, stream: nat, t: nat, id: nat, c1: Channel, c': Channel)
    requires Ready(c) && DueAt(c, stream, t, id) && stream < |c.dispatchers| && |c.dispatchers[stream].buffer| > 0
    requires |c1.dispatchers| == |c.dispatchers| && c1.dispatchers == c.dispatchers[stream := c1.dispatchers[stream]]
    requires c1.senders == c.senders[t := c.senders[t].(inFlight := true)]
    requires c1.slots == c.slots && c1.used == c.used && c1.failed == c.failed && c1.panics == c.panics
    requires Stirred(c1, c') && c'.panics == c1.panics
    requires c'.dispatchers == c1.dispatchers[stream := WithItem(Wrapping, c.dispatchers[stream], id)]
    requires |Contents(WithItem(Wrapping, c.dispatchers[stream], id))| == |Contents(c.dispatchers[stream])| + 1
    ensures Rounded(c, c', c.senders[t := c.senders[t].(next := c.senders[t].next + 1)], Queues(c) + 1)
    ensures c'.dispatchers == c.dispatchers[stream := WithItem(Wrapping, c.dispatchers[stream], id)]
  {
    var r' := WithItem(Wrapping, c.dispatchers[stream], id);
    assert c'.dispatchers == c.dispatchers[stream := r'];
    assert Ready(c');
    SumChanges(QueueLength(), c.dispatchers, stream, r');
    ArrivedSenders(c, t, c1, c');
  }

  lemma ArrivedSenders(c: Channel, t: nat, c1: Channel, c': Channel)
    requires Ready(c) && Ready(c') && t < |c.senders| && c.senders[t].Dispatching? && !c.senders[t].inFlight
    requires c1.senders == c.senders[t := c.senders[t].(inFlight := true)]
    requires Stirred(c1, c') && c'.panics == c1.panics
    ensures c'.senders == c.senders[t := c.senders[t].(next := c.senders[t].next + 1)]
  {
    forall u | 0 <= u < |c.senders|
      ensures c'.senders[u] == if u == t then c.senders[t].(next := c.senders[t].next + 1) else c.senders[u]
    {
      assert Carried(c1.senders[u], c'.senders[u], false);
      if c'.senders[u].Dispatching? { NothingInFlight(c', u); }
      if u != t && c.senders[u].Dispatching? { NothingInFlight(c, u); }
    }
  }

  // ---------------------------------------------------------------------------------------
  // Bringing a slot back

  /** How much a sender has left to do. */
  function Work(send: Send, id: nat, streams: nat): int {
    if send.Dispatching? && send.id == id then 2 * (streams - send.next) + 1 else 0
  }

  /** How much is left to do until the slot is back. */
  function Left(c: Channel, t: nat, id: nat): int
    requires t < |c.senders| && id < |c.slots| && c.slots[id].Live?
  {
    c.slots[id].refs + c.slots[id].owed + Queues(c) + Work(c.senders[t], id, |c.used|)
  }

  /** No thread but `t` is sending the slot. */
  ghost predicate SoleSender(senders: seq<Send>, t: nat, id: nat) {
    forall u | 0 <= u < |senders| && u != t :: !senders[u].Concerns(id)
  }

  /** A slot that lost no reference, whose owed copies can be made, and whose send is under way or over. */
  ghost predicate Returning(c: Channel, t: nat, id: nat) {
    && Ready(c) && t < |c.senders| && id < |c.slots| && c.slots[id].Live?
    && SoleSender(c.senders, t, id) && (Sending(c, t, id) || c.senders[t].NotSending?)
    && c.slots[id].lost == 0 && (c.slots[id].owed > 0 ==> c.slots[id].handles > 0)
  }

  /** Nearer to its return, or back. */
  ghost predicate Nearer(c: Channel, t: nat, id: nat, c': Channel)
    requires t < |c.senders| && id < |c.slots| && c.slots[id].Live?
  {
    && Ready(c') && |c'.slots| == |c.slots| && |c'.senders| == |c.senders|
    && (c'.slots[id].Live? ==> Returning(c', t, id) && Left(c', t, id) < Left(c, t, id))
  }

  /** Steps of dispatchers, and what thread `t` and the users of the slot do to bring it back. */
  predicate Returns(events: seq<Event>, t: nat, id: nat) {
    forall i | 0 <= i < |events| :: IsReturn(events[i], t, id)
  }

  predicate IsReturn(e: Event, t: nat, id: nat) {
    e.Dispatcher? || e == RawCopy(id) || e == FinishSend(t) || e == DropHandle(id)
  }

  lemma OwnEvent(c: Channel, e: Event, id: nat)
    requires Ready(c) && Target(c, e) == Some(id)
    ensures var c' := Run(Unbounded, c, [e]);
      Ready(c') && c' == TargetNext(Unbounded, c, e, id)
  {
    RunAppends(c, [], e);
    assert [] + [e] == [e];
    ChannelNextKeeps(c, e);
  }

  /** An event of the slot's thread or users that leaves the queues alone. */
  lemma StepNearer(c: Channel, t: nat, id: nat, c': Channel, s': Slot, send': Send)
    requires Returning(c, t, id) && Ready(c')
    requires c'.dispatchers == c.dispatchers && c'.used == c.used
    requires c'.senders == c.senders[t := send'] && c'.slots == c.slots[id := s']
    requires send' == c.senders[t] || send'.NotSending?
    requires s'.Live? ==> s'.lost == 0 && (s'.owed > 0 ==> s'.handles > 0)
    requires s'.Live? ==> s'.refs + s'.owed + Work(send', id, |c.used|) <
                          c.slots[id].refs + c.slots[id].owed + Work(c.senders[t], id, |c.used|)
    ensures Nearer(c, t, id, c')
  {
  }

  /** An event by a user of the slot brings it nearer if it uses up an owed copy, or a reference. */
  lemma UserNearer(c: Channel, t: nat, id: nat, e: Event, s': Slot)
    requires Returning(c, t, id) && Target(c, e) == Some(id) && !BySender(e)
    requires s' == SlotNext(Unbounded, c.slots[id], NotSending, e, |c.used|, c.failed, Lent(c.senders, id))
    requires s'.Live? ==> s'.lost == 0 && (s'.owed > 0 ==> s'.handles > 0)
    requires s'.Live? ==> s'.refs + s'.owed < c.slots[id].refs + c.slots[id].owed
    ensures Nearer(c, t, id, Run(Unbounded, c, [e]))
  {
    OwnEvent(c, e, id);
    assert c.senders[t := c.senders[t]] == c.senders;
    StepNearer(c, t, id, Run(Unbounded, c, [e]), s', c.senders[t]);
  }

  lemma MakeOwedCopy(c: Channel, t: nat, id: nat)
    requires Returning(c, t, id) && c.slots[id].owed > 0
    ensures Nearer(c, t, id, Run(Unbounded, c, [RawCopy(id)]))
  {
    var s := c.slots[id];
    UserNearer(c, t, id, RawCopy(id), s.(handles := s.handles + 1, owed := s.owed - 1));
  }

  lemma FinishNearer(c: Channel, t: nat, id: nat)
    requires Returning(c, t, id) && c.slots[id].owed == 0 && Sending(c, t, id) && c.senders[t].next == |c.used|
    ensures Nearer(c, t, id, Run(Unbounded, c, [FinishSend(t)]))
  {
    NothingInFlight(c, t);
    OwnEvent(c, FinishSend(t), id);
    StepNearer(c, t, id, Run(Unbounded, c, [FinishSend(t)]),
               if c.senders[t].borrowed then c.slots[id] else Unreference(Unbounded, c.slots[id]), NotSending);
  }

  lemma NotLent(senders: seq<Send>, t: nat, id: nat)
    requires t < |senders| && SoleSender(senders, t, id) && senders[t].NotSending?
    ensures Unsent(senders, id) && !Lent(senders, id)
  {
  }

  lemma DropNearer(c: Channel, t: nat, id: nat)
    requires Returning(c, t, id) && c.slots[id].owed == 0 && c.senders[t].NotSending? && c.slots[id].handles > 0
    ensures Nearer(c, t, id, Run(Unbounded, c, [DropHandle(id)]))
  {
    var s := c.slots[id];
    NotLent(c.senders, t, id);
    UserNearer(c, t, id, DropHandle(id), Unreference(Unbounded, s.(handles := s.handles - 1)));
  }

  lemma ConsumeNearer(c: Channel, t: nat, id: nat, stream: nat) returns (events: seq<Event>)
    requires Returning(c, t, id) && c.slots[id].owed == 0
    requires stream < |c.dispatchers| && |c.dispatchers[stream].buffer| > 0 && Contents(c.dispatchers[stream]) != []
    ensures Nearer(c, t, id, Run(Unbounded, c, events)) && Returns(events, t, id)
  {
    events := ConsumeRound(c, stream);
    assert Grown(c.slots[id], Run(Unbounded, c, events).slots[id]);
  }

  lemma SentIsNearer(c: Channel, t: nat, id: nat, c': Channel)
    requires Returning(c, t, id) && c.slots[id].owed == 0 && Sending(c, t, id) && c.senders[t].next < |c.used|
    requires Rounded(c, c', c.senders[t := c.senders[t].(next := c.senders[t].next + 1)], Queues(c) + 1)
    ensures Nearer(c, t, id, c')
  {
    assert Grown(c.slots[id], c'.slots[id]);
  }

  /** The next copy due, after making room for it if there is none. */
  lemma DispatchNearer(c: Channel, t: nat, id: nat) returns (events: seq<Event>)
    requires Returning(c, t, id) && c.slots[id].owed == 0 && Sending(c, t, id) && c.senders[t].next < |c.used|
    ensures Nearer(c, t, id, Run(Unbounded, c, events)) && Returns(events, t, id)
  {
    var stream := c.used[c.senders[t].next];
    NothingInFlight(c, t);
    RealIsQuiet(c.dispatchers[stream]);
    if |Contents(c.dispatchers[stream])| == |c.dispatchers[stream].buffer| {
      events := ConsumeNearer(c, t, id, stream);
    } else {
      PublishRound(c, stream, t, id);
      events := PublishEvents(stream, t, id);
      SentIsNearer(c, t, id, Run(Unbounded, c, events));
    }
  }

  /** A slot that nobody queues, sends or owes has its references in users' hands. */
  lemma AllInHands(c: Channel, t: nat, id: nat)
    requires Returning(c, t, id) && c.slots[id].owed == 0 && c.senders[t].NotSending?
    requires forall s | 0 <= s < |c.dispatchers| :: |c.dispatchers[s].buffer| > 0 && Contents(c.dispatchers[s]) == []
    ensures c.slots[id].handles > 0
  {
    forall s | 0 <= s < |c.dispatchers|
      ensures CopiesOf(id)(c.dispatchers[s]) == 0
    {
      SumOfNone(InHand(id), c.dispatchers[s].threads);
    }
    SumOfNone(CopiesOf(id), c.dispatchers);
    NotLent(c.senders, t, id);
    UnsentHasNoRefs(c.senders, id, |c.used|);
    assert SlotOk(c.slots[id], id, c.dispatchers, c.senders, |c.used|);
  }

  lemma ComesNearer(c: Channel, t: nat, id: nat) returns (events: seq<Event>)
    requires Returning(c, t, id)
    ensures Nearer(c, t, id, Run(Unbounded, c, events)) && Returns(events, t, id)
  {
    if c.slots[id].owed > 0 {
      MakeOwedCopy(c, t, id);
      events := [RawCopy(id)];
    } else if Sending(c, t, id) {
      NothingInFlight(c, t);
      if c.senders[t].next < |c.used| {
        events := DispatchNearer(c, t, id);
      } else {
        FinishNearer(c, t, id);
        events := [FinishSend(t)];
      }
    } else if s: nat :| s < |c.dispatchers| && Contents(c.dispatchers[s]) != [] {
      events := ConsumeNearer(c, t, id, s);
    } else {
      AllInHands(c, t, id);
      DropNearer(c, t, id);
      events := [DropHandle(id)];
    }
  }

  lemma LeftIsPositive(c: Channel, t: nat, id: nat)
    requires Returning(c, t, id)
    ensures Left(c, t, id) > 0
  {
    assert SlotOk(c.slots[id], id, c.dispatchers, c.senders, |c.used|);
    if c.senders[t].Dispatching? { NothingInFlight(c, t); }
    SumAtLeast(QueueLength(), c.dispatchers);
  }

  lemma ComesBack(c: Channel, t: nat, id: nat) returns (events: seq<Event>)
    requires Returning(c, t, id)
    ensures var c' := Run(Unbounded, c, events); |c'.slots| == |c.slots| && !c'.slots[id].Live?
    ensures Returns(events, t, id)
    decreases Left(c, t, id)
  {
    LeftIsPositive(c, t, id);
    events := ComesNearer(c, t, id);
    var c' := Run(Unbounded, c, events);
    if c'.slots[id].Live? {
      var rest := ComesBack(c', t, id);
      RunConcat(c, events, rest);
      events := events + rest;
    }
  }

  // ---------------------------------------------------------------------------------------
  // From any reachable state

  /** One dispatcher is brought to a state with nobody inside. */
  lemma DispatcherComesOut(c: Channel, stream: nat) returns (events: seq<Event>)
    requires ChannelInv(c) && stream < |c.dispatchers|
    ensures var c' := Run(Unbounded, c, events);
      && Stirred(c, c') && Outside(c'.dispatchers[stream])
      && (forall s | 0 <= s < |c.dispatchers| && s != stream :: c'.dispatchers[s] == c.dispatchers[s])
    ensures forall i | 0 <= i < |events| :: events[i].Dispatcher?
  {
    var more := RealComesOut(c.dispatchers[stream]);
    DispatcherRun(c, stream, more);
    events := Dispatches(stream, more);
  }

  /** And so are the first `n`. */
  lemma DispatchersComeOut(c: Channel, n: nat) returns (events: seq<Event>)
    requires ChannelInv(c) && n <= |c.dispatchers|
    ensures var c' := Run(Unbounded, c, events);
      Stirred(c, c') && (forall s | 0 <= s < n :: Outside(c'.dispatchers[s]))
    ensures forall i | 0 <= i < |events| :: events[i].Dispatcher?
  {
    if n == 0 {
      events := [];
    } else {
      var first := DispatchersComeOut(c, n - 1);
      var c1 := Run(Unbounded, c, first);
      var last := DispatcherComesOut(c1, n - 1);
      RunConcat(c, first, last);
      StirredTwice(c, c1, Run(Unbounded, c1, last));
      events := first + last;
    }
  }

  // ---------------------------------------------------------------------------------------
  // Lost references

  ghost predicate Leaked(c: Channel, id: nat) {
    id < |c.slots| && c.slots[id].Live? && c.slots[id].lost > 0
  }

  /** Who drops a reference of a slot that lost one does not drop the last. */
  lemma NotTheLast(c: Channel, e: Event, id: nat)
    requires ChannelInv(c) && Leaked(c, id) && Target(c, e) == Some(id)
    requires Drops(c.slots[id], SenderOf(c, e), e, |c.used|, Lent(c.senders, id))
    ensures c.slots[id].refs > 1
  {
    assert SlotOk(c.slots[id], id, c.dispatchers, c.senders, |c.used|);
    CopiesNotNegative(c.dispatchers, id);
    SenderRefsNotNegative(c.senders, id, |c.used|, |c.slots|);
    if !e.DropHandle? { assert c.senders[e.t].Concerns(id); }
  }

  lemma SlotLosesForever(c: Channel, e: Event, id: nat)
    requires ChannelInv(c) && Leaked(c, id) && Target(c, e) == Some(id)
    ensures Leaked(TargetNext(Unbounded, c, e, id), id)
  {
    var (s, send, lent) := (c.slots[id], SenderOf(c, e), Lent(c.senders, id));
    if Drops(s, send, e, |c.used|, lent) { NotTheLast(c, e, id); }
    LossStays(s, send, e, |c.used|, c.failed, lent);
  }

  lemma LossStays(s: Slot, send: Send, e: Event, streams: nat, failed: nat, lent: bool)
    requires s.Live? && s.lost > 0 && (Drops(s, send, e, streams, lent) ==> s.refs > 1)
    ensures var s' := SlotNext(Unbounded, s, send, e, streams, failed, lent); s'.Live? && s'.lost >= s.lost
  {
  }

  lemma NextLeaks(c: Channel, e: Event, id: nat)
    requires ChannelInv(c) && Leaked(c, id)
    ensures Leaked(ChannelNext(Unbounded, c, e), id)
  {
    if Target(c, e) == Some(id) { SlotLosesForever(c, e, id); } else { OthersKeepLive(c, e, id); }
  }

  lemma {:induction false} StaysLeaked(c: Channel, events: seq<Event>, id: nat)
    requires ChannelInv(c) && Leaked(c, id)
    ensures Leaked(Run(Unbounded, c, events), id)
  {
    if events != [] {
      var front := events[..|events| - 1];
      StaysLeaked(c, front, id);
      RunKeeps(c, front);
      NextLeaks(Run(Unbounded, c, front), events[|events| - 1], id);
    }
  }

  /** References are lost only after a creation failed, or a send panicked. */
  ghost predicate LossOk(c: Channel) {
    c.failed == 0 && c.panics == 0 ==>
      && (forall t | 0 <= t < |c.senders| :: !c.senders[t].Panicking?)
      && (forall id | 0 <= id < |c.slots| && c.slots[id].Live? :: c.slots[id].lost == 0)
  }

  lemma NextLoss(c: Channel, e: Event)
    requires HasBuffers(c) && LossOk(c)
    ensures LossOk(ChannelNext(Unbounded, c, e))
  {
  }

  lemma {:induction false} RunLoss(c: Channel, events: seq<Event>)
    requires HasBuffers(c) && LossOk(c)
    ensures LossOk(Run(Unbounded, c, events))
  {
    if events != [] {
      RunLoss(c, events[..|events| - 1]);
      NextLoss(Run(Unbounded, c, events[..|events| - 1]), events[|events| - 1]);
    }
  }

  /** The state right after thread `t`, alone in sending the slot, raised the count. */
  ghost predicate Raised(c: Channel, t: nat, id: nat, c': Channel) {
    && ChannelInv(c) && t < |c.senders| && id < |c.slots| && c.senders[t].Created? && c.senders[t].id == id
    && SoleSender(c.senders, t, id) && c' == ChannelNext(Unbounded, c, RaiseCount(t))
  }

  lemma RaisedSlot(c: Channel, t: nat, id: nat, c': Channel)
    requires Raised(c, t, id, c')
    ensures ChannelInv(c') && |c'.slots| == |c.slots| && c'.dispatchers == c.dispatchers && |c'.senders| == |c.senders|
    ensures Sending(c', t, id) && !c'.senders[t].inFlight && SoleSender(c'.senders, t, id)
    ensures c.slots[id].Live? && c'.slots[id].Live? && c'.slots[id].lost == c.slots[id].lost + c.failed
    ensures c'.slots[id].owed > 0 ==> c'.slots[id].handles > 0
  {
    assert SlotOk(c.slots[id], id, c.dispatchers, c.senders, |c.used|);
    assert c.senders[t].Concerns(id);
    ChannelNextKeeps(c, RaiseCount(t));
    if c.senders[t].borrowed { assert c.senders[t].Borrows(id); }
  }

  /** Without a loss, some run gives the slot back. */
  lemma RaisedComesBack(c: Channel, t: nat, id: nat, c': Channel) returns (more: seq<Event>)
    requires Raised(c, t, id, c') && c.slots[id].Live? && c.slots[id].lost == 0 && c.failed == 0
    ensures HasBuffers(c') && |Run(Unbounded, c', more).slots| == |c.slots| && !Run(Unbounded, c', more).slots[id].Live?
    ensures Returns(more, t, id)
  {
    RaisedSlot(c, t, id, c');
    var out := DispatchersComeOut(c', |c'.dispatchers|);
    var c1 := Run(Unbounded, c', out);
    StillReturning(c', t, id, c1);
    var back := ComesBack(c1, t, id);
    RunConcat(c', out, back);
    more := out + back;
  }

  lemma StillReturning(c: Channel, t: nat, id: nat, c': Channel)
    requires ChannelInv(c) && Stirred(c, c') && id < |c.slots| && c.slots[id].Live? && c.slots[id].lost == 0
    requires Sending(c, t, id) && !c.senders[t].inFlight && SoleSender(c.senders, t, id)
    requires c.slots[id].owed > 0 ==> c.slots[id].handles > 0
    requires forall s | 0 <= s < |c'.dispatchers| :: Outside(c'.dispatchers[s])
    ensures Returning(c', t, id)
  {
    assert Carried(c.senders[t], c'.senders[t], c'.panics > c.panics);
    assert Grown(c.slots[id], c'.slots[id]);
    forall u | 0 <= u < |c.senders| && u != t
      ensures !c'.senders[u].Concerns(id)
    {
      assert Carried(c.senders[u], c'.senders[u], c'.panics > c.panics);
    }
  }

  /**
   A slot that one thread begins to send can be brought back to the allocator, by some run, if and
   only if no reference to it was lost; raising the count loses one for each creation that failed.
   Unless a send panicked before, that is if and only if no creation failed.
   */
  lemma ReturnsUnlessLost(c: Channel, size: nat, streams: nat, threads: nat, events: seq<Event>, t: nat, id: nat,
                          c': Channel)
    requires Reachable(c, size, streams, threads, events) && Raised(c, t, id, c')
    ensures HasBuffers(c') && |c'.slots| == size && id < size && c.slots[id].Live?
    ensures (exists more :: !Run(Unbounded, c', more).slots[id].Live?) <==> c.slots[id].lost + c.failed == 0
    ensures c.panics == 0 ==> (c.slots[id].lost + c.failed == 0 <==> c.failed == 0)
  {
    ReachableIsOk(c, size, streams, threads, events);
    RunLoss(New(size, streams, threads), events);
    RaisedSlot(c, t, id, c');
    if c.slots[id].lost + c.failed == 0 {
      var more := RaisedComesBack(c, t, id, c');
      assert !Run(Unbounded, c', more).slots[id].Live?;
    } else {
      forall more
        ensures Run(Unbounded, c', more).slots[id].Live?
      {
        StaysLeaked(c', more, id);
      }
    }
  }

  // ---------------------------------------------------------------------------------------
  // With `u32` counts

  /** The slot has at most 2^32 references, and thread `t` sends it or nothing. */
  ghost predicate Calm(c: Channel, t: nat, id: nat) {
    && t < |c.senders| && id < |c.slots| && (c.senders[t].NotSending? || c.senders[t].Concerns(id))
    && (c.slots[id].Live? ==> c.slots[id].refs <= 0x1_0000_0000)
  }

  lemma CalmSlot(s: Slot, send: Send, e: Event, streams: nat, failed: nat, lent: bool, t: nat, id: nat)
    requires IsReturn(e, t, id) && (s.Live? ==> s.refs <= 0x1_0000_0000)
    ensures var s' := SlotNext(Unbounded, s, send, e, streams, failed, lent); s'.Live? ==> s'.refs <= 0x1_0000_0000
  {
  }

  lemma CalmDispatcher(c: Channel, t: nat, id: nat, stream: nat, a: Action<nat>)
    requires Calm(c, t, id) && stream < |c.dispatchers| && |c.dispatchers[stream].buffer| > 0
    ensures Calm(DispatcherNext(c, stream, a), t, id)
  {
    SlotsMovedAt(c.slots, Observe(Wrapping, c.dispatchers[stream], a), id);
  }

  lemma CalmTarget(c: Channel, t: nat, id: nat, e: Event)
    requires Calm(c, t, id) && IsReturn(e, t, id) && Target(c, e) == Some(id)
    ensures Calm(TargetNext(Unbounded, c, e, id), t, id)
  {
    CalmSlot(c.slots[id], SenderOf(c, e), e, |c.used|, c.failed, Lent(c.senders, id), t, id);
  }

  lemma CalmStays(c: Channel, t: nat, id: nat, e: Event)
    requires ChannelInv(c) && Calm(c, t, id) && IsReturn(e, t, id)
    ensures Calm(ChannelNext(Unbounded, c, e), t, id)
  {
    if e.Dispatcher? {
      if e.stream < |c.dispatchers| { CalmDispatcher(c, t, id, e.stream, e.step); }
    } else if Target(c, e).Some? {
      CalmTarget(c, t, id, e);
    }
  }

  lemma CalmIsNotEarly(c: Channel, t: nat, id: nat, e: Event)
    requires ChannelInv(c) && Calm(c, t, id) && IsReturn(e, t, id)
    ensures !FreesEarly(c, e)
  {
    assert SlotOk(c.slots[id], id, c.dispatchers, c.senders, |c.used|);
    if Target(c, e) == Some(id) && c.slots[id].Live? { OnlyOneReadsOne(c.slots[id].refs); }
  }

  lemma OnlyOneReadsOne(refs: int)
    requires 0 < refs <= 0x1_0000_0000
    ensures U32.Wrap(refs) == 1 <==> refs == 1
  {
  }

  lemma {:induction false} ReturnsStayCalm(c: Channel, t: nat, id: nat, events: seq<Event>)
    requires ChannelInv(c) && Calm(c, t, id) && Returns(events, t, id)
    ensures Calm(Run(Unbounded, c, events), t, id)
  {
    if events != [] {
      var (front, e) := (events[..|events| - 1], events[|events| - 1]);
      ReturnsStayCalm(c, t, id, front);
      RunKeeps(c, front);
      assert IsReturn(e, t, id);
      CalmStays(Run(Unbounded, c, front), t, id, e);
    }
  }

  lemma ReturnsFreeNothingEarly(c: Channel, t: nat, id: nat, events: seq<Event>)
    requires ChannelInv(c) && Calm(c, t, id) && Returns(events, t, id)
    ensures NoneFreesEarly(c, events)
  {
    forall n | 0 <= n < |events|
      ensures !FreesEarly(Run(Unbounded, c, events[..n]), events[n])
    {
      ReturnsStayCalm(c, t, id, events[..n]);
      RunKeeps(c, events[..n]);
      assert IsReturn(events[n], t, id);
      CalmIsNotEarly(Run(Unbounded, c, events[..n]), t, id, events[n]);
    }
  }

  lemma WrappedRun(c: Channel, events: seq<Event>, id: nat)
    requires ChannelInv(c) && NoneFreesEarly(c, events) && id < |c.slots|
    ensures HasBuffers(WrapChannel(c)) && |Run(Wrapping, WrapChannel(c), events).slots| == |c.slots|
    ensures Run(Wrapping, WrapChannel(c), events).slots[id].Live? == Run(Unbounded, c, events).slots[id].Live?
  {
    AgreesSoFar(c, events, |events|);
    assert events[..|events|] == events;
  }

  /**
   The same on `u32` counts, for runs in which nothing is freed early and as long as the slot has at
   most 2^32 references when its count was raised.
   */
  lemma ReturnsOnU32UnlessLost(c: Channel, t: nat, id: nat, c': Channel)
    requires Raised(c, t, id, c')
    requires |c'.slots| == |c.slots| && c'.slots[id].Live? && c'.slots[id].refs <= 0x1_0000_0000
    ensures HasBuffers(c') && HasBuffers(WrapChannel(c')) && c.slots[id].Live?
    ensures (exists more :: NoneFreesEarly(c', more) && !Run(Wrapping, WrapChannel(c'), more).slots[id].Live?)
            <==> c.slots[id].lost + c.failed == 0
  {
    RaisedSlot(c, t, id, c');
    if c.slots[id].lost + c.failed == 0 {
      var more := RaisedComesBack(c, t, id, c');
      ReturnsFreeNothingEarly(c', t, id, more);
      WrappedRun(c', more, id);
      assert NoneFreesEarly(c', more) && !Run(Wrapping, WrapChannel(c'), more).slots[id].Live?;
    } else {
      forall more | NoneFreesEarly(c', more)
        ensures Run(Wrapping, WrapChannel(c'), more).slots[id].Live?
      {
        StaysLeaked(c', more, id);
        WrappedRun(c', more, id);
      }
    }
  }
}
