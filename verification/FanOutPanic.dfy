/**
 The `panic!` of a full dispatcher: no run in which sends do not overlap at a stream reaches it, runs
 that send each slot once among them; runs that send one handle over and over do.
 */
module FanOutPanic {
  import opened Counting
  import opened Wrappers
  import opened RingMachine
  import opened RingFifo
  import opened SlotRing
  import opened CopyRing
  import opened LoneCalls
  import opened RingProgress
  import opened FanOutMachine
  import opened FanOutDrain
  import U32

  // ---------------------------------------------------------------------------------------
  // Sends that do not overlap

  /** The event passes a copy to a stream that has not consumed an earlier one of the same slot. */
  ghost predicate Overlaps(c: Channel, e: Event)
    requires HasBuffers(c)
  {
    && e.Dispatcher? && Permitted(c, e.stream, e.step)
    && Offering(c.dispatchers[e.stream], e.step) && e.step.item in Holds(c.dispatchers[e.stream])
  }

  ghost predicate NoneOverlap(c: Channel, events: seq<Event>)
    requires HasBuffers(c)
  {
    forall n | 0 <= n < |events| :: !Overlaps(Run(Unbounded, c, events[..n]), events[n])
  }

  /** No dispatcher holds a slot twice, and none refused a copy. */
  ghost predicate Orderly(c: Channel) {
    && HasBuffers(c) && c.panics == 0
    && forall s | 0 <= s < |c.dispatchers| :: Good(c.dispatchers[s], |c.slots|)
  }

  lemma RingStaysGood(c: Channel, stream: nat, a: Action<nat>)
    requires ChannelInv(c) && Orderly(c) && Permitted(c, stream, a)
    requires Offering(c.dispatchers[stream], a) ==> a.item !in Holds(c.dispatchers[stream])
    ensures var r' := Next(Wrapping, c.dispatchers[stream], a);
      |r'.buffer| > 0 && Good(r', |c.slots|) && !Observe(Wrapping, c.dispatchers[stream], a).Refused?
  {
    if Offering(c.dispatchers[stream], a) { assert c.senders[a.t].id < |c.slots|; }
    GoodStep(c.dispatchers[stream], a, |c.slots|);
  }

  lemma OrderlyRings(c: Channel, stream: nat, r': Ring<nat>, c': Channel)
    requires Orderly(c) && stream < |c.dispatchers| && |r'.buffer| > 0 && Good(r', |c.slots|)
    requires c'.dispatchers == c.dispatchers[stream := r'] && c'.panics == c.panics && |c'.slots| == |c.slots|
    ensures Orderly(c')
  {
  }

  lemma StepIsOrderly(c: Channel, stream: nat, a: Action<nat>)
    requires ChannelInv(c) && Orderly(c) && Permitted(c, stream, a)
    requires Offering(c.dispatchers[stream], a) ==> a.item !in Holds(c.dispatchers[stream])
    ensures Orderly(DispatcherNext(c, stream, a))
  {
    RingStaysGood(c, stream, a);
    SlotsKeepLength(c.slots, Observe(Wrapping, c.dispatchers[stream], a));
    OrderlyRings(c, stream, Next(Wrapping, c.dispatchers[stream], a), DispatcherNext(c, stream, a));
  }

  lemma NextIsOrderly(c: Channel, e: Event)
    requires ChannelInv(c) && Orderly(c) && !Overlaps(c, e)
    ensures Orderly(ChannelNext(Unbounded, c, e))
  {
    if e.Dispatcher? {
      if Permitted(c, e.stream, e.step) { StepIsOrderly(c, e.stream, e.step); }
    } else {
      RingsStay(c, e);
    }
  }

  lemma RingsStay(c: Channel, e: Event)
    requires HasBuffers(c) && !e.Dispatcher?
    ensures var c' := ChannelNext(Unbounded, c, e);
      c'.dispatchers == c.dispatchers && c'.panics == c.panics && |c'.slots| == |c.slots|
  {
  }

  lemma SlotsKeepLength(slots: seq<Slot>, o: Outcome<nat>)
    ensures |SlotsMoved(slots, o)| == |slots|
  {
  }

  lemma NewIsOrderly(size: nat, streams: nat, threads: nat)
    requires U32.PowerOfTwo(size) && 0 < size < 0x8000_0000 && threads <= 0x8000_0001
    ensures Orderly(New(size, streams, threads))
  {
    FreshIsGood(Iota(size), threads);
  }

  lemma PrefixesDoNotOverlap(c: Channel, events: seq<Event>, n: nat)
    requires HasBuffers(c) && NoneOverlap(c, events) && n <= |events|
    ensures NoneOverlap(c, events[..n])
  {
    forall i | 0 <= i < n
      ensures !Overlaps(Run(Unbounded, c, events[..n][..i]), events[..n][i])
    {
      assert events[..n][..i] == events[..i];
    }
  }

  lemma {:induction false} RunIsOrderly(c: Channel, events: seq<Event>)
    requires ChannelInv(c) && Orderly(c) && NoneOverlap(c, events)
    ensures Orderly(Run(Unbounded, c, events))
  {
    if events != [] {
      var n := |events| - 1;
      PrefixesDoNotOverlap(c, events, n);
      RunIsOrderly(c, events[..n]);
      RunKeeps(c, events[..n]);
      assert !Overlaps(Run(Unbounded, c, events[..n]), events[n]);
      NextIsOrderly(Run(Unbounded, c, events[..n]), events[n]);
    }
  }

  /**
   The `panic!` for a full dispatcher is unreachable, whatever the interleaving, in every run in
   which no copy is passed to a stream that has yet to consume one of the same slot. So every run
   that reaches it contains such a send. No queue then holds a slot twice.
   */
  lemma PanicUnreachable(c: Channel, size: nat, streams: nat, threads: nat, events: seq<Event>, stream: nat)
    requires Reachable(c, size, streams, threads, events) && stream < streams
    requires HasBuffers(New(size, streams, threads)) && NoneOverlap(New(size, streams, threads), events)
    ensures c.panics == 0
    ensures |c.dispatchers| == streams && |c.dispatchers[stream].buffer| > 0
    ensures Distinct(Contents(c.dispatchers[stream]))
  {
    NewIsOk(size, streams, threads);
    NewIsOrderly(size, streams, threads);
    RunIsOrderly(New(size, streams, threads), events);
    ReachableIsOk(c, size, streams, threads, events);
    GoodHolds(c.dispatchers[stream], size);
  }

  // ---------------------------------------------------------------------------------------
  // Each slot sent once

  /** The event sends a slot that was sent before, since it was allocated. */
  ghost predicate Repeats(c: Channel, e: Event) {
    && e.SendHandle? && Target(c, e).Some?
    && var s := c.slots[Target(c, e).value]; s.Live? && s.handles > 0 && s.sends > 0 && c.senders[e.t].NotSending?
  }

  ghost predicate NoneRepeats(c: Channel, events: seq<Event>)
    requires HasBuffers(c)
  {
    forall n | 0 <= n < |events| :: !Repeats(Run(Unbounded, c, events[..n]), events[n])
  }

  /** A slot that is not sent yet has no copy, and one that is being sent has none where it is still to go. */
  ghost predicate OnceOk(s: Slot, id: nat, dispatchers: seq<Ring<nat>>, senders: seq<Send>, used: seq<nat>) {
    && (s.Live? && s.sends == 0 ==> Unsent(senders, id) && Sum(CopiesOf(id), dispatchers) == 0)
    && (forall t | 0 <= t < |senders| && senders[t].Concerns(id) ::
          SoleSender(senders, t, id) && AheadIsEmpty(senders[t], id, dispatchers, used))
  }

  ghost predicate AheadIsEmpty(send: Send, id: nat, dispatchers: seq<Ring<nat>>, used: seq<nat>) {
    && (send.Created? ==> Sum(CopiesOf(id), dispatchers) == 0)
    && (send.Dispatching? ==>
          forall j | Offered(send) <= j < |used| :: used[j] < |dispatchers| && CopiesIn(dispatchers[used[j]], id) == 0)
  }

  ghost predicate OnceInv(c: Channel) {
    forall id | 0 <= id < |c.slots| :: OnceOk(c.slots[id], id, c.dispatchers, c.senders, c.used)
  }

  lemma NoCopiesAhead(dispatchers: seq<Ring<nat>>, id: nat)
    requires Sum(CopiesOf(id), dispatchers) == 0
    ensures forall s | 0 <= s < |dispatchers| :: CopiesIn(dispatchers[s], id) == 0
  {
    CopiesNotNegative(dispatchers, id);
  }

  /** An event without a sender. */
  lemma PlainOnce(s: Slot, e: Event, id: nat, dispatchers: seq<Ring<nat>>, senders: seq<Send>, used: seq<nat>,
                  failed: nat)
    requires OnceOk(s, id, dispatchers, senders, used) && SlotOk(s, id, dispatchers, senders, |used|) && !BySender(e)
    ensures OnceOk(SlotNext(Unbounded, s, NotSending, e, |used|, failed, Lent(senders, id)), id, dispatchers, senders,
                   used)
  {
  }

  lemma OtherOnce(s: Slot, id: nat, dispatchers: seq<Ring<nat>>, senders: seq<Send>, t: nat, send': Send,
                  used: seq<nat>)
    requires OnceOk(s, id, dispatchers, senders, used) && t < |senders|
    requires !senders[t].Concerns(id) && !send'.Concerns(id)
    ensures OnceOk(s, id, dispatchers, senders[t := send'], used)
  {
    var senders' := senders[t := send'];
    forall u | 0 <= u < |senders'| && senders'[u].Concerns(id)
      ensures SoleSender(senders', u, id) && AheadIsEmpty(senders'[u], id, dispatchers, used)
    {
      assert senders[u].Concerns(id);
    }
  }

  /** A slot nobody sends gets its one sender. */
  lemma FirstSender(s: Slot, id: nat, dispatchers: seq<Ring<nat>>, senders: seq<Send>, t: nat, send': Send,
                    used: seq<nat>)
    requires t < |senders| && Unsent(senders, id) && Sum(CopiesOf(id), dispatchers) == 0 && send'.Created?
    requires s.Live? ==> s.sends > 0
    ensures OnceOk(s, id, dispatchers, senders[t := send'], used)
  {
  }

  /** The one sender goes on. */
  lemma SenderGoesOn(s: Slot, s': Slot, id: nat, dispatchers: seq<Ring<nat>>, senders: seq<Send>, t: nat, send': Send,
                     used: seq<nat>)
    requires OnceOk(s, id, dispatchers, senders, used) && t < |senders| && senders[t].Concerns(id)
    requires s.Live? && (s'.Live? ==> s'.sends == s.sends)
    requires send'.Concerns(id) ==> AheadIsEmpty(send', id, dispatchers, used)
    ensures OnceOk(s', id, dispatchers, senders[t := send'], used)
  {
    var senders' := senders[t := send'];
    assert SoleSender(senders, t, id);
    forall u | 0 <= u < |senders'| && senders'[u].Concerns(id)
      ensures SoleSender(senders', u, id) && AheadIsEmpty(senders'[u], id, dispatchers, used)
    {
      assert u == t;
    }
  }

  lemma SenderOnce(s: Slot, e: Event, id: nat, dispatchers: seq<Ring<nat>>, senders: seq<Send>, used: seq<nat>,
                   failed: nat)
    requires OnceOk(s, id, dispatchers, senders, used) && SlotOk(s, id, dispatchers, senders, |used|)
    requires BySender(e) && e.t < |senders| && SendsSlot(senders[e.t], e, id) && StreamsOk(used, |dispatchers|)
    requires e.SendHandle? && senders[e.t].NotSending? && s.Live? && s.handles > 0 ==> s.sends == 0
    ensures OnceOk(SlotNext(Unbounded, s, senders[e.t], e, |used|, failed, Lent(senders, id)), id, dispatchers,
                   senders[e.t := SendNext(senders[e.t], s, e, |used|)], used)
  {
    var (t, send) := (e.t, senders[e.t]);
    var (s', send') := (SlotNext(Unbounded, s, send, e, |used|, failed, Lent(senders, id)),
                        SendNext(send, s, e, |used|));
    assert senders[t := send] == senders;
    if send' == send {
    } else if e.StartSend? || e.SendHandle? {
      FirstSender(s', id, dispatchers, senders, t, send', used);
    } else {
      assert AheadIsEmpty(send, id, dispatchers, used);
      if e.RaiseCount? { NoCopiesAhead(dispatchers, id); }
      SenderGoesOn(s, s', id, dispatchers, senders, t, send', used);
    }
  }

  /** How one step changes the copies of `id`, in its dispatcher and in all. */
  ghost predicate CopiesMoved(dispatchers: seq<Ring<nat>>, stream: nat, dispatchers': seq<Ring<nat>>, id: nat,
                              change: int) {
    && stream < |dispatchers| == |dispatchers'|
    && Sum(CopiesOf(id), dispatchers') == Sum(CopiesOf(id), dispatchers) + change >= 0
    && (forall s | 0 <= s < |dispatchers| ::
          0 <= CopiesIn(dispatchers'[s], id) == CopiesIn(dispatchers[s], id) + if s == stream then change else 0)
  }

  lemma CopiesMovedOnce(dispatchers: seq<Ring<nat>>, stream: nat, a: Action<nat>, id: nat)
    requires stream < |dispatchers| && Real(dispatchers[stream]) && !a.Unleak? && a.t < |dispatchers[stream].threads|
    ensures var r := dispatchers[stream];
      CopiesMoved(dispatchers, stream, dispatchers[stream := Next(Wrapping, r, a)], id,
                  CopyChange(Offering(r, a), Item(a), Observe(Wrapping, r, a), id))
  {
    CopiesMove(dispatchers, stream, a, id);
    CopiesStep(dispatchers[stream], a, id);
    CopiesNotNegative(dispatchers, id);
    CopiesNotNegative(dispatchers[stream := Next(Wrapping, dispatchers[stream], a)], id);
  }

  lemma AheadStaysEmpty(send: Send, id: nat, dispatchers: seq<Ring<nat>>, dispatchers': seq<Ring<nat>>, stream: nat,
                        offers: bool, item: nat, o: Outcome<nat>, used: seq<nat>)
    requires send.Concerns(id) && AheadIsEmpty(send, id, dispatchers, used)
    requires FlightFacts(send, offers, item, o, used, stream) && StreamsOk(used, |dispatchers|)
    requires CopiesMoved(dispatchers, stream, dispatchers', id, CopyChange(offers, item, o, id))
    ensures AheadIsEmpty(SendMoved(send, offers, o, |used|), id, dispatchers', used)
  {
  }

  lemma OtherAhead(send: Send, id: nat, dispatchers: seq<Ring<nat>>, dispatchers': seq<Ring<nat>>, stream: nat,
                   change: int, used: seq<nat>)
    requires AheadIsEmpty(send, id, dispatchers, used) && change <= 0
    requires CopiesMoved(dispatchers, stream, dispatchers', id, change)
    ensures AheadIsEmpty(send, id, dispatchers', used)
  {
  }

  /** One slot over one dispatcher step of thread `t`. */
  lemma StepOnce(s: Slot, id: nat, dispatchers: seq<Ring<nat>>, dispatchers': seq<Ring<nat>>, senders: seq<Send>,
                 t: nat, offers: bool, item: nat, o: Outcome<nat>, used: seq<nat>, stream: nat)
    requires OnceOk(s, id, dispatchers, senders, used) && t < |senders| && StreamsOk(used, |dispatchers|)
    requires FlightFacts(senders[t], offers, item, o, used, stream)
    requires CopiesMoved(dispatchers, stream, dispatchers', id, CopyChange(offers, item, o, id))
    ensures OnceOk(Handed(s, o, id), id, dispatchers', senders[t := SendMoved(senders[t], offers, o, |used|)], used)
  {
    var senders' := senders[t := SendMoved(senders[t], offers, o, |used|)];
    StepBalances(senders[t], offers, item, o, used, stream, id);
    SameSenders(senders, t, senders'[t], id);
    forall u | 0 <= u < |senders'| && senders'[u].Concerns(id)
      ensures SoleSender(senders', u, id) && AheadIsEmpty(senders'[u], id, dispatchers', used)
    {
      assert senders[u].Concerns(id);
      if u == t {
        AheadStaysEmpty(senders[t], id, dispatchers, dispatchers', stream, offers, item, o, used);
      } else {
        assert !senders[t].Concerns(id);
        OtherAhead(senders[u], id, dispatchers, dispatchers', stream, CopyChange(offers, item, o, id), used);
      }
    }
  }

  lemma DispatcherOnce(c: Channel, stream: nat, a: Action<nat>)
    requires ChannelInv(c) && OnceInv(c) && Permitted(c, stream, a)
    ensures OnceInv(DispatcherNext(c, stream, a))
  {
    var (r, o, c') := (c.dispatchers[stream], Observe(Wrapping, c.dispatchers[stream], a),
                       DispatcherNext(c, stream, a));
    SlotsKeepLength(c.slots, o);
    if a.t < |c.senders| {
      StepFacts(c, stream, a);
      forall id | 0 <= id < |c'.slots|
        ensures OnceOk(c'.slots[id], id, c'.dispatchers, c'.senders, c'.used)
      {
        assert OnceOk(c.slots[id], id, c.dispatchers, c.senders, c.used);
        SlotsMovedAt(c.slots, o, id);
        CopiesMovedOnce(c.dispatchers, stream, a, id);
        StepOnce(c.slots[id], id, c.dispatchers, c'.dispatchers, c.senders, a.t, Offering(r, a), Item(a), o, c.used,
                 stream);
      }
    } else {
      OneThreadMoves(r, a);
      assert c'.dispatchers == c.dispatchers && c'.slots == c.slots;
    }
  }

  lemma TargetOnce(c: Channel, e: Event, id: nat)
    requires ChannelInv(c) && OnceInv(c) && Target(c, e) == Some(id) && !Repeats(c, e)
    ensures OnceInv(TargetNext(Unbounded, c, e, id))
  {
    var c' := TargetNext(Unbounded, c, e, id);
    assert SlotOk(c.slots[id], id, c.dispatchers, c.senders, |c.used|);
    assert OnceOk(c.slots[id], id, c.dispatchers, c.senders, c.used);
    if BySender(e) {
      SenderOnce(c.slots[id], e, id, c.dispatchers, c.senders, c.used, c.failed);
      OthersOnce(c, e, id, SendNext(c.senders[e.t], c.slots[id], e, |c.used|));
    } else {
      PlainOnce(c.slots[id], e, id, c.dispatchers, c.senders, c.used, c.failed);
    }
  }

  lemma OthersOnce(c: Channel, e: Event, id: nat, send': Send)
    requires ChannelInv(c) && OnceInv(c) && BySender(e) && Target(c, e) == Some(id)
    requires send' == SendNext(c.senders[e.t], c.slots[id], e, |c.used|)
    ensures forall x | 0 <= x < |c.slots| && x != id ::
              OnceOk(c.slots[x], x, c.dispatchers, c.senders[e.t := send'], c.used)
  {
    assert c.senders[e.t := c.senders[e.t]] == c.senders;
    forall x | 0 <= x < |c.slots| && x != id
      ensures OnceOk(c.slots[x], x, c.dispatchers, c.senders[e.t := send'], c.used)
    {
      assert OnceOk(c.slots[x], x, c.dispatchers, c.senders, c.used);
      if send' != c.senders[e.t] { OtherOnce(c.slots[x], x, c.dispatchers, c.senders, e.t, send', c.used); }
    }
  }

  lemma NextOnce(c: Channel, e: Event)
    requires ChannelInv(c) && OnceInv(c) && !Repeats(c, e)
    ensures OnceInv(ChannelNext(Unbounded, c, e))
  {
    if e.Dispatcher? {
      if Permitted(c, e.stream, e.step) { DispatcherOnce(c, e.stream, e.step); }
    } else if e.ChangeStreams? {
      StreamsOnce(c, e.used, e.failed);
    } else if Target(c, e).Some? {
      TargetOnce(c, e, Target(c, e).value);
    }
  }

  lemma StreamsOnce(c: Channel, used: seq<nat>, failed: nat)
    requires OnceInv(c)
    ensures StreamsIdle(c.senders) ==> OnceInv(c.(used := used, failed := failed))
  {
    if StreamsIdle(c.senders) {
      forall id | 0 <= id < |c.slots|
        ensures OnceOk(c.slots[id], id, c.dispatchers, c.senders, used)
      {
        assert OnceOk(c.slots[id], id, c.dispatchers, c.senders, c.used);
      }
    }
  }

  /** The stream that is next has no copy of a slot that is sent once. */
  lemma OnceDoesNotOverlap(c: Channel, e: Event)
    requires ChannelInv(c) && OnceInv(c)
    ensures !Overlaps(c, e)
  {
    if e.Dispatcher? && Permitted(c, e.stream, e.step) && Offering(c.dispatchers[e.stream], e.step) {
      var (t, id) := (e.step.t, e.step.item);
      assert OnceOk(c.slots[id], id, c.dispatchers, c.senders, c.used) && c.senders[t].Concerns(id);
      assert AheadIsEmpty(c.senders[t], id, c.dispatchers, c.used);
      HoldsMeansCopies(c.dispatchers[e.stream], id);
    }
  }

  lemma {:induction false} RunOnce(c: Channel, events: seq<Event>, n: nat)
    requires ChannelInv(c) && OnceInv(c) && NoneRepeats(c, events) && n <= |events|
    ensures ChannelInv(Run(Unbounded, c, events[..n])) && OnceInv(Run(Unbounded, c, events[..n]))
  {
    RunKeeps(c, events[..n]);
    if n > 0 {
      RunOnce(c, events, n - 1);
      assert !Repeats(Run(Unbounded, c, events[..n - 1]), events[n - 1]);
      RunStep(Unbounded, c, events, n - 1);
      NextOnce(Run(Unbounded, c, events[..n - 1]), events[n - 1]);
    }
  }

  /** Sends do not overlap in a run that sends each slot at most once between its allocation and its deallocation. */
  lemma SentOnceDoesNotOverlap(size: nat, streams: nat, threads: nat, events: seq<Event>)
    requires U32.PowerOfTwo(size) && 0 < size < 0x8000_0000 && threads <= 0x8000_0001
    requires HasBuffers(New(size, streams, threads)) && NoneRepeats(New(size, streams, threads), events)
    ensures NoneOverlap(New(size, streams, threads), events)
  {
    var c := New(size, streams, threads);
    NewIsOk(size, streams, threads);
    forall n | 0 <= n < |events|
      ensures !Overlaps(Run(Unbounded, c, events[..n]), events[n])
    {
      RunOnce(c, events, n);
      OnceDoesNotOverlap(Run(Unbounded, c, events[..n]), events[n]);
    }
  }

  // ---------------------------------------------------------------------------------------
  // Exactly when a copy is refused

  lemma RefusedWhenFull(r: Ring<nat>, t: nat, id: nat)
    requires |r.buffer| > 0 && t < |r.threads| && r.threads[t].Idle? && r.enqueuerTail == r.tail
    requires |Contents(r)| <= |r.buffer| < 0x8000_0000
    ensures (History(Wrapping, r, Undisturbed(CallPublish(t, id), t)) == Learns(Refused(id), Silent))
            <==> |Contents(r)| == |r.buffer|
  {
    ContentsGrow(r, id);
    if |Contents(r)| == |r.buffer| {
      LonePublishFails(Wrapping, r, t, id);
    } else {
      LonePublishSucceeds(Wrapping, r, t, id);
      Distinguished(id, Occupied(Wrapping, r.tail, r.head) + 1);
    }
  }

  lemma Distinguished(id: nat, len: int)
    ensures Learns(Refused(id), Silent) != Learns(Silent, Published(id, len))
  {
    assert Learns(Refused(id), Silent)[3] == Refused(id) && Learns(Silent, Published(id, len))[3] == Silent;
  }

  /**
   From every reachable state with nobody inside a dispatcher, sends that overlap and panics
   included: a copy published to it undisturbed is refused, which is the `panic!`, if and only if its
   queue is full.
   */
  lemma PanicIsExact(c: Channel, size: nat, streams: nat, threads: nat, events: seq<Event>, stream: nat, t: nat,
                     id: nat)
    requires Reachable(c, size, streams, threads, events) && stream < streams && t < threads
    requires stream < |c.dispatchers| && Outside(c.dispatchers[stream])
    ensures var r := c.dispatchers[stream];
      && |r.buffer| == size > 0
      && (History(Wrapping, r, Undisturbed(CallPublish(t, id), t)) == Learns(Refused(id), Silent)
          <==> |Contents(r)| == |r.buffer|)
  {
    ReachableIsOk(c, size, streams, threads, events);
    RealIsQuiet(c.dispatchers[stream]);
    RefusedWhenFull(c.dispatchers[stream], t, id);
  }

  lemma AllQueued(queue: seq<nat>, ids: nat)
    requires Distinct(queue) && Elements(queue) <= Below(ids)
    ensures |queue| == ids <==> Elements(queue) == Below(ids)
  {
    DistinctCount(queue);
    if |queue| == ids {
      assert |Below(ids) - Elements(queue)| == 0;
    }
  }

  /** After sends that did not overlap, a queue is full if and only if every slot of the pool has a copy in it. */
  lemma FullOfEverySlot(c: Channel, size: nat, streams: nat, threads: nat, events: seq<Event>, stream: nat)
    requires Reachable(c, size, streams, threads, events) && stream < streams
    requires HasBuffers(New(size, streams, threads)) && NoneOverlap(New(size, streams, threads), events)
    ensures |c.dispatchers| == streams && |c.dispatchers[stream].buffer| > 0
    ensures |Contents(c.dispatchers[stream])| == size <==> Elements(Contents(c.dispatchers[stream])) == Below(size)
  {
    NewIsOk(size, streams, threads);
    NewIsOrderly(size, streams, threads);
    RunIsOrderly(New(size, streams, threads), events);
    ReachableIsOk(c, size, streams, threads, events);
    GoodHolds(c.dispatchers[stream], size);
    AllQueued(Contents(c.dispatchers[stream]), size);
  }

  // ---------------------------------------------------------------------------------------
  // A run that gets there

  /** One stream is in use and consumed nothing; a user's handle of slot 0 was sent to it `n` times. */
  ghost predicate SentTimes(c: Channel, n: nat) {
    && Ready(c) && c.used == [0] && |c.dispatchers| > 0 && |c.dispatchers[0].buffer| > 0
    && |Contents(c.dispatchers[0])| == n && c.senders[0].NotSending?
    && |c.slots| > 0 && c.slots[0].Live? && c.slots[0].handles > 0
  }

  /** The user begins to send it. */
  ghost predicate SendingAgain(c: Channel, n: nat, next: nat) {
    && Ready(c) && c.used == [0] && |c.dispatchers| > 0 && |c.dispatchers[0].buffer| > 0
    && |Contents(c.dispatchers[0])| == n && c.senders[0] == Dispatching(0, next, false, true)
    && |c.slots| > 0 && c.slots[0].Live? && c.slots[0].handles > 0
  }

  lemma BeginsAgain(c: Channel, n: nat)
    requires SentTimes(c, n)
    ensures SendingAgain(Run(Unbounded, c, [SendHandle(0, 0)] + [RaiseCount(0)]), n, 0)
    ensures var c' := Run(Unbounded, c, [SendHandle(0, 0)] + [RaiseCount(0)]);
      c'.dispatchers == c.dispatchers
  {
    OwnEvent(c, SendHandle(0, 0), 0);
    var c1 := Run(Unbounded, c, [SendHandle(0, 0)]);
    OwnEvent(c1, RaiseCount(0), 0);
    RunConcat(c, [SendHandle(0, 0)], [RaiseCount(0)]);
  }

  lemma EndsAgain(c: Channel, n: nat)
    requires SendingAgain(c, n, 1)
    ensures SentTimes(Run(Unbounded, c, [FinishSend(0)]), n)
    ensures Run(Unbounded, c, [FinishSend(0)]).dispatchers == c.dispatchers
  {
    OwnEvent(c, FinishSend(0), 0);
  }

  lemma PublishesAgain(c: Channel, n: nat)
    requires SendingAgain(c, n, 0) && n < |c.dispatchers[0].buffer|
    ensures SendingAgain(Run(Unbounded, c, PublishEvents(0, 0, 0)), n + 1, 1)
    ensures |Run(Unbounded, c, PublishEvents(0, 0, 0)).dispatchers[0].buffer| == |c.dispatchers[0].buffer|
  {
    PublishRound(c, 0, 0, 0);
    assert Grown(c.slots[0], Run(Unbounded, c, PublishEvents(0, 0, 0)).slots[0]);
  }

  lemma SendsAgain(c: Channel, n: nat) returns (events: seq<Event>)
    requires SentTimes(c, n) && n < |c.dispatchers[0].buffer|
    ensures var c' := Run(Unbounded, c, events);
      SentTimes(c', n + 1) && |c'.dispatchers[0].buffer| == |c.dispatchers[0].buffer|
  {
    var begin := [SendHandle(0, 0)] + [RaiseCount(0)];
    BeginsAgain(c, n);
    var c1 := Run(Unbounded, c, begin);
    PublishesAgain(c1, n);
    EndsAgain(Run(Unbounded, c1, PublishEvents(0, 0, 0)), n + 1);
    RunConcat(c, begin, PublishEvents(0, 0, 0));
    RunConcat(c, begin + PublishEvents(0, 0, 0), [FinishSend(0)]);
    events := begin + PublishEvents(0, 0, 0) + [FinishSend(0)];
  }

  function Beginning(): seq<Event> {
    [ChangeStreams([0], 0)] + [Allocate(0)] + [IntoArc(0)]
  }

  lemma StreamCreated(c: Channel)
    requires ChannelInv(c) && c.used == [] && c.failed == 0 && |c.dispatchers| > 0 && StreamsIdle(c.senders)
    ensures var c' := Run(Unbounded, c, [ChangeStreams([0], 0)]);
      ChannelInv(c') && c' == c.(used := [0])
  {
    RunAppends(c, [], ChangeStreams([0], 0));
    assert [] + [ChangeStreams([0], 0)] == [ChangeStreams([0], 0)];
    ChannelNextKeeps(c, ChangeStreams([0], 0));
  }

  lemma NothingSent(size: nat, streams: nat, threads: nat)
    requires U32.PowerOfTwo(size) && 0 < size < 0x8000_0000 && 0 < threads <= 0x8000_0001 && streams > 0
    ensures HasBuffers(New(size, streams, threads))
    ensures var c := Run(Unbounded, New(size, streams, threads), Beginning());
      SentTimes(c, 0) && |c.dispatchers[0].buffer| == size
  {
    var c := New(size, streams, threads);
    NewIsOk(size, streams, threads);
    assert Contents(Fresh(Iota(size), threads)) == [] by { FreshIsReal(Iota(size), threads); }
    assert forall s | 0 <= s < streams :: c.dispatchers[s] == Fresh(Iota(size), threads);
    StreamCreated(c);
    HandleOfSlot0(Run(Unbounded, c, [ChangeStreams([0], 0)]));
    RunConcat(c, [ChangeStreams([0], 0)], [Allocate(0)]);
    RunConcat(c, [ChangeStreams([0], 0)] + [Allocate(0)], [IntoArc(0)]);
  }

  lemma HandleOfSlot0(c: Channel)
    requires Ready(c) && c.used == [0] && |c.dispatchers| > 0 && |c.dispatchers[0].buffer| > 0
    requires Contents(c.dispatchers[0]) == [] && c.senders[0].NotSending? && |c.slots| > 0 && c.slots[0].Free?
    ensures var c' := Run(Unbounded, Run(Unbounded, c, [Allocate(0)]), [IntoArc(0)]);
      SentTimes(c', 0) && c'.dispatchers == c.dispatchers
  {
    OwnEvent(c, Allocate(0), 0);
    FirstHandle(Run(Unbounded, c, [Allocate(0)]));
  }

  lemma FirstHandle(c: Channel)
    requires Ready(c) && c.used == [0] && |c.dispatchers| > 0 && |c.dispatchers[0].buffer| > 0
    requires Contents(c.dispatchers[0]) == [] && c.senders[0].NotSending? && |c.slots| > 0 && c.slots[0].Reserved?
    ensures var c' := Run(Unbounded, c, [IntoArc(0)]);
      SentTimes(c', 0) && c'.dispatchers == c.dispatchers
  {
    OwnEvent(c, IntoArc(0), 0);
  }

  lemma SendsMany(size: nat, streams: nat, threads: nat, n: nat) returns (events: seq<Event>)
    requires U32.PowerOfTwo(size) && 0 < size < 0x8000_0000 && 0 < threads <= 0x8000_0001 && streams > 0 && n <= size
    ensures HasBuffers(New(size, streams, threads))
    ensures var c := Run(Unbounded, New(size, streams, threads), events);
      SentTimes(c, n) && |c.dispatchers[0].buffer| == size
  {
    if n == 0 {
      NothingSent(size, streams, threads);
      events := Beginning();
    } else {
      var before := SendsMany(size, streams, threads, n - 1);
      var more := SendsAgain(Run(Unbounded, New(size, streams, threads), before), n - 1);
      RunConcat(New(size, streams, threads), before, more);
      events := before + more;
    }
  }

  /** A publish to a full queue ends in a panic. */
  lemma FullPanics(c: Channel)
    requires |c.dispatchers| > 0 && SendingAgain(c, |c.dispatchers[0].buffer|, 0)
    ensures Run(Unbounded, c, PublishEvents(0, 0, 0)).panics == c.panics + 1
  {
    var r := c.dispatchers[0];
    RealIsQuiet(r);
    ContentsGrow(r, 0);
    LonePublishFails(Wrapping, r, 0, 0);
    CallThenSteps(r, 0, 0, r, Refused(0), Silent);
    var c1 := PublishRun(c, 0, 0, 0);
    OneRefusal();
  }

  lemma OneRefusal()
    ensures Refusals([Silent, Silent, Refused(0), Silent]) == 1
  {
    var seen: seq<Outcome<nat>> := [Silent, Silent, Silent, Silent];
    SumOfNone(IsRefusal(), seen);
    SumChanges(IsRefusal(), seen, 2, Refused(0));
    assert seen[2 := Refused(0)] == [Silent, Silent, Refused(0), Silent];
  }

  /**
   With pool and dispatchers of any one size, a run reaches the `panic!`: a user sends the one handle
   it has, once more often than the queue of a stream that consumes nothing has room for.
   */
  lemma PanicIsReachable(size: nat, streams: nat, threads: nat) returns (events: seq<Event>)
    requires U32.PowerOfTwo(size) && 0 < size < 0x8000_0000 && 0 < threads <= 0x8000_0001 && streams > 0
    ensures HasBuffers(New(size, streams, threads))
    ensures Run(Unbounded, New(size, streams, threads), events).panics > 0
    ensures !NoneOverlap(New(size, streams, threads), events)
  {
    var start := New(size, streams, threads);
    var fill := SendsMany(size, streams, threads, size);
    var c := Run(Unbounded, start, fill);
    var begin := [SendHandle(0, 0)] + [RaiseCount(0)];
    BeginsAgain(c, size);
    FullPanics(Run(Unbounded, c, begin));
    RunConcat(start, fill, begin);
    RunConcat(start, fill + begin, PublishEvents(0, 0, 0));
    events := fill + begin + PublishEvents(0, 0, 0);
    if NoneOverlap(start, events) {
      PanicUnreachable(Run(Unbounded, start, events), size, streams, threads, events, 0);
    }
  }
}
