/**
 The `u32` reference counts of the fan-out channel: exactly when they do what unbounded counts do.
 */
module FanOutCounts {
  import opened Wrappers
  import opened RingMachine
  import opened FanOutMachine
  import U32

  function WrapSlot(s: Slot): Slot {
    if s.Live? then s.(refs := U32.Wrap(s.refs)) else s
  }

  function WrapSlots(slots: seq<Slot>): seq<Slot> {
    seq(|slots|, i requires 0 <= i < |slots| => WrapSlot(slots[i]))
  }

  /** The channel with `u32` counts that one with unbounded counts looks like. */
  function WrapChannel(c: Channel): Channel {
    c.(slots := WrapSlots(c.slots))
  }

  /** The event drops a reference that is not the last, and reads a count of one. */
  predicate SlotFreesEarly(s: Slot, send: Send, e: Event, streams: nat, lent: bool) {
    Drops(s, send, e, streams, lent) && s.refs != 1 && U32.Wrap(s.refs) == 1
  }

  ghost predicate FreesEarly(c: Channel, e: Event) {
    && Target(c, e).Some?
    && var id := Target(c, e).value;
       SlotFreesEarly(c.slots[id], SenderOf(c, e), e, |c.used|, Lent(c.senders, id))
  }

  lemma CountWraps(refs: int, n: nat)
    requires refs >= 0
    ensures U32.Wrap(U32.Wrap(refs) + n) == U32.Wrap(refs + n)
    ensures U32.Wrap(U32.Wrap(refs) - 1) == U32.Wrap(refs - 1)
  {
    U32.WrapSum(refs, n);
    U32.WrapSub(refs, 1);
  }

  /** One event of one slot: the count that wraps does the same exactly when nothing is freed early. */
  lemma SlotWraps(s: Slot, send: Send, e: Event, streams: nat, failed: nat, lent: bool)
    requires s.Live? ==> s.refs > 0
    ensures (SlotNext(Wrapping, WrapSlot(s), send, e, streams, failed, lent) ==
              WrapSlot(SlotNext(Unbounded, s, send, e, streams, failed, lent)))
            <==> !SlotFreesEarly(s, send, e, streams, lent)
  {
    if s.Live? {
      CountWraps(s.refs, if e.RaiseCount? then streams + failed else if e.Announce? then e.count else 1);
    }
  }

  /** Senders do not look at counts. */
  lemma SendWraps(send: Send, s: Slot, e: Event, streams: nat)
    ensures SendNext(send, WrapSlot(s), e, streams) == SendNext(send, s, e, streams)
  {
  }

  lemma MoveWraps(slots: seq<Slot>, o: Outcome<nat>)
    ensures SlotsMoved(WrapSlots(slots), o) == WrapSlots(SlotsMoved(slots, o))
  {
  }

  lemma DispatcherWraps(c: Channel, stream: nat, a: Action<nat>)
    requires stream < |c.dispatchers| && |c.dispatchers[stream].buffer| > 0
    ensures Permitted(WrapChannel(c), stream, a) == Permitted(c, stream, a)
    ensures DispatcherNext(WrapChannel(c), stream, a) == WrapChannel(DispatcherNext(c, stream, a))
  {
    MoveWraps(c.slots, Observe(Wrapping, c.dispatchers[stream], a));
  }

  lemma UpdateWraps(slots: seq<Slot>, id: nat, s: Slot)
    requires id < |slots|
    ensures WrapSlots(slots[id := s]) == WrapSlots(slots)[id := WrapSlot(s)]
  {
  }

  lemma UpdateDiffers<T>(s: seq<T>, i: nat, x: T, y: T)
    requires i < |s|
    ensures s[i := x] == s[i := y] <==> x == y
  {
    assert s[i := x][i] == x && s[i := y][i] == y;
  }

  ghost predicate Counted(c: Channel) {
    HasBuffers(c) && forall id | 0 <= id < |c.slots| :: c.slots[id].Live? ==> c.slots[id].refs > 0
  }

  lemma SlotEventWraps(c: Channel, e: Event, id: nat)
    requires Counted(c) && Target(c, e) == Some(id)
    ensures TargetNext(Wrapping, WrapChannel(c), e, id) == WrapChannel(TargetNext(Unbounded, c, e, id)) <==>
              !FreesEarly(c, e)
  {
    var (s, send, lent) := (c.slots[id], SenderOf(c, e), Lent(c.senders, id));
    var wide := SlotNext(Unbounded, s, send, e, |c.used|, c.failed, lent);
    var narrow := SlotNext(Wrapping, WrapSlot(s), send, e, |c.used|, c.failed, lent);
    SlotWraps(s, send, e, |c.used|, c.failed, lent);
    SendWraps(send, s, e, |c.used|);
    UpdateWraps(c.slots, id, wide);
    UpdateDiffers(WrapSlots(c.slots), id, narrow, WrapSlot(wide));
    assert TargetNext(Wrapping, WrapChannel(c), e, id).slots == WrapSlots(c.slots)[id := narrow];
  }

  /** One event: the channel with `u32` counts does the same if and only if the event frees nothing early. */
  lemma EventWraps(c: Channel, e: Event)
    requires Counted(c)
    ensures ChannelNext(Wrapping, WrapChannel(c), e) == WrapChannel(ChannelNext(Unbounded, c, e)) <==> !FreesEarly(c, e)
  {
    if e.Dispatcher? {
      if e.stream < |c.dispatchers| { DispatcherWraps(c, e.stream, e.step); }
    } else if !e.ChangeStreams? && Target(c, e).Some? {
      SlotEventWraps(c, e, Target(c, e).value);
    }
  }

  // ---------------------------------------------------------------------------------------
  // Whole runs

  ghost predicate NoneFreesEarly(c: Channel, events: seq<Event>)
    requires HasBuffers(c)
  {
    forall n | 0 <= n < |events| :: !FreesEarly(Run(Unbounded, c, events[..n]), events[n])
  }

  /** The two channels agree after each of the first `n` events. */
  ghost predicate AgreeUpTo(c: Channel, events: seq<Event>, n: nat)
    requires HasBuffers(c)
  {
    n <= |events| ==> Run(Wrapping, WrapChannel(c), events[..n]) == WrapChannel(Run(Unbounded, c, events[..n]))
  }

  lemma RunIsCounted(c: Channel, events: seq<Event>)
    requires ChannelInv(c)
    ensures Counted(Run(Unbounded, c, events))
  {
    RunKeeps(c, events);
    var c' := Run(Unbounded, c, events);
    forall id | 0 <= id < |c'.slots|
      ensures SlotOk(c'.slots[id], id, c'.dispatchers, c'.senders, |c'.used|)
    {
    }
  }

  lemma AgreementGoesOn(c: Channel, events: seq<Event>, n: nat)
    requires ChannelInv(c) && n < |events| && AgreeUpTo(c, events, n)
    ensures AgreeUpTo(c, events, n + 1) <==> !FreesEarly(Run(Unbounded, c, events[..n]), events[n])
  {
    RunStep(Wrapping, WrapChannel(c), events, n);
    RunStep(Unbounded, c, events, n);
    RunIsCounted(c, events[..n]);
    EventWraps(Run(Unbounded, c, events[..n]), events[n]);
  }

  lemma {:induction false} AgreesSoFar(c: Channel, events: seq<Event>, n: nat)
    requires ChannelInv(c) && n <= |events| && NoneFreesEarly(c, events)
    ensures AgreeUpTo(c, events, n)
  {
    if n > 0 {
      AgreesSoFar(c, events, n - 1);
      assert !FreesEarly(Run(Unbounded, c, events[..n - 1]), events[n - 1]);
      AgreementGoesOn(c, events, n - 1);
    }
  }

  /**
   The channel with `u32` counts goes through what the one with unbounded counts does if and only
   if no event of the run frees a slot early, by dropping one of several references at a count
   that reads one.
   */
  lemma CountIsExact(c: Channel, events: seq<Event>)
    requires ChannelInv(c)
    ensures (forall n: nat :: AgreeUpTo(c, events, n)) <==> NoneFreesEarly(c, events)
  {
    if NoneFreesEarly(c, events) {
      forall n: nat
        ensures AgreeUpTo(c, events, n)
      {
        if n <= |events| { AgreesSoFar(c, events, n); }
      }
    }
    if forall n: nat :: AgreeUpTo(c, events, n) {
      forall n | 0 <= n < |events|
        ensures !FreesEarly(Run(Unbounded, c, events[..n]), events[n])
      {
        assert AgreeUpTo(c, events, n) && AgreeUpTo(c, events, n + 1);
        AgreementGoesOn(c, events, n);
      }
    }
  }

  /** Nothing frees early while no slot has more than 2^32 references. */
  lemma FewReferencesFit(c: Channel, e: Event)
    requires forall id | 0 <= id < |c.slots| && c.slots[id].Live? :: 0 < c.slots[id].refs <= 0x1_0000_0000
    ensures !FreesEarly(c, e)
  {
  }

  /** A user announces 2^32 - 1 copies and makes one more by cloning. */
  function UpToTheWrap(): seq<Event> {
    [Allocate(0), IntoArc(0), Announce(0, 0xFFFF_FFFF), Clone(0)]
  }

  /**
   After that run slot 0 has 2^32 + 1 references, two of them handles. Dropping one handle then
   deallocates the slot under the other.
   */
  lemma CountCanWrap(size: nat, streams: nat, threads: nat)
    requires size > 0
    ensures HasBuffers(New(size, streams, threads))
    ensures var c := Run(Unbounded, New(size, streams, threads), UpToTheWrap());
      && |c.slots| == size && c.slots[0] == Live(0x1_0000_0001, 2, 0xFFFF_FFFF, 0, 0)
      && FreesEarly(c, DropHandle(0)) && !FreesEarly(c, Clone(0))
      && ChannelNext(Wrapping, WrapChannel(c), DropHandle(0)).slots[0].Free?
      && ChannelNext(Unbounded, c, DropHandle(0)).slots[0] == Live(0x1_0000_0000, 1, 0xFFFF_FFFF, 0, 0)
  {
    ReachesTheWrap(size, streams, threads);
    DropUnderHandle(Run(Unbounded, New(size, streams, threads), UpToTheWrap()));
  }

  lemma ReachesTheWrap(size: nat, streams: nat, threads: nat)
    requires size > 0
    ensures HasBuffers(New(size, streams, threads))
    ensures var c := Run(Unbounded, New(size, streams, threads), UpToTheWrap());
      |c.slots| == size && c.slots[0] == Live(0x1_0000_0001, 2, 0xFFFF_FFFF, 0, 0)
  {
    var start := New(size, streams, threads);
    var c1, c2, c3 := FourEvents(start, UpToTheWrap());
    UserEvent(start, Allocate(0), Reserved);
    UserEvent(c1, IntoArc(0), Live(1, 1, 0, 0, 0));
    UserEvent(c2, Announce(0, 0xFFFF_FFFF), Live(0x1_0000_0000, 1, 0xFFFF_FFFF, 0, 0));
    UserEvent(c3, Clone(0), Live(0x1_0000_0001, 2, 0xFFFF_FFFF, 0, 0));
  }

  lemma FourEvents(c: Channel, events: seq<Event>) returns (c1: Channel, c2: Channel, c3: Channel)
    requires HasBuffers(c) && |events| == 4
    ensures HasBuffers(c1) && c1 == ChannelNext(Unbounded, c, events[0])
    ensures HasBuffers(c2) && c2 == ChannelNext(Unbounded, c1, events[1])
    ensures HasBuffers(c3) && c3 == ChannelNext(Unbounded, c2, events[2])
    ensures Run(Unbounded, c, events) == ChannelNext(Unbounded, c3, events[3])
  {
    c1, c2, c3 := Run(Unbounded, c, events[..1]), Run(Unbounded, c, events[..2]), Run(Unbounded, c, events[..3]);
    assert events[..0] == [] && events[..4] == events;
    RunStep(Unbounded, c, events, 0);
    RunStep(Unbounded, c, events, 1);
    RunStep(Unbounded, c, events, 2);
    RunStep(Unbounded, c, events, 3);
  }

  /** What an event by a user of slot 0 makes of it. */
  lemma UserEvent(c: Channel, e: Event, s: Slot)
    requires HasBuffers(c) && |c.slots| > 0 && !BySender(e) && Target(c, e) == Some(0)
    requires s == SlotNext(Unbounded, c.slots[0], NotSending, e, |c.used|, c.failed, Lent(c.senders, 0))
    ensures ChannelNext(Unbounded, c, e).slots == c.slots[0 := s]
  {
  }

  lemma DropUnderHandle(c: Channel)
    requires HasBuffers(c) && |c.slots| > 0 && c.slots[0] == Live(0x1_0000_0001, 2, 0xFFFF_FFFF, 0, 0)
    ensures FreesEarly(c, DropHandle(0)) && !FreesEarly(c, Clone(0))
    ensures ChannelNext(Wrapping, WrapChannel(c), DropHandle(0)).slots[0].Free?
    ensures ChannelNext(Unbounded, c, DropHandle(0)).slots[0] == Live(0x1_0000_0000, 1, 0xFFFF_FFFF, 0, 0)
  {
    assert WrapSlots(c.slots)[0] == Live(1, 2, 0xFFFF_FFFF, 0, 0);
  }
}
