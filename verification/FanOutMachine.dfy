/**
 The `OgreArc` fan-out channel: a pool of slots, reference counts, and one lock-free
 dispatcher ring per stream through which handles travel. Senders, consumers and handle
 owners interleave freely; every dispatcher operation is a sequence of atomic steps.

 The allocator appears here as the state of each slot; `FanOutPool` joins the channel to the
 lock-free free list.
 */
module FanOutMachine {
  import opened Counting
  import opened Wrappers
  import opened RingMachine
  import opened RingFifo
  import opened TokenRing
  import opened SlotRing
  import opened CopyRing
  import U32

  /**
   Where a thread stands inside `send_derived`. A `borrowed` handle stays with the user that has
   it, the other kind is the sender's own. `next` copies arrived in the queues of the first used
   streams, and with `inFlight` another one is inside the publish to the stream after them.
   */
  datatype Send =
    | NotSending
    | Created(id: nat, borrowed: bool)                              // the count is not raised yet
    | Dispatching(id: nat, next: nat, inFlight: bool, borrowed: bool)
    | Panicking(id: nat, missing: nat, borrowed: bool)              // about to drop a copy that was refused
    | Unwinding(id: nat, borrowed: bool)                            // about to be through
  {
    predicate Concerns(x: nat) {
      !NotSending? && id == x
    }

    predicate Borrows(x: nat) {
      Concerns(x) && borrowed
    }
  }

  /**
   `refs` is the slot's `references_count`; `handles` counts the handles in users' hands, `owed`
   the raw copies announced to `increment_references` and not made yet, `lost` those a sender
   announced and never made, and `sends` how often the slot was sent since it was allocated.
   */
  datatype Slot =
    | Free
    | Reserved                    // allocated, in a `reserve_slot` reference or an `OgreUnique`
    | Live(refs: int, handles: nat, owed: nat, lost: nat, sends: nat)

  /**
   Thread `t` is thread `t` of every dispatcher. `failed` creations of a stream left
   `running_streams_count` that much above the used streams; `panics` counts the copies refused.
   */
  datatype Channel = Channel(dispatchers: seq<Ring<nat>>, senders: seq<Send>, used: seq<nat>,
                             failed: nat, panics: nat, slots: seq<Slot>)

  datatype Event =
    | Allocate(id: nat)                            // alloc_ref
    | Unreserve(id: nat)                           // try_cancel_slot_reserve, or OgreUnique's drop
    | IntoArc(id: nat)                             // OgreArc::from_allocated, or into_ogre_arc
    | StartSend(t: nat, id: nat)                   // the fresh handle of send or try_send_reserved
    | SendHandle(t: nat, id: nat)                  // send_derived of a handle that a user has
    | RaiseCount(t: nat)                           // increment_references(running_streams_count)
    | Dispatcher(stream: nat, step: Action<nat>)   // a step of the stream's ring
    | DropRefused(t: nat)                          // the panic drops the copy that was refused
    | FinishSend(t: nat)                           // the send is over, and a handle of its own dropped
    | Clone(id: nat)
    | Announce(id: nat, count: nat)                // increment_references by a user
    | RawCopy(id: nat)
    | DropHandle(id: nat)
    | ChangeStreams(used: seq<nat>, failed: nat)   // streams come and go while nothing is dispatched

  /** The event is one step of a thread inside `send_derived`, or begins it. */
  predicate BySender(e: Event) {
    e.StartSend? || e.SendHandle? || e.RaiseCount? || e.DropRefused? || e.FinishSend?
  }

  /** The count in `u32`, or unbounded. */
  function Count(k: Counters, refs: int): int {
    if k.Wrapping? then U32.Wrap(refs) else refs
  }

  /** `drop`: whoever reads a count of one deallocates the slot. */
  function Unreference(k: Counters, s: Slot): Slot
    requires s.Live?
  {
    if s.refs == 1 then Free else s.(refs := Count(k, s.refs - 1))
  }

  /** Every publish of the send has returned, or it panicked and the refused copy is dropped. */
  predicate Over(send: Send, streams: nat) {
    send.Unwinding? || (send.Dispatching? && send.next == streams && !send.inFlight)
  }

  /** A handle that some sender borrows cannot be dropped; `lent` says there is one. */
  predicate MayDrop(s: Slot, lent: bool) {
    s.Live? && s.handles > if lent then 1 else 0
  }

  /** What an event makes of the slot it concerns; `send` is where its thread stands. */
  function SlotNext(k: Counters, s: Slot, send: Send, e: Event, streams: nat, failed: nat, lent: bool): Slot {
    match e
    case Allocate(_) => if s.Free? then Reserved else s
    case Unreserve(_) => if s.Reserved? then Free else s
    case IntoArc(_) => if s.Reserved? then Live(1, 1, 0, 0, 0) else s
    case StartSend(_, _) => if send.NotSending? && s.Reserved? then Live(1, 0, 0, 0, 1) else s
    case SendHandle(_, _) => if send.NotSending? && s.Live? && s.handles > 0 then s.(sends := s.sends + 1) else s
    case RaiseCount(_) =>
      if send.Created? && s.Live? then s.(refs := Count(k, s.refs + streams + failed), lost := s.lost + failed) else s
    case DropRefused(_) =>
      if send.Panicking? && s.Live? then Unreference(k, s.(lost := s.lost + send.missing)) else s
    case FinishSend(_) => if Over(send, streams) && s.Live? && !send.borrowed then Unreference(k, s) else s
    case Clone(_) =>
      if s.Live? && s.handles > 0 then s.(refs := Count(k, s.refs + 1), handles := s.handles + 1) else s
    case Announce(_, n) =>
      if s.Live? && s.handles > 0 then s.(refs := Count(k, s.refs + n), owed := s.owed + n) else s
    case RawCopy(_) =>
      if s.Live? && s.handles > 0 && s.owed > 0 then s.(handles := s.handles + 1, owed := s.owed - 1) else s
    case DropHandle(_) => if MayDrop(s, lent) then Unreference(k, s.(handles := s.handles - 1)) else s
    case Dispatcher(_, _) => s
    case ChangeStreams(_, _) => s
  }

  /** What an event makes of its thread, given the slot it concerns. */
  function SendNext(send: Send, s: Slot, e: Event, streams: nat): Send {
    match e
    case StartSend(_, id) => if send.NotSending? && s.Reserved? then Created(id, false) else send
    case SendHandle(_, id) => if send.NotSending? && s.Live? && s.handles > 0 then Created(id, true) else send
    case RaiseCount(_) => if send.Created? && s.Live? then Dispatching(send.id, 0, false, send.borrowed) else send
    case DropRefused(_) => if send.Panicking? && s.Live? then Unwinding(send.id, send.borrowed) else send
    case FinishSend(_) => if Over(send, streams) && s.Live? then NotSending else send
    case _ => send
  }

  /** Where the thread of the event stands. */
  function SenderOf(c: Channel, e: Event): Send {
    if BySender(e) && e.t < |c.senders| then c.senders[e.t] else NotSending
  }

  /** The slot the event concerns, if it concerns one. */
  function Target(c: Channel, e: Event): Option<nat> {
    if e.Dispatcher? || e.ChangeStreams? then None
    else if !BySender(e) then (if e.id < |c.slots| then Some(e.id) else None)
    else if e.t >= |c.senders| then None
    else if e.StartSend? || e.SendHandle? then (if e.id < |c.slots| then Some(e.id) else None)
    else
      var send := c.senders[e.t];
      if !send.NotSending? && send.id < |c.slots| then Some(send.id) else None
  }

  ghost predicate Lent(senders: seq<Send>, id: nat) {
    exists t :: 0 <= t < |senders| && senders[t].Borrows(id)
  }

  // ---------------------------------------------------------------------------------------
  // Dispatcher steps

  /** The copy that thread `t` has to publish next is one of slot `id` for `stream`. */
  predicate DueAt(c: Channel, stream: nat, t: nat, id: nat) {
    && t < |c.senders| && c.senders[t].Dispatching? && c.senders[t].id == id && !c.senders[t].inFlight
    && c.senders[t].next < |c.used| && c.used[c.senders[t].next] == stream
  }

  predicate Permitted(c: Channel, stream: nat, a: Action<nat>) {
    stream < |c.dispatchers| && !a.Unleak? && (a.CallPublish? ==> DueAt(c, stream, a.t, a.item))
  }

  function SendMoved(send: Send, offers: bool, o: Outcome<nat>, streams: nat): Send {
    if !send.Dispatching? then send
    else if offers then send.(inFlight := true)
    else if o.Published? then send.(next := send.next + 1, inFlight := false)
    else if o.Refused? then
      Panicking(send.id, if send.next < streams then streams - send.next - 1 else 0, send.borrowed)
    else send
  }

  function SlotsMoved(slots: seq<Slot>, o: Outcome<nat>): seq<Slot> {
    if o.Consumed? && o.item < |slots| && slots[o.item].Live? then
      slots[o.item := slots[o.item].(handles := slots[o.item].handles + 1)]
    else slots
  }

  function DispatcherNext(c: Channel, stream: nat, a: Action<nat>): Channel
    requires stream < |c.dispatchers| && |c.dispatchers[stream].buffer| > 0
  {
    var (r, o) := (c.dispatchers[stream], Observe(Wrapping, c.dispatchers[stream], a));
    c.(dispatchers := c.dispatchers[stream := Next(Wrapping, r, a)],
       senders := if a.t < |c.senders| then
                    c.senders[a.t := SendMoved(c.senders[a.t], Offering(r, a), o, |c.used|)]
                  else c.senders,
       panics := c.panics + (if o.Refused? then 1 else 0),
       slots := SlotsMoved(c.slots, o))
  }

  /** Nobody is in the middle of the list of used streams. */
  predicate StreamsIdle(senders: seq<Send>) {
    forall t | 0 <= t < |senders| :: !senders[t].Dispatching?
  }

  ghost predicate StreamsOk(used: seq<nat>, streams: nat) {
    Distinct(used) && forall i | 0 <= i < |used| :: used[i] < streams
  }

  predicate HasBuffers(c: Channel) {
    forall s | 0 <= s < |c.dispatchers| :: |c.dispatchers[s].buffer| > 0
  }

  ghost function TargetNext(k: Counters, c: Channel, e: Event, id: nat): Channel
    requires id < |c.slots| && (BySender(e) ==> e.t < |c.senders|)
  {
    var (s, send) := (c.slots[id], SenderOf(c, e));
    c.(slots := c.slots[id := SlotNext(k, s, send, e, |c.used|, c.failed, Lent(c.senders, id))],
       senders := if BySender(e) then c.senders[e.t := SendNext(send, s, e, |c.used|)] else c.senders)
  }

  ghost function ChannelNext(k: Counters, c: Channel, e: Event): Channel
    requires HasBuffers(c)
  {
    if e.Dispatcher? then
      if Permitted(c, e.stream, e.step) then DispatcherNext(c, e.stream, e.step) else c
    else if e.ChangeStreams? then
      if StreamsIdle(c.senders) && StreamsOk(e.used, |c.dispatchers|) && e.failed >= c.failed then
        c.(used := e.used, failed := e.failed)
      else c
    else
      match Target(c, e)
      case Some(id) => TargetNext(k, c, e, id)
      case None => c
  }

  // ---------------------------------------------------------------------------------------
  // Reference balance

  /** How many copies the send has passed to publish. */
  function Offered(send: Send): nat {
    if send.Dispatching? then send.next + (if send.inFlight then 1 else 0) else 0
  }

  /** The references to `id` that a sender accounts for: its own handle, and copies in its hands or still to be made. */
  function SenderRefs(send: Send, id: nat, streams: nat): int {
    if !send.Concerns(id) then 0 else
    (if send.borrowed then 0 else 1)
    + match send
      case Dispatching(_, _, _, _) => streams - Offered(send)
      case Panicking(_, missing, _) => 1 + missing
      case _ => 0
  }

  function RefsOf(id: nat, streams: nat): Send -> int {
    (send: Send) => SenderRefs(send, id, streams)
  }

  /** Every reference to a slot: queued or being published, in hand, owed, lost, or accounted for by a sender. */
  function References(s: Slot, id: nat, dispatchers: seq<Ring<nat>>, senders: seq<Send>, streams: nat): int
    requires s.Live?
  {
    Sum(CopiesOf(id), dispatchers) + s.handles + s.owed + s.lost + Sum(RefsOf(id, streams), senders)
  }

  ghost predicate Unsent(senders: seq<Send>, id: nat) {
    forall t | 0 <= t < |senders| :: !senders[t].Concerns(id)
  }

  /** The fresh handle of a sender that has not raised the count is the only one. */
  ghost predicate FreshOk(s: Slot, id: nat, copies: int, senders: seq<Send>) {
    forall t | 0 <= t < |senders| && senders[t] == Created(id, false) ::
      && s.Live? && s.handles == 0 && s.owed == 0 && copies == 0
      && forall u | 0 <= u < |senders| && u != t :: !senders[u].Concerns(id)
  }

  /** Reference balance: the count of a slot is the number of its references; other slots have none. */
  ghost predicate SlotOk(s: Slot, id: nat, dispatchers: seq<Ring<nat>>, senders: seq<Send>, streams: nat) {
    && FreshOk(s, id, Sum(CopiesOf(id), dispatchers), senders)
    && if s.Live? then
         && s.refs > 0 && s.refs == References(s, id, dispatchers, senders, streams)
         && (Lent(senders, id) ==> s.handles > 0)
       else Sum(CopiesOf(id), dispatchers) == 0 && Unsent(senders, id)
  }

  /** A copy of the sender is inside the publish to `stream`. */
  predicate FlightTo(send: Send, used: seq<nat>, stream: nat) {
    send.Dispatching? && send.inFlight && send.next < |used| && used[send.next] == stream
  }

  /** A thread that publishes publishes the copy it has in flight. */
  ghost predicate FlightsOk(dispatchers: seq<Ring<nat>>, senders: seq<Send>, used: seq<nat>) {
    forall s, t | 0 <= s < |dispatchers| && 0 <= t < |senders| ::
      && t < |dispatchers[s].threads|
      && (dispatchers[s].threads[t].Publishing() <==> FlightTo(senders[t], used, s))
      && (dispatchers[s].threads[t].Publishing() ==> dispatchers[s].threads[t].item == senders[t].id)
  }

  ghost predicate SendersOk(senders: seq<Send>, streams: nat, slots: nat) {
    forall t | 0 <= t < |senders| ::
      && (senders[t].Dispatching? ==> Offered(senders[t]) <= streams)
      && (!senders[t].NotSending? ==> senders[t].id < slots)
  }

  ghost predicate DispatchersOk(c: Channel) {
    && StreamsOk(c.used, |c.dispatchers|) && HasBuffers(c)
    && forall s | 0 <= s < |c.dispatchers| ::
         && Real(c.dispatchers[s]) && |c.dispatchers[s].threads| == |c.senders|
         && |c.dispatchers[s].buffer| == |c.slots|
  }

  ghost predicate ChannelInv(c: Channel) {
    && DispatchersOk(c) && SendersOk(c.senders, |c.used|, |c.slots|) && FlightsOk(c.dispatchers, c.senders, c.used)
    && forall id | 0 <= id < |c.slots| :: SlotOk(c.slots[id], id, c.dispatchers, c.senders, |c.used|)
  }

  // ---------------------------------------------------------------------------------------
  // Sums over senders and dispatchers

  lemma CopiesNotNegative(dispatchers: seq<Ring<nat>>, id: nat)
    ensures Sum(CopiesOf(id), dispatchers) >= 0
    ensures forall s | 0 <= s < |dispatchers| :: 0 <= CopiesIn(dispatchers[s], id) <= Sum(CopiesOf(id), dispatchers)
  {
    forall s | 0 <= s < |dispatchers|
      ensures CopiesOf(id)(dispatchers[s]) >= 0
    {
      NotNegative(dispatchers[s], id);
    }
    SumAtLeast(CopiesOf(id), dispatchers);
    assert forall s | 0 <= s < |dispatchers| :: CopiesOf(id)(dispatchers[s]) == CopiesIn(dispatchers[s], id);
  }

  lemma SenderRefsNotNegative(senders: seq<Send>, id: nat, streams: nat, slots: nat)
    requires SendersOk(senders, streams, slots)
    ensures Sum(RefsOf(id, streams), senders) >= 0
    ensures forall t | 0 <= t < |senders| ::
              0 <= SenderRefs(senders[t], id, streams) <= Sum(RefsOf(id, streams), senders)
  {
    SumAtLeast(RefsOf(id, streams), senders);
    assert forall t | 0 <= t < |senders| :: RefsOf(id, streams)(senders[t]) == SenderRefs(senders[t], id, streams);
  }

  /** With no reference from a sender and no handle lent, no sender concerns the slot. */
  lemma NobodySends(senders: seq<Send>, id: nat, streams: nat, slots: nat)
    requires SendersOk(senders, streams, slots) && Sum(RefsOf(id, streams), senders) <= 0 && !Lent(senders, id)
    ensures Unsent(senders, id)
  {
    SenderRefsNotNegative(senders, id, streams, slots);
    forall t | 0 <= t < |senders|
      ensures !senders[t].Concerns(id)
    {
      assert !senders[t].Borrows(id);
    }
  }

  lemma UnsentHasNoRefs(senders: seq<Send>, id: nat, streams: nat)
    requires Unsent(senders, id)
    ensures Sum(RefsOf(id, streams), senders) == 0 && !Lent(senders, id)
  {
    SumOfNone(RefsOf(id, streams), senders);
  }

  lemma SenderChanges(senders: seq<Send>, t: nat, send: Send, id: nat, streams: nat)
    requires t < |senders|
    ensures Sum(RefsOf(id, streams), senders[t := send]) ==
              Sum(RefsOf(id, streams), senders) - SenderRefs(senders[t], id, streams) + SenderRefs(send, id, streams)
  {
    SumChanges(RefsOf(id, streams), senders, t, send);
  }

  // ---------------------------------------------------------------------------------------
  // Events that concern one slot

  /** An event without a sender. */
  lemma SlotEventOk(s: Slot, e: Event, id: nat, dispatchers: seq<Ring<nat>>, senders: seq<Send>, streams: nat,
                    failed: nat, slots: nat)
    requires SlotOk(s, id, dispatchers, senders, streams) && SendersOk(senders, streams, slots) && !BySender(e)
    ensures SlotOk(SlotNext(Unbounded, s, NotSending, e, streams, failed, Lent(senders, id)), id, dispatchers,
                   senders, streams)
  {
    CopiesNotNegative(dispatchers, id);
    SenderRefsNotNegative(senders, id, streams, slots);
    if e.IntoArc? && s.Reserved? { UnsentHasNoRefs(senders, id, streams); }
    if e.DropHandle? && MayDrop(s, Lent(senders, id)) && s.refs == 1 { NobodySends(senders, id, streams, slots); }
  }

  /** A thread that has or gets nothing to do with a slot leaves it as it is. */
  lemma OtherSlotOk(s: Slot, id: nat, dispatchers: seq<Ring<nat>>, senders: seq<Send>, t: nat, send': Send,
                    streams: nat)
    requires SlotOk(s, id, dispatchers, senders, streams) && t < |senders|
    requires !senders[t].Concerns(id) && !send'.Concerns(id)
    ensures SlotOk(s, id, dispatchers, senders[t := send'], streams)
  {
    var senders' := senders[t := send'];
    SenderChanges(senders, t, send', id, streams);
    if Lent(senders', id) {
      var u :| 0 <= u < |senders'| && senders'[u].Borrows(id);
      assert senders[u].Borrows(id);
    }
  }

  /** What an event does for its thread and slot `id`, where the thread's send was with that slot or none. */
  ghost predicate SendsSlot(send: Send, e: Event, id: nat) {
    && BySender(e)
    && (if e.StartSend? || e.SendHandle? then e.id == id else send.Concerns(id))
  }

  lemma LentAfter(senders: seq<Send>, t: nat, send': Send, id: nat)
    requires t < |senders|
    ensures Lent(senders[t := send'], id) ==> send'.Borrows(id) || Lent(senders, id)
    ensures send'.Borrows(id) ==> Lent(senders[t := send'], id)
  {
    var senders' := senders[t := send'];
    if Lent(senders', id) {
      var u :| 0 <= u < |senders'| && senders'[u].Borrows(id);
      if u != t { assert senders[u].Borrows(id); }
    }
    if send'.Borrows(id) { assert senders'[t].Borrows(id); }
  }

  lemma StartSendOk(s: Slot, t: nat, id: nat, dispatchers: seq<Ring<nat>>, senders: seq<Send>, streams: nat)
    requires SlotOk(s, id, dispatchers, senders, streams) && t < |senders| && senders[t].NotSending? && s.Reserved?
    ensures SlotOk(Live(1, 0, 0, 0, 1), id, dispatchers, senders[t := Created(id, false)], streams)
  {
    UnsentHasNoRefs(senders, id, streams);
    SenderChanges(senders, t, Created(id, false), id, streams);
    LentAfter(senders, t, Created(id, false), id);
  }

  lemma SendHandleOk(s: Slot, t: nat, id: nat, dispatchers: seq<Ring<nat>>, senders: seq<Send>, streams: nat)
    requires SlotOk(s, id, dispatchers, senders, streams) && t < |senders| && senders[t].NotSending?
    requires s.Live? && s.handles > 0
    ensures SlotOk(s.(sends := s.sends + 1), id, dispatchers, senders[t := Created(id, true)], streams)
  {
    SenderChanges(senders, t, Created(id, true), id, streams);
  }

  lemma RaiseCountOk(s: Slot, t: nat, id: nat, dispatchers: seq<Ring<nat>>, senders: seq<Send>, streams: nat,
                     failed: nat)
    requires SlotOk(s, id, dispatchers, senders, streams) && t < |senders|
    requires senders[t].Created? && senders[t].Concerns(id) && s.Live?
    ensures SlotOk(s.(refs := s.refs + streams + failed, lost := s.lost + failed), id, dispatchers,
                   senders[t := Dispatching(id, 0, false, senders[t].borrowed)], streams)
  {
    var send' := Dispatching(id, 0, false, senders[t].borrowed);
    SenderChanges(senders, t, send', id, streams);
    LentAfter(senders, t, send', id);
    if send'.Borrows(id) { assert senders[t].Borrows(id); }
  }

  lemma DropRefusedOk(s: Slot, t: nat, id: nat, dispatchers: seq<Ring<nat>>, senders: seq<Send>, streams: nat,
                      slots: nat)
    requires SlotOk(s, id, dispatchers, senders, streams) && SendersOk(senders, streams, slots) && t < |senders|
    requires senders[t].Panicking? && senders[t].Concerns(id) && s.Live?
    ensures s.refs > 1
    ensures SlotOk(Unreference(Unbounded, s.(lost := s.lost + senders[t].missing)), id, dispatchers,
                   senders[t := Unwinding(id, senders[t].borrowed)], streams)
  {
    var send' := Unwinding(id, senders[t].borrowed);
    CopiesNotNegative(dispatchers, id);
    SenderRefsNotNegative(senders, id, streams, slots);
    SenderChanges(senders, t, send', id, streams);
    LentAfter(senders, t, send', id);
    if senders[t].borrowed { assert senders[t].Borrows(id); }
  }

  lemma FinishSendOk(s: Slot, t: nat, id: nat, dispatchers: seq<Ring<nat>>, senders: seq<Send>, streams: nat,
                     slots: nat)
    requires SlotOk(s, id, dispatchers, senders, streams) && SendersOk(senders, streams, slots) && t < |senders|
    requires Over(senders[t], streams) && senders[t].Concerns(id) && s.Live?
    ensures SlotOk(if senders[t].borrowed then s else Unreference(Unbounded, s), id, dispatchers,
                   senders[t := NotSending], streams)
  {
    var senders' := senders[t := NotSending];
    CopiesNotNegative(dispatchers, id);
    SenderRefsNotNegative(senders, id, streams, slots);
    SenderRefsNotNegative(senders', id, streams, slots);
    SenderChanges(senders, t, NotSending, id, streams);
    LentAfter(senders, t, NotSending, id);
    if !senders[t].borrowed && s.refs == 1 { NobodySends(senders', id, streams, slots); }
  }

  lemma SenderEventOk(s: Slot, e: Event, id: nat, dispatchers: seq<Ring<nat>>, senders: seq<Send>, streams: nat,
                      failed: nat, slots: nat)
    requires SlotOk(s, id, dispatchers, senders, streams) && SendersOk(senders, streams, slots)
    requires BySender(e) && e.t < |senders| && SendsSlot(senders[e.t], e, id)
    ensures SlotOk(SlotNext(Unbounded, s, senders[e.t], e, streams, failed, Lent(senders, id)), id, dispatchers,
                   senders[e.t := SendNext(senders[e.t], s, e, streams)], streams)
  {
    var (t, send) := (e.t, senders[e.t]);
    assert senders[t := send] == senders;
    if e.StartSend? && send.NotSending? && s.Reserved? {
      StartSendOk(s, t, id, dispatchers, senders, streams);
    } else if e.SendHandle? && send.NotSending? && s.Live? && s.handles > 0 {
      SendHandleOk(s, t, id, dispatchers, senders, streams);
    } else if e.RaiseCount? && send.Created? && s.Live? {
      RaiseCountOk(s, t, id, dispatchers, senders, streams, failed);
    } else if e.DropRefused? && send.Panicking? && s.Live? {
      DropRefusedOk(s, t, id, dispatchers, senders, streams, slots);
    } else if e.FinishSend? && Over(send, streams) && s.Live? {
      FinishSendOk(s, t, id, dispatchers, senders, streams, slots);
    }
  }

  /** The thread of such an event has no copy in flight, before or after. */
  lemma SendNextOk(send: Send, s: Slot, e: Event, streams: nat, slots: nat)
    requires BySender(e) && (send.Dispatching? ==> Offered(send) <= streams) && (!send.NotSending? ==> send.id < slots)
    requires (e.StartSend? || e.SendHandle?) ==> e.id < slots
    ensures var send' := SendNext(send, s, e, streams);
      && (send' != send ==> !(send.Dispatching? && send.inFlight) && !(send'.Dispatching? && send'.inFlight))
      && (send'.Dispatching? ==> Offered(send') <= streams) && (!send'.NotSending? ==> send'.id < slots)
      && (send' != send ==> if send'.NotSending? then !send.NotSending? else send.NotSending? || send'.id == send.id)
  {
  }

  lemma FlightsKeep(dispatchers: seq<Ring<nat>>, senders: seq<Send>, used: seq<nat>, t: nat, send': Send)
    requires FlightsOk(dispatchers, senders, used) && t < |senders|
    requires send' == senders[t] ||
             (!(senders[t].Dispatching? && senders[t].inFlight) && !(send'.Dispatching? && send'.inFlight))
    ensures FlightsOk(dispatchers, senders[t := send'], used)
  {
  }

  /** A step of a sender keeps every slot in balance. */
  lemma SenderTargetOk(c: Channel, e: Event, id: nat)
    requires ChannelInv(c) && BySender(e) && Target(c, e) == Some(id)
    ensures var c' := TargetNext(Unbounded, c, e, id);
      forall x | 0 <= x < |c.slots| :: SlotOk(c'.slots[x], x, c'.dispatchers, c'.senders, |c'.used|)
  {
    var send' := SendNext(c.senders[e.t], c.slots[id], e, |c.used|);
    assert SlotOk(c.slots[id], id, c.dispatchers, c.senders, |c.used|);
    SenderEventOk(c.slots[id], e, id, c.dispatchers, c.senders, |c.used|, c.failed, |c.slots|);
    OthersKeep(c, e, id, send');
  }

  lemma SenderTargetSenders(c: Channel, e: Event, id: nat)
    requires ChannelInv(c) && BySender(e) && Target(c, e) == Some(id)
    ensures var senders' := c.senders[e.t := SendNext(c.senders[e.t], c.slots[id], e, |c.used|)];
      FlightsOk(c.dispatchers, senders', c.used) && SendersOk(senders', |c.used|, |c.slots|)
  {
    SendNextOk(c.senders[e.t], c.slots[id], e, |c.used|, |c.slots|);
    FlightsKeep(c.dispatchers, c.senders, c.used, e.t, SendNext(c.senders[e.t], c.slots[id], e, |c.used|));
  }

  lemma SenderTargetKeeps(c: Channel, e: Event, id: nat)
    requires ChannelInv(c) && BySender(e) && Target(c, e) == Some(id)
    ensures ChannelInv(TargetNext(Unbounded, c, e, id))
  {
    SenderTargetOk(c, e, id);
    SenderTargetSenders(c, e, id);
  }

  lemma PlainTargetKeeps(c: Channel, e: Event, id: nat)
    requires ChannelInv(c) && !BySender(e) && Target(c, e) == Some(id)
    ensures ChannelInv(TargetNext(Unbounded, c, e, id))
  {
    assert SlotOk(c.slots[id], id, c.dispatchers, c.senders, |c.used|);
    SlotEventOk(c.slots[id], e, id, c.dispatchers, c.senders, |c.used|, c.failed, |c.slots|);
  }

  lemma OthersKeep(c: Channel, e: Event, id: nat, send': Send)
    requires ChannelInv(c) && BySender(e) && Target(c, e) == Some(id)
    requires send' == SendNext(c.senders[e.t], c.slots[id], e, |c.used|)
    ensures forall x | 0 <= x < |c.slots| && x != id ::
              SlotOk(c.slots[x], x, c.dispatchers, c.senders[e.t := send'], |c.used|)
  {
    assert c.senders[e.t := c.senders[e.t]] == c.senders;
    forall x | 0 <= x < |c.slots| && x != id
      ensures SlotOk(c.slots[x], x, c.dispatchers, c.senders[e.t := send'], |c.used|)
    {
      assert SlotOk(c.slots[x], x, c.dispatchers, c.senders, |c.used|);
      if send' != c.senders[e.t] {
        OtherSlotOk(c.slots[x], x, c.dispatchers, c.senders, e.t, send', |c.used|);
      }
    }
  }

  // ---------------------------------------------------------------------------------------
  // Dispatcher steps keep the balance

  /** What a dispatcher step means for its thread: an outcome about a copy is about the one it has in flight. */
  ghost predicate FlightFacts(send: Send, offers: bool, item: nat, o: Outcome<nat>, used: seq<nat>, stream: nat) {
    && (offers ==> o == Silent && send.Dispatching? && send.id == item && !send.inFlight
                   && send.next < |used| && used[send.next] == stream)
    && (o.Published? || o.Refused? ==> FlightTo(send, used, stream) && send.id == o.item)
    && !o.Unleaked?
  }

  lemma StepFacts(c: Channel, stream: nat, a: Action<nat>)
    requires ChannelInv(c) && Permitted(c, stream, a) && a.t < |c.senders|
    ensures var r := c.dispatchers[stream];
      FlightFacts(c.senders[a.t], Offering(r, a), Item(a), Observe(Wrapping, r, a), c.used, stream)
  {
    StepHandMove(Wrapping, c.dispatchers[stream], a);
  }

  /** The change in the copies, the references of the acting sender and the handles of `id` cancel out. */
  lemma StepBalances(send: Send, offers: bool, item: nat, o: Outcome<nat>, used: seq<nat>, stream: nat, id: nat)
    requires FlightFacts(send, offers, item, o, used, stream)
    ensures CopyChange(offers, item, o, id) + (if o.Consumed? && o.item == id then 1 else 0)
              + SenderRefs(SendMoved(send, offers, o, |used|), id, |used|) == SenderRefs(send, id, |used|)
    ensures SendMoved(send, offers, o, |used|).Concerns(id) <==> send.Concerns(id)
    ensures SendMoved(send, offers, o, |used|).Borrows(id) <==> send.Borrows(id)
    ensures SendMoved(send, offers, o, |used|) == Created(id, false) <==> send == Created(id, false)
  {
  }

  lemma CopiesMove(dispatchers: seq<Ring<nat>>, stream: nat, a: Action<nat>, id: nat)
    requires stream < |dispatchers| && Real(dispatchers[stream]) && !a.Unleak? && a.t < |dispatchers[stream].threads|
    ensures var r := dispatchers[stream];
      Sum(CopiesOf(id), dispatchers[stream := Next(Wrapping, r, a)]) ==
        Sum(CopiesOf(id), dispatchers) + CopyChange(Offering(r, a), Item(a), Observe(Wrapping, r, a), id)
  {
    CopiesStep(dispatchers[stream], a, id);
    SumChanges(CopiesOf(id), dispatchers, stream, Next(Wrapping, dispatchers[stream], a));
  }

  /** The senders concerned with a slot, and those that borrow it, stay the same. */
  lemma SameSenders(senders: seq<Send>, t: nat, send': Send, id: nat)
    requires t < |senders| && send'.Concerns(id) == senders[t].Concerns(id)
    requires send'.Borrows(id) == senders[t].Borrows(id)
    ensures Lent(senders[t := send'], id) == Lent(senders, id) && Unsent(senders[t := send'], id) == Unsent(senders, id)
  {
    LentAfter(senders, t, send', id);
    if Lent(senders, id) {
      var u :| 0 <= u < |senders| && senders[u].Borrows(id);
      assert senders[t := send'][u].Borrows(id);
    }
    if Unsent(senders[t := send'], id) {
      assert forall u | 0 <= u < |senders| :: senders[t := send'][u].Concerns(id) == senders[u].Concerns(id);
    }
  }

  /** A consumed copy belongs to a live slot, which gets one more handle. */
  function Handed(s: Slot, o: Outcome<nat>, id: nat): Slot {
    if o.Consumed? && o.item == id && s.Live? then s.(handles := s.handles + 1) else s
  }

  /** One slot over one dispatcher step, in numbers. */
  lemma StepKeepsSlot(s: Slot, id: nat, dispatchers: seq<Ring<nat>>, dispatchers': seq<Ring<nat>>, senders: seq<Send>,
                      t: nat, offers: bool, item: nat, o: Outcome<nat>, used: seq<nat>, stream: nat)
    requires SlotOk(s, id, dispatchers, senders, |used|) && t < |senders|
    requires FlightFacts(senders[t], offers, item, o, used, stream)
    requires Sum(CopiesOf(id), dispatchers') == Sum(CopiesOf(id), dispatchers) + CopyChange(offers, item, o, id)
    requires Sum(CopiesOf(id), dispatchers') >= 0
    ensures SlotOk(Handed(s, o, id), id, dispatchers', senders[t := SendMoved(senders[t], offers, o, |used|)], |used|)
  {
    var send' := SendMoved(senders[t], offers, o, |used|);
    StepBalances(senders[t], offers, item, o, used, stream, id);
    SenderChanges(senders, t, send', id, |used|);
    SameSenders(senders, t, send', id);
    assert Handed(s, o, id).Live? == s.Live?;
    StepKeepsFresh(s, id, Sum(CopiesOf(id), dispatchers), Sum(CopiesOf(id), dispatchers'), senders, t, offers, item, o,
                   used, stream);
  }

  lemma StepKeepsFresh(s: Slot, id: nat, copies: int, copies': int, senders: seq<Send>,
                       t: nat, offers: bool, item: nat, o: Outcome<nat>, used: seq<nat>, stream: nat)
    requires FreshOk(s, id, copies, senders) && t < |senders|
    requires FlightFacts(senders[t], offers, item, o, used, stream)
    requires copies' == copies + CopyChange(offers, item, o, id) >= 0
    ensures FreshOk(Handed(s, o, id), id, copies', senders[t := SendMoved(senders[t], offers, o, |used|)])
  {
    var senders' := senders[t := SendMoved(senders[t], offers, o, |used|)];
    StepBalances(senders[t], offers, item, o, used, stream, id);
    forall u | 0 <= u < |senders'| && senders'[u] == Created(id, false)
      ensures senders[u] == Created(id, false)
    {
    }
  }

  lemma StepKeepsFlights(c: Channel, stream: nat, a: Action<nat>)
    requires ChannelInv(c) && Permitted(c, stream, a) && a.t < |c.senders|
    ensures var c' := DispatcherNext(c, stream, a);
      FlightsOk(c'.dispatchers, c'.senders, c'.used) && SendersOk(c'.senders, |c'.used|, |c'.slots|)
  {
    var r := c.dispatchers[stream];
    StepFacts(c, stream, a);
    StepHandMove(Wrapping, r, a);
    OneThreadMoves(r, a);
  }

  lemma StepKeepsDispatchers(c: Channel, stream: nat, a: Action<nat>)
    requires ChannelInv(c) && Permitted(c, stream, a)
    ensures DispatchersOk(DispatcherNext(c, stream, a))
  {
    RealStep(c.dispatchers[stream], a);
    assert |SlotsMoved(c.slots, Observe(Wrapping, c.dispatchers[stream], a))| == |c.slots|;
  }

  lemma SlotsMovedAt(slots: seq<Slot>, o: Outcome<nat>, id: nat)
    requires id < |slots|
    ensures |SlotsMoved(slots, o)| == |slots| && SlotsMoved(slots, o)[id] == Handed(slots[id], o, id)
  {
  }

  lemma StepKeepsSlots(c: Channel, stream: nat, a: Action<nat>, id: nat)
    requires ChannelInv(c) && Permitted(c, stream, a) && a.t < |c.senders| && id < |c.slots|
    ensures var c' := DispatcherNext(c, stream, a);
      |c'.slots| == |c.slots| && SlotOk(c'.slots[id], id, c'.dispatchers, c'.senders, |c'.used|)
  {
    var (r, o) := (c.dispatchers[stream], Observe(Wrapping, c.dispatchers[stream], a));
    var dispatchers' := c.dispatchers[stream := Next(Wrapping, r, a)];
    assert SlotOk(c.slots[id], id, c.dispatchers, c.senders, |c.used|);
    StepFacts(c, stream, a);
    CopiesMove(c.dispatchers, stream, a, id);
    CopiesNotNegative(dispatchers', id);
    SlotsMovedAt(c.slots, o, id);
    StepKeepsSlot(c.slots[id], id, c.dispatchers, dispatchers', c.senders, a.t, Offering(r, a), Item(a), o, c.used,
                  stream);
  }

  lemma DispatcherNextKeeps(c: Channel, stream: nat, a: Action<nat>)
    requires ChannelInv(c) && Permitted(c, stream, a)
    ensures ChannelInv(DispatcherNext(c, stream, a))
  {
    var c' := DispatcherNext(c, stream, a);
    StepKeepsDispatchers(c, stream, a);
    if a.t < |c.senders| {
      StepKeepsFlights(c, stream, a);
      forall id | 0 <= id < |c'.slots|
        ensures SlotOk(c'.slots[id], id, c'.dispatchers, c'.senders, |c'.used|)
      {
        SlotsMovedAt(c.slots, Observe(Wrapping, c.dispatchers[stream], a), id);
        StepKeepsSlots(c, stream, a, id);
      }
    } else {
      OneThreadMoves(c.dispatchers[stream], a);
      assert c'.dispatchers == c.dispatchers && c'.slots == c.slots;
    }
  }

  // ---------------------------------------------------------------------------------------
  // Whole runs

  lemma StreamsChangeOk(s: Slot, id: nat, dispatchers: seq<Ring<nat>>, senders: seq<Send>, streams: nat, streams': nat)
    requires SlotOk(s, id, dispatchers, senders, streams) && StreamsIdle(senders)
    ensures SlotOk(s, id, dispatchers, senders, streams')
  {
    SumSame(RefsOf(id, streams), RefsOf(id, streams'), senders);
  }

  lemma StreamsChangeKeeps(c: Channel, used: seq<nat>, failed: nat)
    requires ChannelInv(c) && StreamsIdle(c.senders) && StreamsOk(used, |c.dispatchers|)
    ensures ChannelInv(c.(used := used, failed := failed))
  {
    forall id | 0 <= id < |c.slots|
      ensures SlotOk(c.slots[id], id, c.dispatchers, c.senders, |used|)
    {
      StreamsChangeOk(c.slots[id], id, c.dispatchers, c.senders, |c.used|, |used|);
    }
  }

  /** Every event keeps every slot balanced. */
  lemma ChannelNextKeeps(c: Channel, e: Event)
    requires ChannelInv(c)
    ensures ChannelInv(ChannelNext(Unbounded, c, e))
  {
    if e.Dispatcher? {
      if Permitted(c, e.stream, e.step) { DispatcherNextKeeps(c, e.stream, e.step); }
    } else if e.ChangeStreams? {
      if StreamsIdle(c.senders) && StreamsOk(e.used, |c.dispatchers|) { StreamsChangeKeeps(c, e.used, e.failed); }
    } else if Target(c, e).Some? {
      if BySender(e) {
        SenderTargetKeeps(c, e, Target(c, e).value);
      } else {
        PlainTargetKeeps(c, e, Target(c, e).value);
      }
    }
  }

  function New(size: nat, streams: nat, threads: nat): Channel {
    Channel(seq(streams, _ => Fresh(Iota(size), threads)), seq(threads, _ => NotSending), [], 0, 0,
            seq(size, _ => Free))
  }

  lemma NewIsOk(size: nat, streams: nat, threads: nat)
    requires U32.PowerOfTwo(size) && 0 < size < 0x8000_0000 && threads <= 0x8000_0001
    ensures ChannelInv(New(size, streams, threads))
  {
    var c := New(size, streams, threads);
    FreshIsReal(Iota(size), threads);
    assert forall s | 0 <= s < streams :: c.dispatchers[s] == Fresh(Iota(size), threads);
    forall id | 0 <= id < size
      ensures SlotOk(c.slots[id], id, c.dispatchers, c.senders, 0)
    {
      SumOfNone(CopiesOf(id), c.dispatchers);
    }
  }

  lemma ChannelNextShape(k: Counters, c: Channel, e: Event)
    requires HasBuffers(c)
    ensures var c' := ChannelNext(k, c, e);
      && |c'.dispatchers| == |c.dispatchers| && |c'.slots| == |c.slots| && |c'.senders| == |c.senders|
      && HasBuffers(c')
  {
    if e.Dispatcher? && e.stream < |c.dispatchers| {
      NextKeepsShape(Wrapping, c.dispatchers[e.stream], e.step);
    }
  }

  /** The channel after a whole run of events, from any starting point. */
  ghost function Run(k: Counters, c: Channel, events: seq<Event>): (c': Channel)
    requires HasBuffers(c)
    ensures |c'.dispatchers| == |c.dispatchers| && |c'.slots| == |c.slots| && |c'.senders| == |c.senders|
    ensures HasBuffers(c')
  {
    if events == [] then c else
    var before := Run(k, c, events[..|events| - 1]);
    ChannelNextShape(k, before, events[|events| - 1]);
    ChannelNext(k, before, events[|events| - 1])
  }

  lemma {:induction false} RunKeeps(c: Channel, events: seq<Event>)
    requires ChannelInv(c)
    ensures ChannelInv(Run(Unbounded, c, events))
  {
    if events != [] {
      RunKeeps(c, events[..|events| - 1]);
      ChannelNextKeeps(Run(Unbounded, c, events[..|events| - 1]), events[|events| - 1]);
    }
  }

  lemma RunStep(k: Counters, c: Channel, events: seq<Event>, n: nat)
    requires HasBuffers(c) && n < |events|
    ensures Run(k, c, events[..n + 1]) == ChannelNext(k, Run(k, c, events[..n]), events[n])
  {
    assert events[..n + 1][..n] == events[..n];
  }

  /** A channel of the sizes the program uses, after some run. */
  ghost predicate Reachable(c: Channel, size: nat, streams: nat, threads: nat, events: seq<Event>) {
    && U32.PowerOfTwo(size) && 0 < size < 0x8000_0000 && threads <= 0x8000_0001
    && c == Run(Unbounded, New(size, streams, threads), events)
  }

  lemma ReachableIsOk(c: Channel, size: nat, streams: nat, threads: nat, events: seq<Event>)
    requires Reachable(c, size, streams, threads, events)
    ensures ChannelInv(c) && |c.slots| == size && |c.dispatchers| == streams && |c.senders| == threads
  {
    NewIsOk(size, streams, threads);
    RunKeeps(New(size, streams, threads), events);
  }

  lemma SlotReachable(c: Channel, size: nat, streams: nat, threads: nat, events: seq<Event>, id: nat)
    requires Reachable(c, size, streams, threads, events) && id < size
    ensures ChannelInv(c) && |c.slots| == size && SlotOk(c.slots[id], id, c.dispatchers, c.senders, |c.used|)
  {
    ReachableIsOk(c, size, streams, threads, events);
  }

  /** No stream's queue ever holds more than the buffer size. */
  lemma QueuesStayBounded(c: Channel, size: nat, streams: nat, threads: nat, events: seq<Event>, stream: nat)
    requires Reachable(c, size, streams, threads, events) && stream < streams
    ensures |c.dispatchers| == streams && |c.dispatchers[stream].buffer| > 0
    ensures |Contents(c.dispatchers[stream])| <= size
  {
    ReachableIsOk(c, size, streams, threads, events);
    RealContents(c.dispatchers[stream]);
  }

  /**
   Over every run, a live slot's `references_count` is the number of its copies in dispatchers,
   however many one of them has, and of its handles in users' hands, plus the copies still owed and
   those lost, plus what its senders account for. A slot that is not live has no copy and no sender.
   */
  lemma ReferencesBalance(c: Channel, size: nat, streams: nat, threads: nat, events: seq<Event>, id: nat)
    requires Reachable(c, size, streams, threads, events) && id < size
    ensures |c.slots| == size
    ensures var (s, queued) := (c.slots[id], Sum(CopiesOf(id), c.dispatchers));
      if s.Live? then
        s.refs > 0 && s.refs == queued + s.handles + s.owed + s.lost + Sum(RefsOf(id, |c.used|), c.senders)
      else queued == 0 && Unsent(c.senders, id)
  {
    SlotReachable(c, size, streams, threads, events, id);
  }

  /** The event drops a reference to the slot. */
  predicate Drops(s: Slot, send: Send, e: Event, streams: nat, lent: bool) {
    && s.Live?
    && ((e.DropHandle? && MayDrop(s, lent)) || (e.DropRefused? && send.Panicking?)
        || (e.FinishSend? && Over(send, streams) && !send.borrowed))
  }

  lemma SlotFreedByLastDrop(s: Slot, send: Send, e: Event, streams: nat, failed: nat, lent: bool)
    requires s.Live?
    ensures var s' := SlotNext(Unbounded, s, send, e, streams, failed, lent);
      && (!s'.Live? ==> s'.Free?)
      && (!s'.Live? <==> Drops(s, send, e, streams, lent) && s.refs == 1)
  {
  }

  lemma OthersKeepLive(c: Channel, e: Event, id: nat)
    requires HasBuffers(c) && id < |c.slots| && c.slots[id].Live? && Target(c, e) != Some(id)
    ensures |ChannelNext(Unbounded, c, e).slots| == |c.slots| && ChannelNext(Unbounded, c, e).slots[id].Live?
    ensures ChannelNext(Unbounded, c, e).slots[id].lost == c.slots[id].lost
  {
    if e.Dispatcher? && e.stream < |c.dispatchers| {
      SlotsMovedAt(c.slots, Observe(Wrapping, c.dispatchers[e.stream], e.step), id);
    }
  }

  /**
   Over every run, a live slot is deallocated by exactly those events that drop its very last
   reference: at that moment no other one is queued, held, owed, lost or with a sender.
   */
  lemma LastDropDeallocates(c: Channel, size: nat, streams: nat, threads: nat, events: seq<Event>, e: Event, id: nat)
    requires Reachable(c, size, streams, threads, events) && id < size
    ensures HasBuffers(c) && |c.slots| == |ChannelNext(Unbounded, c, e).slots| == size
    ensures var (s, s') := (c.slots[id], ChannelNext(Unbounded, c, e).slots[id]);
      s.Live? ==>
        && (!s'.Live? <==> Target(c, e) == Some(id) && Drops(s, SenderOf(c, e), e, |c.used|, Lent(c.senders, id))
                           && References(s, id, c.dispatchers, c.senders, |c.used|) == 1)
        && (!s'.Live? ==> s'.Free?)
  {
    SlotReachable(c, size, streams, threads, events, id);
    ChannelNextShape(Unbounded, c, e);
    if c.slots[id].Live? {
      if Target(c, e) == Some(id) {
        SlotFreedByLastDrop(c.slots[id], SenderOf(c, e), e, |c.used|, c.failed, Lent(c.senders, id));
      } else {
        OthersKeepLive(c, e, id);
      }
    }
  }

  // ---------------------------------------------------------------------------------------
  // Every stream gets its copy

  /** The event makes thread `t`'s publish of `id` to `stream` take effect. */
  ghost predicate ArrivesAt(c: Channel, e: Event, stream: nat, t: nat, id: nat) {
    && e.Dispatcher? && e.stream == stream && e.step.t == t && Permitted(c, stream, e.step)
    && var o := Observe(Wrapping, c.dispatchers[stream], e.step); o.Published? && o.item == id
  }

  /** How many copies of `id` thread `t` makes arrive in the queue of `stream` in a run. */
  ghost function Arrivals(c: Channel, events: seq<Event>, stream: nat, t: nat, id: nat): nat
    requires HasBuffers(c)
  {
    if events == [] then 0 else
    var front := events[..|events| - 1];
    var arrives := ArrivesAt(Run(Unbounded, c, front), events[|events| - 1], stream, t, id);
    Arrivals(c, front, stream, t, id) + if arrives then 1 else 0
  }

  ghost predicate Sending(c: Channel, t: nat, id: nat) {
    t < |c.senders| && c.senders[t].Dispatching? && c.senders[t].id == id
  }

  /** What one event does to the progress of a send that it leaves under way. */
  ghost predicate Advances(c: Channel, t: nat, id: nat, c': Channel, arrived: bool, stream: nat) {
    && Sending(c, t, id) && Sending(c', t, id) && c'.used == c.used
    && var (n, n') := (c.senders[t].next, c'.senders[t].next);
       if arrived then n < |c.used| && c.used[n] == stream && n' == n + 1
       else n' == n || (n' == n + 1 <= |c.used| && c.used[n] != stream)
  }

  lemma DispatcherAdvances(c: Channel, s: nat, a: Action<nat>, t: nat, id: nat, stream: nat)
    requires ChannelInv(c) && Sending(c, t, id) && Permitted(c, s, a) && Sending(DispatcherNext(c, s, a), t, id)
    ensures Advances(c, t, id, DispatcherNext(c, s, a), ArrivesAt(c, Dispatcher(s, a), stream, t, id), stream)
  {
    if a.t == t { StepFacts(c, s, a); }
  }

  /** A send that is under way after an event was under way before it, or has only begun. */
  lemma SendAdvances(c: Channel, e: Event, t: nat, id: nat, stream: nat)
    requires ChannelInv(c) && Sending(c, t, id) && Sending(ChannelNext(Unbounded, c, e), t, id)
    ensures Advances(c, t, id, ChannelNext(Unbounded, c, e), ArrivesAt(c, e, stream, t, id), stream)
  {
    if e.Dispatcher? {
      if Permitted(c, e.stream, e.step) { DispatcherAdvances(c, e.stream, e.step, t, id, stream); }
    } else {
      PlainAdvances(c, e, t, id, stream);
    }
  }

  lemma PlainAdvances(c: Channel, e: Event, t: nat, id: nat, stream: nat)
    requires HasBuffers(c) && !e.Dispatcher? && Sending(c, t, id) && Sending(ChannelNext(Unbounded, c, e), t, id)
    ensures Advances(c, t, id, ChannelNext(Unbounded, c, e), false, stream)
  {
  }

  /** Only a new raise of the count begins to dispatch. */
  lemma StillSending(c: Channel, e: Event, t: nat, id: nat)
    requires HasBuffers(c) && t < |c.senders| && e != RaiseCount(t) && Sending(ChannelNext(Unbounded, c, e), t, id)
    ensures Sending(c, t, id)
  {
  }

  /**
   From the moment the count is raised and as long as the send is under way, the streams already
   served are the first ones in use, and exactly one copy arrived in the queue of each; none arrived
   in any other.
   */
  lemma {:induction false} ServedInOrder(c: Channel, events: seq<Event>, t: nat, id: nat, stream: nat)
    requires ChannelInv(c) && Sending(c, t, id) && c.senders[t].next == 0
    requires RaiseCount(t) !in events && Sending(Run(Unbounded, c, events), t, id)
    ensures var c' := Run(Unbounded, c, events);
      && ChannelInv(c') && c'.used == c.used && c'.senders[t].next <= |c.used|
      && Arrivals(c, events, stream, t, id) == if stream in c.used[..c'.senders[t].next] then 1 else 0
  {
    RunKeeps(c, events);
    if events != [] {
      var (front, e) := (events[..|events| - 1], events[|events| - 1]);
      var (before, after) := (Run(Unbounded, c, front), Run(Unbounded, c, events));
      StillSending(before, e, t, id);
      ServedInOrder(c, front, t, id, stream);
      SendAdvances(before, e, t, id, stream);
      PrefixGrows(c.used, before.senders[t].next, after.senders[t].next, stream);
    }
  }

  lemma PrefixGrows(used: seq<nat>, n: nat, n': nat, stream: nat)
    requires n <= n' <= |used| && n' <= n + 1 && Distinct(used)
    ensures n' == n ==> (stream in used[..n'] <==> stream in used[..n])
    ensures n' == n + 1 ==> (stream in used[..n'] <==> stream in used[..n] || stream == used[n])
    ensures n < |used| && stream == used[n] ==> stream !in used[..n]
  {
    if n' == n + 1 {
      assert used[..n'] == used[..n] + [used[n]];
    }
  }

  /**
   When a send that did not panic finishes, exactly one copy of its slot arrived in the queue of
   each stream in use, and none in any other, since the count was raised. It can finish at no other
   moment.
   */
  lemma OneCopyPerStream(c: Channel, events: seq<Event>, t: nat, id: nat, stream: nat)
    requires ChannelInv(c) && Sending(c, t, id) && c.senders[t].next == 0
    requires RaiseCount(t) !in events && Sending(Run(Unbounded, c, events), t, id)
    ensures var c' := Run(Unbounded, c, events);
      ChannelNext(Unbounded, c', FinishSend(t)) != c' ==>
        Arrivals(c, events, stream, t, id) == if stream in c.used then 1 else 0
  {
    ServedInOrder(c, events, t, id, stream);
    var c' := Run(Unbounded, c, events);
    if ChannelNext(Unbounded, c', FinishSend(t)) != c' {
      FinishIsEffective(c', t, id);
      assert c.used[..|c.used|] == c.used;
    }
  }

  lemma FinishIsEffective(c: Channel, t: nat, id: nat)
    requires HasBuffers(c) && Sending(c, t, id) && ChannelNext(Unbounded, c, FinishSend(t)) != c
    ensures Over(c.senders[t], |c.used|)
  {
    assert c.senders[t := c.senders[t]] == c.senders;
    if id < |c.slots| { assert c.slots[id := c.slots[id]] == c.slots; }
  }
}
