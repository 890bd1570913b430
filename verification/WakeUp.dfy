/**
 The park and wake-up protocol of one stream of the `FullSync` Multi channel: producers that
 publish and wake, the task that polls `MutinyStream`, cancellation, and stream drop and
 re-creation, interleaved step by step. The stream's queue is an atomic bounded FIFO, and
 `wakers_lock` is shared with the other streams of the channel.
 */
module WakeUp {
  import opened Wrappers

  /** A task is known by the waker it polls with; wakers of one task wake each other's task. */
  type Task = nat

  /** Where the polling side stands in `poll_next`, `register_stream_waker` or `report_stream_dropped`. */
  datatype Consumer =
    | Polling          // about to call `consume`, or entitled to be polled again
    | CheckingKeep     // found nothing, about to read `keep_streams_running`
    | Registering      // about to compare the registered waker with its own
    | Locking          // about to take the lock to store its waker
    | Storing          // holds the lock
    | Unlocking        // stored, about to release the lock
    | SelfWaking       // about to wake its own waker
    | Parked           // returned `Pending`
    | Ended            // returned `Ready(None)`
    | DropLocking | DropClearing | DropUnlocking
    | Gone             // the stream id is vacant

  /** What a signaler does once its wake-up is complete. */
  datatype Resume<T> = Finish | Retry(item: T)

  /** Where a producer or canceller stands in `send_derived`, `cancel_stream` or `wake_stream`. */
  datatype Signaler<T> =
    | Out
    | Publishing(item: T)
    | Cancelling
    | Waking(after: Resume<T>)                       // about to read the waker without the lock
    | Calling(task: Task, after: Resume<T>)          // about to wake the waker it read
    | LockingToWake(after: Resume<T>)                // read none, about to take the lock
    | Rechecking(after: Resume<T>)                   // holds the lock, about to read again
    | CallingLocked(task: Task, after: Resume<T>)
    | UnlockingWake(after: Resume<T>)
  {
    predicate HoldsLock() {
      Rechecking? || CallingLocked? || UnlockingWake?
    }
  }

  datatype Holder = Nobody | TheConsumer | TheSignaler(t: nat) | AnotherStream

  datatype Stream<T> = Stream(
    queue: seq<T>, capacity: nat, keepRunning: bool, waker: Option<Task>, lock: Holder,
    owner: Task, notified: set<Task>, consumer: Consumer, signalers: seq<Signaler<T>>)

  datatype Event<T> =
    | Send(t: nat, item: T)
    | Cancel(t: nat)
    | Signal(t: nat)             // one step of signaler `t`
    | Poll                       // one step of the consumer; a parked one runs if its task was notified
    | Misjudge                   // `will_wake` denies that the registered waker wakes the same task
    | MoveTo(task: Task)         // the stream is polled by another task, or spuriously, from now on
    | RunElsewhere(task: Task)   // a task that does not own the stream runs, and spends its notification
    | Drop
    | Create(task: Task)
    | OthersLock | OthersUnlock  // signalers and consumers of other streams use the lock

  function SetSignaler<T>(s: Stream<T>, t: nat, pc: Signaler<T>): Stream<T>
    requires t < |s.signalers|
  {
    s.(signalers := s.signalers[t := pc])
  }

  function Resumed<T>(after: Resume<T>): Signaler<T> {
    match after
    case Finish => Out
    case Retry(item) => Publishing(item)
  }

  function SignalStep<T>(s: Stream<T>, t: nat): Stream<T>
    requires t < |s.signalers|
  {
    match s.signalers[t]
    case Out => s
    case Publishing(item) =>
      if |s.queue| < s.capacity then
        SetSignaler(s, t, if |s.queue| + 1 <= 1 then Waking(Finish) else Out).(queue := s.queue + [item])
      else SetSignaler(s, t, Waking(Retry(item)))
    case Cancelling => SetSignaler(s, t, Waking(Finish)).(keepRunning := false)
    case Waking(after) =>
      (match s.waker
       case Some(task) => SetSignaler(s, t, Calling(task, after))
       case None => SetSignaler(s, t, LockingToWake(after)))
    case Calling(task, after) => SetSignaler(s, t, Resumed(after)).(notified := s.notified + {task})
    case LockingToWake(after) =>
      if s.lock.Nobody? then SetSignaler(s, t, Rechecking(after)).(lock := TheSignaler(t)) else s
    case Rechecking(after) =>
      (match s.waker
       case Some(task) => SetSignaler(s, t, CallingLocked(task, after))
       case None => SetSignaler(s, t, UnlockingWake(after)))
    case CallingLocked(task, after) => SetSignaler(s, t, UnlockingWake(after)).(notified := s.notified + {task})
    case UnlockingWake(after) => SetSignaler(s, t, Resumed(after)).(lock := Nobody)
  }

  function PollStep<T>(s: Stream<T>): Stream<T> {
    match s.consumer
    case Polling => if s.queue == [] then s.(consumer := CheckingKeep) else s.(queue := s.queue[1..])
    case CheckingKeep => s.(consumer := if s.keepRunning then Registering else Ended)
    case Registering => s.(consumer := if s.waker == Some(s.owner) then Parked else Locking)
    case Locking => if s.lock.Nobody? then s.(lock := TheConsumer, consumer := Storing) else s
    case Storing => s.(waker := Some(s.owner), consumer := Unlocking)
    case Unlocking => s.(lock := Nobody, consumer := SelfWaking)
    case SelfWaking => s.(notified := s.notified + {s.owner}, consumer := Parked)
    case Parked => if s.owner in s.notified then s.(notified := s.notified - {s.owner}, consumer := Polling) else s
    case Ended => s
    case DropLocking => if s.lock.Nobody? then s.(lock := TheConsumer, consumer := DropClearing) else s
    case DropClearing => s.(waker := None, consumer := DropUnlocking)
    case DropUnlocking => s.(lock := Nobody, consumer := Gone)
    case Gone => s
  }

  /** An event that does not apply changes nothing. */
  function Next<T>(s: Stream<T>, e: Event<T>): Stream<T> {
    match e
    case Send(t, item) => if t < |s.signalers| && s.signalers[t].Out? then SetSignaler(s, t, Publishing(item)) else s
    case Cancel(t) => if t < |s.signalers| && s.signalers[t].Out? then SetSignaler(s, t, Cancelling) else s
    case Signal(t) => if t < |s.signalers| then SignalStep(s, t) else s
    case Poll => PollStep(s)
    case Misjudge => if s.consumer.Registering? then s.(consumer := Locking) else s
    case MoveTo(task) =>
      if s.consumer.Polling? || s.consumer.Parked? then
        s.(owner := task, consumer := Polling, notified := s.notified - {task})
      else s
    case RunElsewhere(task) => if task != s.owner || Finished(s) then s.(notified := s.notified - {task}) else s
    case Drop =>
      if s.consumer.Polling? || s.consumer.Parked? || s.consumer.Ended? then s.(consumer := DropLocking) else s
    case Create(task) =>
      if s.consumer.Gone? then
        s.(owner := task, keepRunning := true, consumer := Polling, notified := s.notified - {task})
      else s
    case OthersLock => if s.lock.Nobody? then s.(lock := AnotherStream) else s
    case OthersUnlock => if s.lock.AnotherStream? then s.(lock := Nobody) else s
  }

  function Run<T>(s: Stream<T>, events: seq<Event<T>>): Stream<T> {
    if events == [] then s else Next(Run(s, events[..|events| - 1]), events[|events| - 1])
  }

  /** A vacant stream id before its first stream, with `signalers` threads that may send or cancel. */
  function Vacant<T>(capacity: nat, signalers: nat): Stream<T> {
    Stream([], capacity, false, None, Nobody, 0, {}, Gone, seq(signalers, _ => Out))
  }

  // ---------------------------------------------------------------------------------------
  // Who will see to it that the consumer looks again

  /** Signaler `t` is inside a wake-up that will reach the current owner, or has yet to read whom to wake. */
  ghost predicate Owes<T>(s: Stream<T>, t: nat) {
    && t < |s.signalers|
    && var pc := s.signalers[t];
       || pc.Waking? || pc.LockingToWake? || pc.Rechecking?
       || ((pc.Calling? || pc.CallingLocked?) && pc.task == s.owner)
  }

  ghost predicate SomeoneOwes<T>(s: Stream<T>) {
    exists t :: Owes(s, t)
  }

  /** The consumer is going to look, without anybody's help, before it parks for good. */
  ghost predicate WillLook<T>(s: Stream<T>) {
    var c := s.consumer;
    || c.Polling? || c.Locking? || c.Storing? || c.Unlocking? || c.SelfWaking?
    || s.owner in s.notified
    || ((c.CheckingKeep? || c.Registering?) && s.waker != Some(s.owner))
  }

  predicate Finished<T>(s: Stream<T>) {
    var c := s.consumer;
    c.Ended? || c.DropLocking? || c.DropClearing? || c.DropUnlocking? || c.Gone?
  }

  ghost predicate LockOk<T>(s: Stream<T>) {
    var c := s.consumer;
    && (s.lock == TheConsumer <==> c.Storing? || c.Unlocking? || c.DropClearing? || c.DropUnlocking?)
    && forall t | 0 <= t < |s.signalers| :: s.signalers[t].HoldsLock() <==> s.lock == TheSignaler(t)
  }

  ghost predicate Inv<T>(s: Stream<T>) {
    && LockOk(s)
    && (s.consumer.Parked? || s.consumer.Unlocking? || s.consumer.SelfWaking? ==> s.waker == Some(s.owner))
    && (s.queue != [] ==> Finished(s) || WillLook(s) || SomeoneOwes(s))
    && (!s.keepRunning ==> Finished(s) || s.consumer.CheckingKeep? || WillLook(s) || SomeoneOwes(s))
  }

  ghost predicate Minded<T>(s: Stream<T>) {
    Finished(s) || WillLook(s) || SomeoneOwes(s)
  }

  lemma SignalKeepsLock<T>(s: Stream<T>, t: nat)
    requires LockOk(s) && t < |s.signalers|
    ensures LockOk(SignalStep(s, t))
  {
  }

  lemma PollKeepsLock<T>(s: Stream<T>)
    requires LockOk(s)
    ensures LockOk(PollStep(s))
  {
  }

  /** A signaler's step discharges what it owes only by notifying the owner, or when the owner will look anyway. */
  lemma SignalKeepsMinded<T>(s: Stream<T>, t: nat)
    requires Inv(s) && t < |s.signalers|
    ensures Minded(s) ==> Minded(SignalStep(s, t))
    ensures SignalStep(s, t).queue != s.queue && s.queue == [] ==> Owes(SignalStep(s, t), t)
    ensures SignalStep(s, t).keepRunning != s.keepRunning ==> Owes(SignalStep(s, t), t)
  {
    var s' := SignalStep(s, t);
    if SomeoneOwes(s) {
      var u :| Owes(s, u);
      if u != t {
        assert Owes(s', u);
      } else if s.waker == Some(s.owner) {
        assert Owes(s', t) || s.owner in s'.notified;
      } else {
        assert Owes(s', t) || s.owner in s'.notified || WillLook(s) || Finished(s);
      }
    }
  }

  lemma SignalKeepsInv<T>(s: Stream<T>, t: nat)
    requires Inv(s) && t < |s.signalers|
    ensures Inv(SignalStep(s, t))
  {
    SignalKeepsLock(s, t);
    SignalKeepsMinded(s, t);
  }

  lemma PollKeepsMinded<T>(s: Stream<T>)
    requires Inv(s) && Minded(s)
    ensures Minded(PollStep(s)) || (s.consumer.Polling? && s.queue == [])
  {
    if SomeoneOwes(s) {
      var u :| Owes(s, u);
      assert Owes(PollStep(s), u);
    }
  }

  lemma PollKeepsInv<T>(s: Stream<T>)
    requires Inv(s)
    ensures Inv(PollStep(s))
  {
    PollKeepsLock(s);
    if Minded(s) { PollKeepsMinded(s); }
  }

  /** Calls, moves, drops, re-creation and other streams' use of the lock. */
  lemma OutsideKeepsInv<T>(s: Stream<T>, e: Event<T>)
    requires Inv(s) && !e.Signal? && !e.Poll?
    ensures Inv(Next(s, e))
  {
    if SomeoneOwes(s) {
      var u :| Owes(s, u);
      assert Owes(Next(s, e), u) || Next(s, e).owner != s.owner;
    }
  }

  lemma NextKeepsInv<T>(s: Stream<T>, e: Event<T>)
    requires Inv(s)
    ensures Inv(Next(s, e))
  {
    if e.Signal? {
      if e.t < |s.signalers| { SignalKeepsInv(s, e.t); }
    } else if e.Poll? {
      PollKeepsInv(s);
    } else {
      OutsideKeepsInv(s, e);
    }
  }

  lemma {:induction false} RunKeepsInv<T>(capacity: nat, signalers: nat, events: seq<Event<T>>)
    ensures Inv(Run(Vacant(capacity, signalers), events))
  {
    if events != [] {
      RunKeepsInv(capacity, signalers, events[..|events| - 1]);
      NextKeepsInv(Run(Vacant(capacity, signalers), events[..|events| - 1]), events[|events| - 1]);
    }
  }

  // ---------------------------------------------------------------------------------------
  // The promises

  /**
   No wake-up is lost. In every interleaving, a parked stream whose queue is not empty, or that
   was cancelled, has its task notified or some signaler on its way to wake it.
   */
  lemma NoLostWakeUp<T>(capacity: nat, signalers: nat, events: seq<Event<T>>)
    ensures var s := Run(Vacant(capacity, signalers), events);
      s.consumer.Parked? && (s.queue != [] || !s.keepRunning) ==> s.owner in s.notified || SomeoneOwes(s)
  {
    RunKeepsInv(capacity, signalers, events);
  }

  /** Once no signaler is at work, a stream sleeps only if it has nothing to do. */
  lemma SleepsOnlyWhenIdle<T>(capacity: nat, signalers: nat, events: seq<Event<T>>)
    ensures var s := Run(Vacant(capacity, signalers), events);
      s.consumer.Parked? && s.owner !in s.notified && (forall t | 0 <= t < |s.signalers| :: s.signalers[t].Out?) ==>
        s.queue == [] && s.keepRunning
  {
    RunKeepsInv(capacity, signalers, events);
    var s := Run(Vacant(capacity, signalers), events);
    forall t: nat | Owes(s, t)
      ensures !s.signalers[t].Out?
    {
    }
  }

  function Signals<T>(s: Stream<T>, t: nat, steps: nat): Stream<T> {
    if steps == 0 then s else Next(Signals(s, t, steps - 1), Signal(t))
  }

  /**
   What a signaler owes, it delivers: with the lock free or its own, at most three of its own
   steps notify the task of a parked stream.
   */
  lemma OwedWakeUpArrives<T>(capacity: nat, signalers: nat, events: seq<Event<T>>, t: nat)
    requires var s := Run(Vacant<T>(capacity, signalers), events);
      s.consumer.Parked? && Owes(s, t) && (s.lock.Nobody? || s.lock == TheSignaler(t))
    ensures var s := Run(Vacant(capacity, signalers), events);
      var s' := Signals(s, t, if s.signalers[t].LockingToWake? then 3
                              else if s.signalers[t].Waking? || s.signalers[t].Rechecking? then 2 else 1);
      s'.owner == s.owner && s.owner in s'.notified
  {
    RunKeepsInv(capacity, signalers, events);
    var s := Run(Vacant(capacity, signalers), events);
    ThreeSignals(s, t);
    ParkedIsWoken(s, t);
  }

  lemma ThreeSignals<T>(s: Stream<T>, t: nat)
    requires t < |s.signalers|
    ensures |SignalStep(s, t).signalers| == |s.signalers| == |SignalStep(SignalStep(s, t), t).signalers|
    ensures Signals(s, t, 1) == SignalStep(s, t)
    ensures Signals(s, t, 2) == SignalStep(SignalStep(s, t), t)
    ensures Signals(s, t, 3) == SignalStep(SignalStep(SignalStep(s, t), t), t)
  {
    assert Signals(s, t, 0) == s;
    assert Signals(s, t, 1) == Next(Signals(s, t, 0), Signal(t));
    assert Signals(s, t, 2) == Next(Signals(s, t, 1), Signal(t));
    assert Signals(s, t, 3) == Next(Signals(s, t, 2), Signal(t));
  }

  lemma ParkedIsWoken<T>(s: Stream<T>, t: nat)
    requires s.consumer.Parked? && s.waker == Some(s.owner)
    requires Owes(s, t) && (s.signalers[t].LockingToWake? ==> s.lock.Nobody?)
    ensures var s1 := SignalStep(s, t);
      && s1.owner == s.owner && |s1.signalers| == |s.signalers|
      && var s2 := SignalStep(s1, t);
         && s2.owner == s.owner && |s2.signalers| == |s.signalers|
         && var s3 := SignalStep(s2, t);
            && s3.owner == s.owner
            && s.owner in (if s.signalers[t].LockingToWake? then s3
                           else if s.signalers[t].Waking? || s.signalers[t].Rechecking? then s2 else s1).notified
  {
  }
}
