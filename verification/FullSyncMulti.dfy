/**
 The `FullSync` Multi channel with its operations taken one at a time: a queue per stream id
 and the registry of streams. `WakeUp` has the interleaved half of `send_derived`.
 */
module FullSyncMulti {
  import opened Counting
  import opened Wrappers
  import opened StreamsManager

  /** The tasks woken by an event sent to the streams `ids`: those whose queue was empty. */
  function Alerted<T>(ids: seq<nat>, queues: seq<seq<T>>, wakers: seq<Option<nat>>): seq<nat> {
    if ids == [] then [] else
    Alerted(ids[..|ids| - 1], queues, wakers) + AlertedBy(ids[|ids| - 1], queues, wakers)
  }

  function AlertedBy<T>(id: nat, queues: seq<seq<T>>, wakers: seq<Option<nat>>): seq<nat> {
    if id < |queues| && queues[id] == [] then Waked(wakers, id) else []
  }

  /** Those, and at last the task of the stream whose queue was full. */
  function Woken<T>(ids: seq<nat>, queues: seq<seq<T>>, wakers: seq<Option<nat>>, blockedAt: Option<nat>,
                    used: seq<nat>): seq<nat> {
    if blockedAt.Some? && blockedAt.value < |used| then
      Alerted(ids, queues, wakers) + Waked(wakers, used[blockedAt.value])
    else Alerted(ids, queues, wakers)
  }

  lemma AlertedNext<T>(used: seq<nat>, from: nat, i: nat, queues: seq<seq<T>>, wakers: seq<Option<nat>>)
    requires from <= i < |used|
    ensures Alerted(used[from..i + 1], queues, wakers) ==
              Alerted(used[from..i], queues, wakers) + AlertedBy(used[i], queues, wakers)
  {
    assert used[from..i + 1][..i - from] == used[from..i];
  }

  /** Each of the streams `ids` was sent the item once more, and no other was. */
  ghost predicate Delivered<T>(was: seq<seq<T>>, now: seq<seq<T>>, ids: seq<nat>, item: T) {
    && |now| == |was|
    && forall id | 0 <= id < |was| :: now[id] == was[id] + if id in ids then [item] else []
  }

  lemma DeliveredNext<T>(was: seq<seq<T>>, now: seq<seq<T>>, ids: seq<nat>, id: nat, item: T)
    requires Delivered(was, now, ids, item) && id !in ids && id < |was|
    ensures now[id] == was[id] && Delivered(was, now[id := now[id] + [item]], ids + [id], item)
  {
  }

  /** A send that came from position `from` to position `i`: what it sent, and whom it woke. */
  ghost predicate Progress<T>(used: seq<nat>, from: nat, i: nat, item: T, queues: seq<seq<T>>, wakers: seq<Option<nat>>,
                              was: seq<seq<T>>, now: seq<seq<T>>, before: seq<nat>, after: seq<nat>) {
    && from <= i <= |used|
    && Delivered(was, now, used[from..i], item)
    && after == before + Alerted(used[from..i], queues, wakers)
  }

  lemma ProgressNext<T>(used: seq<nat>, from: nat, i: nat, item: T, queues: seq<seq<T>>, wakers: seq<Option<nat>>,
                        was: seq<seq<T>>, now: seq<seq<T>>, before: seq<nat>, after: seq<nat>)
    requires Progress(used, from, i, item, queues, wakers, was, now, before, after)
    requires i < |used| && used[i] < |was| && used[i] !in used[from..i]
    requires used[from..i + 1] == used[from..i] + [used[i]]
    ensures now[used[i]] == was[used[i]]
    ensures Progress(used, from, i + 1, item, queues, wakers, was, now[used[i] := now[used[i]] + [item]],
                     before, after + AlertedBy(used[i], queues, wakers))
  {
    DeliveredNext(was, now, used[from..i], used[i], item);
    AlertedNext(used, from, i, queues, wakers);
    Regroup(before, Alerted(used[from..i], queues, wakers), AlertedBy(used[i], queues, wakers));
  }

  /** What is queued after the same part was consumed of the same history is the same. */
  lemma SameQueue<T>(consumed: seq<T>, queue: seq<T>, queue': seq<T>)
    requires consumed + queue == consumed + queue'
    ensures queue == queue'
  {
    assert queue == (consumed + queue)[|consumed|..];
    assert queue' == (consumed + queue')[|consumed|..];
  }

  class FullSync<T> {
    const streamsManager: StreamsManagerBase
    const bufferSize: nat
    const channels: array<seq<T>>

    /** Per stream id: the events sent while the id was in use, and the events its streams consumed. */
    ghost var sent: seq<seq<T>>
    ghost var consumed: seq<seq<T>>

    ghost predicate Valid()
      reads this, channels, streamsManager, streamsManager.usedStreams
    {
      && streamsManager.Valid() && bufferSize > 0
      && channels.Length == |sent| == |consumed| == streamsManager.maxStreams
      && forall id | 0 <= id < channels.Length ::
           |channels[id]| <= bufferSize && consumed[id] + channels[id] == sent[id]
    }

    constructor (maxStreams: nat, bufferSize: nat)
      requires 0 < maxStreams < SENTINEL && bufferSize > 0
      ensures Valid() && fresh(streamsManager) && fresh(channels) && fresh(streamsManager.usedStreams)
      ensures this.bufferSize == bufferSize && channels.Length == maxStreams && streamsManager.Used() == []
      ensures forall id | 0 <= id < maxStreams :: sent[id] == [] && consumed[id] == []
    {
      streamsManager := new StreamsManagerBase(maxStreams);
      this.bufferSize := bufferSize;
      channels := new seq<T>[maxStreams](_ => []);
      sent, consumed := seq(maxStreams, _ => []), seq(maxStreams, _ => []);
    }

    /** The ids at positions `from` to `to` of the list of used streams. */
    ghost function Listed(from: nat, to: nat): seq<nat>
      reads streamsManager
      requires from <= to <= |streamsManager.Used()|
    {
      streamsManager.Used()[from..to]
    }

    /** `publish_movable` on one stream's queue: the length after it, or nothing exactly when it is full. */
    method PublishTo(streamId: nat, item: T) returns (len: Option<nat>)
      requires Valid() && streamId < channels.Length
      modifies channels, this`sent
      ensures Valid() && consumed == old(consumed)
      ensures len.Some? <==> |old(channels[streamId])| < bufferSize
      ensures len.Some? ==> len.value == |old(channels[streamId])| + 1
                            && sent == old(sent)[streamId := old(sent[streamId]) + [item]]
      ensures len.None? ==> sent == old(sent) && channels[..] == old(channels[..])
    {
      if |channels[streamId]| >= bufferSize {
        return None;
      }
      channels[streamId] := channels[streamId] + [item];
      sent := sent[streamId := sent[streamId] + [item]];
      return Some(|channels[streamId]|);
    }

    /**
     `send_derived`, from position `from` of the used streams on (0 for a new event): gives the
     event to each of them once, and wakes those that had none queued. At a stream whose queue is
     full it wakes that stream and stops, where the original waits and tries it again; then the
     position to resume from is returned.
     */
    method SendDerived(item: T, from: nat) returns (blockedAt: Option<nat>)
      requires Valid() && from <= |streamsManager.Used()|
      modifies channels, this`sent, streamsManager.executor
      ensures Valid() && consumed == old(consumed)
      ensures blockedAt.Some? ==>
                && from <= blockedAt.value < |streamsManager.Used()|
                && streamsManager.Used()[blockedAt.value] < channels.Length
                && |channels[streamsManager.Used()[blockedAt.value]]| == bufferSize
      ensures var upTo := if blockedAt.Some? then blockedAt.value else |streamsManager.Used()|;
        Delivered(old(sent), sent, Listed(from, upTo), item)
      ensures var upTo := if blockedAt.Some? then blockedAt.value else |streamsManager.Used()|;
        streamsManager.executor.wakeUps == old(streamsManager.executor.wakeUps) +
          Woken(Listed(from, upTo), old(channels[..]), streamsManager.wakers[..], blockedAt, streamsManager.Used())
    {
      ghost var used := streamsManager.Used();
      ghost var (queues, wakers, was) := (channels[..], streamsManager.wakers[..], sent);
      ghost var before := streamsManager.executor.wakeUps;
      var i := from;
      while i < streamsManager.usedStreams.Length
        invariant i <= |used| && Valid() && streamsManager.Used() == used && consumed == old(consumed)
        invariant Progress(used, from, i, item, queues, wakers, was, sent, before, streamsManager.executor.wakeUps)
      {
        UsedEntry(streamsManager.vacantStreams, streamsManager.maxStreams, i);
        if streamsManager.usedStreams[i] == SENTINEL {
          break;
        }
        var ok := Serve(i, item, from, queues, wakers, was, before);
        if !ok {
          return Some(i);
        }
        i := i + 1;
      }
      assert i == |used|;
      assert Listed(from, |used|) == used[from..i];
      return None;
    }

    /** One round of the send: the stream at position `i`, which is then served, or wakes because it is full. */
    method Serve(i: nat, item: T, ghost from: nat, ghost queues: seq<seq<T>>, ghost wakers: seq<Option<nat>>,
                 ghost was: seq<seq<T>>, ghost before: seq<nat>) returns (ok: bool)
      requires Valid() && i < |streamsManager.Used()| && |was| == |queues| == channels.Length
      requires Progress(streamsManager.Used(), from, i, item, queues, wakers, was, sent, before,
                        streamsManager.executor.wakeUps)
      requires wakers == streamsManager.wakers[..]
      requires forall id | 0 <= id < channels.Length :: consumed[id] + queues[id] == was[id]
      modifies channels, this`sent, streamsManager.executor
      ensures Valid() && consumed == old(consumed)
      ensures ok ==> Progress(streamsManager.Used(), from, i + 1, item, queues, wakers, was, sent, before,
                              streamsManager.executor.wakeUps)
      ensures !ok ==> sent == old(sent) && streamsManager.Used()[i] < channels.Length
                      && |channels[streamsManager.Used()[i]]| == bufferSize
                      && streamsManager.executor.wakeUps ==
                           before + (Alerted(streamsManager.Used()[from..i], queues, wakers)
                                     + Waked(wakers, streamsManager.Used()[i]))
    {
      UsedEntry(streamsManager.vacantStreams, streamsManager.maxStreams, i);
      UsedNext(streamsManager.vacantStreams, streamsManager.maxStreams, from, i);
      ghost var id := streamsManager.Used()[i];
      ghost var alerted := Alerted(streamsManager.Used()[from..i], queues, wakers);
      ProgressNext(streamsManager.Used(), from, i, item, queues, wakers, was, sent, before,
                   streamsManager.executor.wakeUps);
      SameQueue(consumed[id], channels[id], queues[id]);
      ok := SendTo(streamsManager.usedStreams[i], item);
      Regroup(before, alerted, Waked(wakers, id));
    }

    /** The event for one stream: publishes it, and wakes the stream if it had none queued, or has no room. */
    method SendTo(streamId: nat, item: T) returns (ok: bool)
      requires Valid() && streamId < channels.Length
      modifies channels, this`sent, streamsManager.executor
      ensures Valid() && consumed == old(consumed)
      ensures ok <==> |old(channels[streamId])| < bufferSize
      ensures sent == if ok then old(sent)[streamId := old(sent[streamId]) + [item]] else old(sent)
      ensures !ok ==> channels[..] == old(channels[..])
      ensures streamsManager.executor.wakeUps == old(streamsManager.executor.wakeUps) +
                (if ok then AlertedBy(streamId, old(channels[..]), streamsManager.wakers[..])
                 else Waked(streamsManager.wakers[..], streamId))
    {
      var len := PublishTo(streamId, item);
      if len.None? || len.value <= 1 {
        streamsManager.WakeStream(streamId);
      }
      return len.Some?;
    }

    /** Gives a stream its oldest event, if it has one. */
    method Consume(streamId: nat) returns (event: Option<T>)
      requires Valid() && streamId < channels.Length
      modifies channels, this`consumed
      ensures Valid() && sent == old(sent)
      ensures event.None? <==> old(channels[streamId]) == []
      ensures consumed == if event.Some? then old(consumed)[streamId := old(consumed[streamId]) + [event.value]]
                          else old(consumed)
      ensures event.Some? ==> |old(consumed[streamId])| < |sent[streamId]|
                              && event.value == sent[streamId][|old(consumed[streamId])|]
    {
      if channels[streamId] == [] {
        return None;
      }
      var first := channels[streamId][0];
      channels[streamId] := channels[streamId][1..];
      consumed := consumed[streamId := consumed[streamId] + [first]];
      return Some(first);
    }

    /** A new stream: the queues, and so what is still to be consumed under its id, stay as they are. */
    method CreateStreamForNewEvents() returns (streamId: Option<nat>)
      requires Valid()
      modifies streamsManager, streamsManager.usedStreams, streamsManager.keepStreamsRunning
      ensures Valid() && sent == old(sent) && consumed == old(consumed)
      ensures streamId.None? <==> |old(streamsManager.Used())| == channels.Length
      ensures streamId.Some? ==>
                streamId.value in streamsManager.Used() && streamId.value !in old(streamsManager.Used())
    {
      streamId := streamsManager.CreateStreamId();
    }

    /** Dropping a stream takes its id out of use and leaves its queue as it is. */
    method DropResources(streamId: nat)
      requires Valid() && streamId < channels.Length && streamId in streamsManager.Used()
      modifies streamsManager, streamsManager.usedStreams, streamsManager.wakers
      ensures Valid() && sent == old(sent) && consumed == old(consumed)
      ensures streamId !in streamsManager.Used()
    {
      streamsManager.ReportStreamDropped(streamId);
      var vacant := streamsManager.vacantStreams;
      assert vacant[|vacant| - 1] == streamId;
      ComplementMember(Elements(vacant), streamsManager.maxStreams, streamId);
    }
  }
}
