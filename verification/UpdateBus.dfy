/**
 The source-update event bus: numbered events, a bounded history that late clients replay,
 and per-subscriber queues that drop their oldest item when full.
 */
module UpdateBus {
  import opened Wrappers

  datatype Payload = Payload(
    sourceId: string, eventType: string, updatedAt: real, status: Option<string>, errorCode: Option<string>)

  /** A published payload with its sequence number; numbers start at 1. */
  datatype Event = Event(number: nat, payload: Payload)

  type SubscriberId = nat

  /** What the lock of the bus protects. */
  datatype Bus = Bus(limit: nat, history: seq<Event>, nextNumber: nat, subscribers: set<SubscriberId>)

  function EmptyBus(historyLimit: int): Bus {
    Bus(if historyLimit > 1 then historyLimit else 1, [], 1, {})
  }

  /** A deque of bounded length keeps its newest items. */
  function KeepNewest(items: seq<Event>, limit: nat): seq<Event> {
    if |items| <= limit then items else items[|items| - limit..]
  }

  function Commit(bus: Bus, payload: Payload): Bus {
    bus.(history := KeepNewest(bus.history + [Event(bus.nextNumber, payload)], bus.limit), nextNumber := bus.nextNumber + 1)
  }

  /** Put an event into a queue; a full queue loses its oldest item first. */
  function Offer(queue: seq<Event>, maxsize: nat, e: Event): seq<Event> {
    if |queue| < maxsize then queue + [e]
    else if queue == [] then queue
    else if |queue| - 1 < maxsize then queue[1..] + [e]
    else queue[1..]
  }

  function After(history: seq<Event>, since: int): seq<Event> {
    if history == [] then []
    else (if history[0].number > since then [history[0]] else []) + After(history[1..], since)
  }

  datatype Replay = Replay(syncRequired: bool, events: seq<Event>, latest: nat)

  function ReplaySince(bus: Bus, since: Option<int>): Replay
    requires bus.nextNumber > 0
  {
    var latest := bus.nextNumber - 1;
    if since.None? || bus.history == [] then Replay(false, [], latest)
    else if since.value < bus.history[0].number - 1 then Replay(true, [], latest)
    else Replay(false, After(bus.history, since.value), latest)
  }

  /** `kept` are the last `n` of these events, or all if they are fewer. */
  ghost predicate LastOf(kept: seq<Event>, events: seq<Event>, n: nat) {
    && |kept| == (if |events| < n then |events| else n)
    && kept == events[|events| - |kept|..]
  }

  /** Publishing appends the numbered event; as many events as the limit says are kept, and no more. */
  lemma CommitExactly(bus: Bus, payload: Payload)
    ensures var bus' := Commit(bus, payload);
      && LastOf(bus'.history, bus.history + [Event(bus.nextNumber, payload)], bus.limit)
      && bus'.nextNumber == bus.nextNumber + 1 && bus'.limit == bus.limit && bus'.subscribers == bus.subscribers
  {
  }

  /** Offering appends the event; as many as the queue holds are kept, the newest. */
  lemma OfferExactly(queue: seq<Event>, maxsize: nat, e: Event)
    requires 0 < maxsize && |queue| <= maxsize
    ensures LastOf(Offer(queue, maxsize, e), queue + [e], maxsize)
  {
  }

  // ---------------------------------------------------------------- everything ever published

  /** `published` is the whole history: the bus retains its newest part, and numbers are positions. */
  ghost predicate Retains(bus: Bus, published: seq<Event>) {
    && bus.limit > 0
    && bus.nextNumber == |published| + 1
    && (forall i :: 0 <= i < |published| ==> published[i].number == i + 1)
    && bus.history == KeepNewest(published, bus.limit)
  }

  lemma CommitRetains(bus: Bus, published: seq<Event>, payload: Payload)
    requires Retains(bus, published)
    ensures Retains(Commit(bus, payload), published + [Event(bus.nextNumber, payload)])
  {
    var e := Event(bus.nextNumber, payload);
    var n := |published|;
    if n > bus.limit {
      assert bus.history + [e] == (published + [e])[n - bus.limit..];
    }
  }

  lemma {:induction false} AfterOfConsecutive(history: seq<Event>, first: nat, since: int)
    requires forall i :: 0 <= i < |history| ==> history[i].number == first + i
    requires first - 1 <= since
    ensures After(history, since) ==
      if since >= first - 1 + |history| then [] else history[since - first + 1..]
  {
    if history != [] {
      assert forall i :: 0 <= i < |history[1..]| ==> history[1..][i] == history[i + 1];
      if since >= first {
        AfterOfConsecutive(history[1..], first + 1, since);
        if since < first - 1 + |history| {
          assert history[1..][since - first..] == history[since - first + 1..];
        }
      } else {
        AllAfter(history, since);
      }
    }
  }

  lemma {:induction false} AllAfter(history: seq<Event>, since: int)
    requires forall i :: 0 <= i < |history| ==> history[i].number > since
    ensures After(history, since) == history
  {
    if history != [] {
      AllAfter(history[1..], since);
    }
  }

  /** Exactly the events before the retained part were evicted. */
  lemma RetainedPart(bus: Bus, published: seq<Event>, i: nat)
    requires Retains(bus, published) && i < |published|
    ensures published[i] in bus.history <==> |published| - |bus.history| <= i
  {
    var evicted := |published| - |bus.history|;
    assert forall j :: 0 <= j < |bus.history| ==> bus.history[j] == published[j + evicted];
    if evicted <= i {
      assert published[i] == bus.history[i - evicted];
    }
  }

  lemma SyncWhenEvicted(bus: Bus, published: seq<Event>, since: nat)
    requires Retains(bus, published) && since < |published| - |bus.history|
    ensures ReplaySince(bus, Some(since)) == Replay(true, [], |published|)
  {
    assert bus.history[0] == published[|published| - |bus.history|];
  }

  /** The retained part, and the numbers in it. */
  lemma RetainedHistory(bus: Bus, published: seq<Event>)
    requires Retains(bus, published)
    ensures var evicted := |published| - |bus.history|;
      && 0 <= evicted && bus.history == published[evicted..] && bus.nextNumber == |published| + 1
      && forall i :: 0 <= i < |bus.history| ==> bus.history[i].number == evicted + 1 + i
  {
    var evicted := |published| - |bus.history|;
    assert bus.history == published[evicted..];
  }

  lemma ReplayedEvents(bus: Bus, published: seq<Event>, since: nat)
    requires Retains(bus, published) && |published| - |bus.history| <= since <= |published|
    ensures ReplaySince(bus, Some(since)) == Replay(false, published[since..], |published|)
  {
    hide Retains, KeepNewest, After;
    RetainedHistory(bus, published);
    var evicted := |published| - |bus.history|;
    if bus.history != [] {
      AfterOfConsecutive(bus.history, evicted + 1, since);
      assert published[evicted..][since - evicted..] == published[since..];
    }
  }

  /**
   Replay exactness. A client that has seen the events up to `since` is told to resynchronise
   exactly when an event it has not seen was evicted; otherwise it is given exactly the
   events since+1..latest, in order.
   */
  lemma ReplayExact(bus: Bus, published: seq<Event>, since: nat)
    requires Retains(bus, published) && since <= |published|
    ensures ReplaySince(bus, Some(since)).syncRequired <==>
      exists i :: since <= i < |published| && published[i] !in bus.history
    ensures ReplaySince(bus, Some(since)).latest == |published|
    ensures var r := ReplaySince(bus, Some(since)); r.events == if r.syncRequired then [] else published[since..]
  {
    var evicted := |published| - |bus.history|;
    forall i | 0 <= i < |published| ensures published[i] in bus.history <==> evicted <= i {
      RetainedPart(bus, published, i);
    }
    hide ReplaySince, Retains;
    if since < evicted {
      SyncWhenEvicted(bus, published, since);
      assert published[since] !in bus.history;
    } else {
      ReplayedEvents(bus, published, since);
    }
  }

  /** A client that claims to be ahead of the bus is given nothing, and is not told to resynchronise. */
  lemma ReplayFromTheFuture(bus: Bus, published: seq<Event>, since: int)
    requires Retains(bus, published) && since > |published|
    ensures ReplaySince(bus, Some(since)) == Replay(false, [], |published|)
  {
    if bus.history != [] {
      AfterOfConsecutive(bus.history, |published| - |bus.history| + 1, since);
    }
  }

  // ---------------------------------------------------------------- the bus as an object

  class BoundedQueue {
    const maxsize: nat
    var items: seq<Event>

    constructor (maxsize: nat)
      ensures this.maxsize == maxsize && items == []
    {
      this.maxsize := maxsize;
      items := [];
    }

    method PutNowait(e: Event) returns (full: bool)
      modifies this
      ensures full == (|old(items)| >= maxsize)
      ensures items == if full then old(items) else old(items) + [e]
    {
      full := |items| >= maxsize;
      if !full {
        items := items + [e];
      }
    }

    method GetNowait() returns (e: Option<Event>)
      modifies this
      ensures if old(items) == [] then e == None && items == [] else e.Some? && [e.value] + items == old(items)
    {
      if items == [] {
        e := None;
      } else {
        e, items := Some(items[0]), items[1..];
      }
    }

    /** Put; if full, drop one and put again. */
    method OfferToQueue(e: Event)
      modifies this
      ensures items == Offer(old(items), maxsize, e)
    {
      var full := PutNowait(e);
      if !full {
        return;
      }
      var dropped := GetNowait();
      if dropped.None? {
        return;
      }
      full := PutNowait(e);
    }
  }

  class SourceUpdateEventBus {
    const historyLimit: nat
    var history: seq<Event>
    var nextSeq: nat
    var subscribers: set<SubscriberId>
    /** Callbacks handed to each subscriber's event loop and not run yet. */
    var scheduled: map<SubscriberId, seq<Event>>

    ghost function Model(): Bus
      reads this
    {
      Bus(historyLimit, history, nextSeq, subscribers)
    }

    ghost predicate Valid()
      reads this
    {
      historyLimit > 0 && nextSeq > 0 && |history| <= historyLimit && subscribers <= scheduled.Keys
    }

    constructor (historyLimit: int)
      ensures Valid() && Model() == EmptyBus(historyLimit) && scheduled == map[]
      ensures this.historyLimit == (if historyLimit >= 1 then historyLimit else 1) && history == [] && nextSeq == 1
    {
      this.historyLimit := if historyLimit > 1 then historyLimit else 1;
      history, nextSeq, subscribers, scheduled := [], 1, {}, map[];
    }

    /** The critical section of a publisher: number the event, append it, snapshot the subscribers. */
    method PublishLocked(payload: Payload) returns (e: Event, snapshot: set<SubscriberId>)
      requires Valid()
      modifies this`history, this`nextSeq
      ensures Valid()
      ensures Model() == Commit(old(Model()), payload)
      ensures e == Event(old(nextSeq), payload) && snapshot == subscribers
    {
      var number := nextSeq;
      nextSeq := nextSeq + 1;
      e := Event(number, payload);
      history := history + [e];
      if |history| > historyLimit {
        history := history[1..];
      }
      snapshot := subscribers;
    }

    /** The loop after the lock is released: one callback for each subscriber of the snapshot. */
    method NotifySubscribers(e: Event, snapshot: set<SubscriberId>)
      requires snapshot <= scheduled.Keys
      modifies this`scheduled
      ensures scheduled == map id | id in old(scheduled) ::
        if id in snapshot then old(scheduled)[id] + [e] else old(scheduled)[id]
    {
      var rest := snapshot;
      while rest != {}
        invariant rest <= snapshot
        invariant scheduled == map id | id in old(scheduled) ::
          if id in snapshot && id !in rest then old(scheduled)[id] + [e] else old(scheduled)[id]
        decreases rest
      {
        var id :| id in rest;
        scheduled := scheduled[id := scheduled[id] + [e]];
        rest := rest - {id};
      }
    }

    method PublishSourceUpdated(payload: Payload) returns (r: Option<Event>)
      requires Valid()
      modifies this
      ensures Valid()
      ensures payload.sourceId == "" ==> r == None && Model() == old(Model()) && scheduled == old(scheduled)
      ensures payload.sourceId != "" ==>
        && r == Some(Event(old(nextSeq), payload))
        && Model() == Commit(old(Model()), payload)
        && scheduled == map id | id in old(scheduled) ::
             if id in old(subscribers) then old(scheduled)[id] + [r.value] else old(scheduled)[id]
    {
      if payload.sourceId == "" {
        return None;
      }
      var e, snapshot := PublishLocked(payload);
      NotifySubscribers(e, snapshot);
      return Some(e);
    }

    method Subscribe(id: SubscriberId)
      requires Valid() && id !in scheduled
      modifies this
      ensures Valid()
      ensures Model() == old(Model()).(subscribers := old(subscribers) + {id})
      ensures scheduled == old(scheduled)[id := []]
    {
      subscribers := subscribers + {id};
      scheduled := scheduled[id := []];
    }

    method Unsubscribe(id: SubscriberId)
      requires Valid()
      modifies this`subscribers
      ensures Valid() && Model() == old(Model()).(subscribers := old(subscribers) - {id})
    {
      subscribers := set x | x in subscribers && x != id;
    }

    method GetReplay(since: Option<int>) returns (r: Replay)
      requires Valid()
      ensures r == ReplaySince(Model(), since)
    {
      var latest: nat := nextSeq - 1;
      if since.None? {
        return Replay(false, [], latest);
      }
      if history == [] {
        return Replay(false, [], latest);
      }
      var oldest: int := history[0].number;
      if since.value < oldest - 1 {
        return Replay(true, [], latest);
      }
      var events := [];
      var i := 0;
      assert history[0..] == history;
      while i < |history|
        invariant 0 <= i <= |history|
        invariant After(history, since.value) == events + After(history[i..], since.value)
      {
        assert history[i..][1..] == history[i + 1..];
        if history[i].number > since.value {
          events := events + [history[i]];
        }
        i := i + 1;
      }
      return Replay(false, events, latest);
    }
  }
}
