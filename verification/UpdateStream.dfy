/**
 Publishers, event loops and websocket clients interleaved: a client that subscribes first
 and replays later misses nothing, whatever happens in between.
 */
module UpdateStream {
  import opened Wrappers
  import opened UpdateBus

  /** A publisher that left the critical section and still has to notify these subscribers. */
  datatype Publisher = Publisher(event: Event, targets: set<SubscriberId>)

  /**
   One client. `joinedAt` is the latest number when it subscribed; `offered` are the events
   put into its queue so far, `taken` those its stream has taken out and sent.
   */
  datatype Client = Client(
    joinedAt: nat, scheduled: seq<Event>, queue: seq<Event>, offered: seq<Event>, taken: seq<Event>, dropped: nat)

  datatype State = State(
    bus: Bus,
    maxsize: nat,
    inFlight: map<nat, Publisher>,
    clients: map<SubscriberId, Client>,
    published: seq<Event>)

  datatype Step =
    | Publish(payload: Payload)
    | Notify(number: nat, id: SubscriberId)
    | RunCallback(id: SubscriberId)
    | Take(id: SubscriberId)
    | Subscribe(id: SubscriberId)
    | Unsubscribe(id: SubscriberId)

  ghost predicate Enabled(s: State, step: Step) {
    match step
    case Publish(_) => true
    case Notify(number, id) => number in s.inFlight && id in s.inFlight[number].targets && id in s.clients
    case RunCallback(id) => id in s.clients && s.clients[id].scheduled != []
    case Take(id) => id in s.clients && s.clients[id].queue != []
    case Subscribe(id) => id !in s.clients
    case Unsubscribe(id) => true
  }

  function Offered(c: Client, maxsize: nat): Client
    requires c.scheduled != []
  {
    var e := c.scheduled[0];
    c.(scheduled := c.scheduled[1..], queue := Offer(c.queue, maxsize, e), offered := c.offered + [e],
       dropped := c.dropped + if |c.queue| < maxsize then 0 else 1)
  }

  function Taken(c: Client): Client
    requires c.queue != []
  {
    c.(queue := c.queue[1..], taken := c.taken + [c.queue[0]])
  }

  function Next(s: State, step: Step): State
    requires Enabled(s, step) && s.bus.nextNumber > 0
  {
    match step
    case Publish(payload) =>
      var e := Event(s.bus.nextNumber, payload);
      s.(bus := Commit(s.bus, payload), published := s.published + [e],
         inFlight := s.inFlight[e.number := Publisher(e, s.bus.subscribers)])
    case Notify(number, id) =>
      var p := s.inFlight[number];
      var c := s.clients[id];
      s.(inFlight := s.inFlight[number := p.(targets := p.targets - {id})],
         clients := s.clients[id := c.(scheduled := c.scheduled + [p.event])])
    case RunCallback(id) => s.(clients := s.clients[id := Offered(s.clients[id], s.maxsize)])
    case Take(id) => s.(clients := s.clients[id := Taken(s.clients[id])])
    case Subscribe(id) =>
      s.(bus := s.bus.(subscribers := s.bus.subscribers + {id}),
         clients := s.clients[id := Client(s.bus.nextNumber - 1, [], [], [], [], 0)])
    case Unsubscribe(id) => s.(bus := s.bus.(subscribers := s.bus.subscribers - {id}))
  }

  function Start(historyLimit: int, maxsize: int): State {
    State(EmptyBus(historyLimit), if maxsize > 1 then maxsize else 1, map[], map[], [])
  }

  // ---------------------------------------------------------------- the invariant

  /** How many copies of event `number` are on their way to the client, or have arrived. */
  ghost function Copies(s: State, id: SubscriberId, number: nat): nat
    requires id in s.clients && 0 < number <= |s.published|
  {
    var e := s.published[number - 1];
    multiset(s.clients[id].offered)[e] + multiset(s.clients[id].scheduled)[e] +
    if number in s.inFlight && id in s.inFlight[number].targets then 1 else 0
  }

  /** The queue is the end of what was offered; nothing is lost before it is full. */
  ghost predicate ValidClient(c: Client, maxsize: nat) {
    && |c.queue| <= maxsize
    && |c.queue| <= |c.offered| && c.queue == c.offered[|c.offered| - |c.queue|..]
    && |c.taken| + c.dropped + |c.queue| == |c.offered|
    && (c.dropped == 0 ==> c.taken + c.queue == c.offered)
  }

  ghost predicate IsPublished(s: State, e: Event) {
    0 < e.number <= |s.published| && s.published[e.number - 1] == e
  }

  ghost predicate OnlyPublished(s: State, events: seq<Event>) {
    forall i :: 0 <= i < |events| ==> IsPublished(s, events[i])
  }

  ghost predicate ValidInFlight(s: State) {
    forall n :: n in s.inFlight ==>
      && s.inFlight[n].event.number == n && IsPublished(s, s.inFlight[n].event)
      && s.inFlight[n].targets <= s.clients.Keys
  }

  ghost predicate ValidClients(s: State) {
    forall id :: id in s.clients ==>
      && ValidClient(s.clients[id], s.maxsize) && s.clients[id].joinedAt <= |s.published|
      && OnlyPublished(s, s.clients[id].offered) && OnlyPublished(s, s.clients[id].scheduled)
  }

  /** A subscriber is owed exactly the events published since it subscribed, each once. */
  ghost predicate OwedExactly(s: State) {
    forall id, n :: id in s.bus.subscribers && id in s.clients && 0 < n <= |s.published| ==>
      Copies(s, id, n) == if n > s.clients[id].joinedAt then 1 else 0
  }

  ghost predicate Valid(s: State) {
    && Retains(s.bus, s.published) && s.maxsize > 0
    && s.bus.subscribers <= s.clients.Keys
    && ValidInFlight(s) && ValidClients(s) && OwedExactly(s)
  }

  lemma StartIsValid(historyLimit: int, maxsize: int)
    ensures Valid(Start(historyLimit, maxsize))
  {
  }

  lemma OfferKeepsClient(c: Client, maxsize: nat)
    requires maxsize > 0 && c.scheduled != [] && ValidClient(c, maxsize)
    ensures ValidClient(Offered(c, maxsize), maxsize)
  {
    var e, d := c.scheduled[0], Offered(c, maxsize);
    var start := |c.offered| - |c.queue|;
    assert (c.offered + [e])[start..] == c.queue + [e];
    if |c.queue| >= maxsize {
      assert d.queue == (c.offered + [e])[start..][1..] == d.offered[start + 1..];
    }
  }

  lemma TakeKeepsClient(c: Client, maxsize: nat)
    requires c.queue != [] && ValidClient(c, maxsize)
    ensures ValidClient(Taken(c), maxsize)
  {
    assert c.taken + [c.queue[0]] + c.queue[1..] == c.taken + c.queue;
  }

  lemma PublishKeepsValid(s: State, payload: Payload)
    requires Valid(s)
    ensures Valid(Next(s, Publish(payload)))
  {
    var s' := Next(s, Publish(payload));
    CommitRetains(s.bus, s.published, payload);
    assert forall e :: IsPublished(s, e) ==> IsPublished(s', e);
    assert OnlyPublishedKept(s, s');
    var n := |s'.published|;
    forall id, k | id in s'.bus.subscribers && id in s'.clients && 0 < k <= n
      ensures Copies(s', id, k) == if k > s'.clients[id].joinedAt then 1 else 0
    {
      if k < n {
        assert Copies(s', id, k) == Copies(s, id, k);
      } else {
        NotYetSeen(s, s.clients[id].offered, s'.published[n - 1]);
        NotYetSeen(s, s.clients[id].scheduled, s'.published[n - 1]);
      }
    }
  }

  ghost predicate OnlyPublishedKept(s: State, s': State) {
    forall events :: OnlyPublished(s, events) ==> OnlyPublished(s', events)
  }

  lemma NotYetSeen(s: State, events: seq<Event>, e: Event)
    requires OnlyPublished(s, events) && e.number > |s.published|
    ensures multiset(events)[e] == 0
  {
    forall i | 0 <= i < |events| ensures events[i] != e {
      assert IsPublished(s, events[i]);
    }
  }

  lemma MultisetOfAppend(events: seq<Event>, e: Event)
    ensures multiset(events + [e]) == multiset(events) + multiset{e}
  {
  }

  lemma MultisetOfRest(events: seq<Event>)
    requires events != []
    ensures multiset(events) == multiset{events[0]} + multiset(events[1..])
  {
    assert events == [events[0]] + events[1..];
  }

  /** A notification moves one copy from the publisher to the client's event loop. */
  lemma NotifyKeepsCopies(s: State, number: nat, id: SubscriberId, k: SubscriberId, n: nat)
    requires Valid(s) && Enabled(s, Notify(number, id))
    requires k in s.clients && 0 < n <= |s.published|
    ensures Copies(Next(s, Notify(number, id)), k, n) == Copies(s, k, n)
  {
    hide ValidClients, OwedExactly;
    var e := s.inFlight[number].event;
    MultisetOfAppend(s.clients[id].scheduled, e);
    if k == id && n != number {
      assert s.published[n - 1].number == n;
    }
  }

  lemma NotifyKeepsValid(s: State, number: nat, id: SubscriberId)
    requires Valid(s) && Enabled(s, Notify(number, id))
    ensures Valid(Next(s, Notify(number, id)))
  {
    var s' := Next(s, Notify(number, id));
    assert ValidClient(s'.clients[id], s.maxsize);
    assert forall e :: IsPublished(s, e) <==> IsPublished(s', e);
    forall k: SubscriberId, n: nat | k in s'.bus.subscribers && k in s'.clients && 0 < n <= |s'.published|
      ensures Copies(s', k, n) == Copies(s, k, n)
    {
      NotifyKeepsCopies(s, number, id, k, n);
    }
    hide ValidClient, Retains, Copies;
  }

  /** Moving events within one client changes no number of copies. */
  lemma MoveKeepsCopies(s: State, id: SubscriberId, c: Client, k: SubscriberId, n: nat)
    requires id in s.clients && k in s.clients && 0 < n <= |s.published|
    requires multiset(c.offered) + multiset(c.scheduled) == multiset(s.clients[id].offered) + multiset(s.clients[id].scheduled)
    ensures Copies(s.(clients := s.clients[id := c]), k, n) == Copies(s, k, n)
  {
    var e, d := s.published[n - 1], s.clients[id];
    assert (multiset(c.offered) + multiset(c.scheduled))[e] == (multiset(d.offered) + multiset(d.scheduled))[e];
  }

  /** A client may move its own events along, as long as it keeps them all. */
  lemma MoveKeepsValid(s: State, id: SubscriberId, c: Client)
    requires Valid(s) && id in s.clients
    requires ValidClient(c, s.maxsize) && c.joinedAt == s.clients[id].joinedAt
    requires OnlyPublished(s, c.offered) && OnlyPublished(s, c.scheduled)
    requires multiset(c.offered) + multiset(c.scheduled) == multiset(s.clients[id].offered) + multiset(s.clients[id].scheduled)
    ensures Valid(s.(clients := s.clients[id := c]))
  {
    hide ValidClient, Retains, Copies;
    var s' := s.(clients := s.clients[id := c]);
    assert forall e :: IsPublished(s, e) <==> IsPublished(s', e);
    forall k: SubscriberId, n: nat | k in s'.bus.subscribers && k in s'.clients && 0 < n <= |s'.published|
      ensures Copies(s', k, n) == Copies(s, k, n)
    {
      MoveKeepsCopies(s, id, c, k, n);
    }
  }

  lemma CallbackKeepsValid(s: State, id: SubscriberId)
    requires Valid(s) && Enabled(s, RunCallback(id))
    ensures Valid(Next(s, RunCallback(id)))
  {
    hide OwedExactly, ValidInFlight, Retains, ValidClient, Offer;
    var c := s.clients[id];
    OfferKeepsClient(c, s.maxsize);
    MultisetOfRest(c.scheduled);
    MultisetOfAppend(c.offered, c.scheduled[0]);
    MoveKeepsValid(s, id, Offered(c, s.maxsize));
  }

  lemma TakeKeepsValid(s: State, id: SubscriberId)
    requires Valid(s) && Enabled(s, Take(id))
    ensures Valid(Next(s, Take(id)))
  {
    hide OwedExactly, ValidInFlight, Retains, ValidClient;
    TakeKeepsClient(s.clients[id], s.maxsize);
    MoveKeepsValid(s, id, Taken(s.clients[id]));
  }

  /** A new subscriber is owed nothing yet: no publisher has it among its targets. */
  lemma SubscribeKeepsCopies(s: State, id: SubscriberId, k: SubscriberId, n: nat)
    requires Valid(s) && Enabled(s, Subscribe(id))
    requires (k == id || k in s.clients) && 0 < n <= |s.published|
    ensures Copies(Next(s, Subscribe(id)), k, n) == if k == id then 0 else Copies(s, k, n)
  {
    hide ValidClients, OwedExactly, Retains;
    RetainsPositive(s.bus, s.published);
  }

  lemma RetainsPositive(bus: Bus, published: seq<Event>)
    requires Retains(bus, published)
    ensures bus.nextNumber == |published| + 1
  {
  }

  /** A client that has just subscribed, and the bus with or without it. */
  lemma JustSubscribed(s: State, id: SubscriberId)
    requires Valid(s)
    ensures var c := Client(s.bus.nextNumber - 1, [], [], [], [], 0);
      ValidClient(c, s.maxsize) && c.joinedAt <= |s.published| && OnlyPublished(s, c.offered)
    ensures Retains(s.bus.(subscribers := s.bus.subscribers + {id}), s.published)
  {
  }

  lemma SubscribeKeepsValid(s: State, id: SubscriberId)
    requires Valid(s) && Enabled(s, Subscribe(id))
    ensures Valid(Next(s, Subscribe(id)))
  {
    hide ValidClient, Retains, Copies;
    RetainsPositive(s.bus, s.published);
    JustSubscribed(s, id);
    var s' := Next(s, Subscribe(id));
    forall k: SubscriberId, n: nat | k in s'.bus.subscribers && k in s'.clients && 0 < n <= |s'.published|
      ensures Copies(s', k, n) == if n > s'.clients[k].joinedAt then 1 else 0
    {
      SubscribeKeepsCopies(s, id, k, n);
    }
  }

  lemma UnsubscribeKeepsValid(s: State, id: SubscriberId)
    requires Valid(s)
    ensures Valid(Next(s, Unsubscribe(id)))
  {
    var s' := Next(s, Unsubscribe(id));
    forall k: SubscriberId, n: nat | k in s'.bus.subscribers && k in s'.clients && 0 < n <= |s'.published|
      ensures Copies(s', k, n) == Copies(s, k, n)
    {
    }
  }

  /** Every step of every thread keeps the invariant. */
  lemma StepKeepsValid(s: State, step: Step)
    requires Valid(s) && Enabled(s, step)
    ensures Valid(Next(s, step))
  {
    match step {
      case Publish(payload) => PublishKeepsValid(s, payload);
      case Notify(number, id) => NotifyKeepsValid(s, number, id);
      case RunCallback(id) => CallbackKeepsValid(s, id);
      case Take(id) => TakeKeepsValid(s, id);
      case Subscribe(id) => SubscribeKeepsValid(s, id);
      case Unsubscribe(id) => UnsubscribeKeepsValid(s, id);
    }
  }

  // ---------------------------------------------------------------- runs

  ghost predicate IsRun(states: seq<State>, steps: seq<Step>, historyLimit: int, maxsize: int) {
    && |states| == |steps| + 1 && states[0] == Start(historyLimit, maxsize)
    && forall i :: 0 <= i < |steps| ==>
         Enabled(states[i], steps[i]) && states[i].bus.nextNumber > 0 && states[i + 1] == Next(states[i], steps[i])
  }

  lemma {:induction false} RunIsValid(states: seq<State>, steps: seq<Step>, historyLimit: int, maxsize: int, i: nat)
    requires IsRun(states, steps, historyLimit, maxsize) && i <= |steps|
    ensures Valid(states[i])
  {
    if i == 0 {
      StartIsValid(historyLimit, maxsize);
    } else {
      hide Valid, Next, Enabled;
      RunIsValid(states, steps, historyLimit, maxsize, i - 1);
      StepKeepsValid(states[i - 1], steps[i - 1]);
    }
  }

  /** Later, more has been published, and clients are still the clients they were. */
  ghost predicate Continues(s: State, t: State) {
    && s.published <= t.published
    && forall id :: id in s.clients ==> id in t.clients && t.clients[id].joinedAt == s.clients[id].joinedAt
  }

  lemma StepContinues(s: State, step: Step)
    requires Enabled(s, step) && s.bus.nextNumber > 0
    ensures Continues(s, Next(s, step))
  {
  }

  lemma {:induction false} RunContinues(states: seq<State>, steps: seq<Step>, historyLimit: int, maxsize: int, i: nat, j: nat)
    requires IsRun(states, steps, historyLimit, maxsize) && i <= j <= |steps|
    ensures Continues(states[i], states[j])
    decreases j - i
  {
    if i < j {
      RunContinues(states, steps, historyLimit, maxsize, i, j - 1);
      StepContinues(states[j - 1], steps[j - 1]);
    }
  }

  /** At least one, however small the number configured. */
  ghost function AtLeastOne(n: int): nat {
    if n >= 1 then n else 1
  }

  lemma StepKeepsLimits(s: State, step: Step)
    requires Enabled(s, step) && s.bus.nextNumber > 0
    ensures Next(s, step).bus.limit == s.bus.limit && Next(s, step).maxsize == s.maxsize
  {
    hide Offer, KeepNewest;
  }

  lemma {:induction false} LimitsStay(states: seq<State>, steps: seq<Step>, historyLimit: int, maxsize: int, i: nat)
    requires IsRun(states, steps, historyLimit, maxsize) && i <= |steps|
    ensures states[i].bus.limit == AtLeastOne(historyLimit) && states[i].maxsize == AtLeastOne(maxsize)
  {
    if i > 0 {
      hide Next, Enabled;
      LimitsStay(states, steps, historyLimit, maxsize, i - 1);
      StepKeepsLimits(states[i - 1], steps[i - 1]);
    }
  }

  /**
   How much history there is. In every reachable state it is the last events published, as
   many as the configured limit says, or all if they are fewer; and they are numbered from 1.
   */
  lemma HistoryExactly(states: seq<State>, steps: seq<Step>, historyLimit: int, maxsize: int, i: nat)
    requires IsRun(states, steps, historyLimit, maxsize) && i <= |steps|
    ensures var s := states[i];
      && LastOf(s.bus.history, s.published, AtLeastOne(historyLimit))
      && s.bus.nextNumber == |s.published| + 1
      && forall n :: 0 <= n < |s.published| ==> s.published[n].number == n + 1
  {
    RunIsValid(states, steps, historyLimit, maxsize, i);
    LimitsStay(states, steps, historyLimit, maxsize, i);
    hide IsRun, ValidInFlight, ValidClients, OwedExactly;
  }

  /**
   So a client that has seen the events up to `since` is told to resynchronise exactly when
   more events than the limit came after it, and is otherwise given exactly those events.
   */
  lemma ReplayLimit(states: seq<State>, steps: seq<Step>, historyLimit: int, maxsize: int, i: nat, since: nat)
    requires IsRun(states, steps, historyLimit, maxsize) && i <= |steps| && since <= |states[i].published|
    ensures states[i].bus.nextNumber > 0
    ensures var s := states[i]; var r := ReplaySince(s.bus, Some(since));
      && (r.syncRequired <==> since < |s.published| - AtLeastOne(historyLimit))
      && r.events == (if r.syncRequired then [] else s.published[since..])
      && r.latest == |s.published|
      && ReplaySince(s.bus, None) == Replay(false, [], |s.published|)
  {
    var s := states[i];
    RunIsValid(states, steps, historyLimit, maxsize, i);
    HistoryExactly(states, steps, historyLimit, maxsize, i);
    hide IsRun, ValidInFlight, ValidClients, OwedExactly;
    ReplayExact(s.bus, s.published, since);
    hide ReplaySince;
    if since < |s.published| - |s.bus.history| {
      SyncWhenEvicted(s.bus, s.published, since);
    } else {
      ReplayedEvents(s.bus, s.published, since);
    }
  }

  /** What is published is what publishers hand in, in the order of their critical sections. */
  lemma PublishedExactly(states: seq<State>, steps: seq<Step>, historyLimit: int, maxsize: int, i: nat)
    requires IsRun(states, steps, historyLimit, maxsize) && i < |steps|
    ensures states[i + 1].published ==
      if steps[i].Publish? then states[i].published + [Event(|states[i].published| + 1, steps[i].payload)]
      else states[i].published
  {
    HistoryExactly(states, steps, historyLimit, maxsize, i);
    hide Commit, Offer;
  }

  /** When an event reaches a client, its queue keeps the newest, as many as the configured size says. */
  lemma ArrivalExactly(states: seq<State>, steps: seq<Step>, historyLimit: int, maxsize: int, i: nat, id: SubscriberId)
    requires IsRun(states, steps, historyLimit, maxsize) && i < |steps|
    requires steps[i] == RunCallback(id) && id in states[i].clients && id in states[i + 1].clients
    ensures var c, d := states[i].clients[id], states[i + 1].clients[id];
      && c.scheduled != [] && d.scheduled == c.scheduled[1..]
      && LastOf(d.queue, c.queue + [c.scheduled[0]], AtLeastOne(maxsize))
  {
    QueueIsSuffix(states, steps, historyLimit, maxsize, i, id);
    LimitsStay(states, steps, historyLimit, maxsize, i);
    var c := states[i].clients[id];
    OfferExactly(c.queue, AtLeastOne(maxsize), c.scheduled[0]);
    hide Offer, LastOf;
  }

  /** In every reachable state each queue is the end of what was offered to it, and never over capacity. */
  lemma QueueIsSuffix(states: seq<State>, steps: seq<Step>, historyLimit: int, maxsize: int, i: nat, id: SubscriberId)
    requires IsRun(states, steps, historyLimit, maxsize) && i <= |steps| && id in states[i].clients
    ensures ValidClient(states[i].clients[id], states[i].maxsize)
  {
    RunIsValid(states, steps, historyLimit, maxsize, i);
  }

  /**
   No gap. A client subscribes, later replays from `since` and is not told to resynchronise.
   At any later moment of any run, every event after `since` is in the replay or is on its
   way to the client's queue or was put there, exactly once.
   */
  lemma NoGap(
    states: seq<State>, steps: seq<Step>, historyLimit: int, maxsize: int,
    i: nat, j: nat, id: SubscriberId, since: nat, n: nat)
    requires IsRun(states, steps, historyLimit, maxsize) && i <= j <= |steps|
    requires id in states[i].clients && id in states[j].bus.subscribers && id in states[j].clients
    requires since <= |states[i].published| && states[i].bus.nextNumber > 0
    requires !ReplaySince(states[i].bus, Some(since)).syncRequired
    requires since < n <= |states[j].published|
    ensures states[j].published[n - 1] in ReplaySince(states[i].bus, Some(since)).events || Copies(states[j], id, n) == 1
  {
    RunIsValid(states, steps, historyLimit, maxsize, i);
    RunIsValid(states, steps, historyLimit, maxsize, j);
    RunContinues(states, steps, historyLimit, maxsize, i, j);
    hide IsRun, ReplaySince, Copies;
    ReplayExact(states[i].bus, states[i].published, since);
    if n <= |states[i].published| {
      assert states[i].published[since..][n - 1 - since] == states[j].published[n - 1];
    } else {
      assert n > states[j].clients[id].joinedAt;
    }
  }

  /** Nothing is under way for the client any more, and its queue never overflowed. */
  ghost predicate CaughtUp(s: State, id: SubscriberId) {
    && id in s.clients
    && s.clients[id].scheduled == [] && s.clients[id].queue == [] && s.clients[id].dropped == 0
    && forall n :: n in s.inFlight ==> id !in s.inFlight[n].targets
  }

  /** Then what the client was sent, the replay and after it the live events, holds every event after `since`. */
  lemma NothingMissed(
    states: seq<State>, steps: seq<Step>, historyLimit: int, maxsize: int,
    i: nat, j: nat, id: SubscriberId, since: nat, n: nat)
    requires IsRun(states, steps, historyLimit, maxsize) && i <= j <= |steps|
    requires id in states[i].clients && id in states[j].bus.subscribers
    requires since <= |states[i].published| && states[i].bus.nextNumber > 0
    requires !ReplaySince(states[i].bus, Some(since)).syncRequired
    requires CaughtUp(states[j], id) && since < n <= |states[j].published|
    ensures states[j].published[n - 1] in ReplaySince(states[i].bus, Some(since)).events + states[j].clients[id].taken
  {
    hide ReplaySince;
    NoGap(states, steps, historyLimit, maxsize, i, j, id, since, n);
    QueueIsSuffix(states, steps, historyLimit, maxsize, j, id);
    hide IsRun;
    assert states[j].clients[id].taken + [] == states[j].clients[id].taken;
  }

  // ---------------------------------------------------------------- the websocket handler

  datatype Message = Ready(latest: nat, syncRequired: bool) | SyncRequired(latest: nat) | Update(event: Event)

  function Normalized(since: Option<int>): Option<int> {
    if since.Some? && since.value < 0 then Some(0) else since
  }

  function Updates(events: seq<Event>): seq<Message> {
    seq(|events|, i requires 0 <= i < |events| => Update(events[i]))
  }

  /** Subscribe first, replay second, then announce and send what was replayed. */
  method OpenStream(bus: SourceUpdateEventBus, id: SubscriberId, since: Option<int>) returns (sent: seq<Message>)
    requires bus.Valid() && id !in bus.scheduled
    modifies bus
    ensures bus.Valid()
    ensures bus.Model() == old(bus.Model()).(subscribers := old(bus.subscribers) + {id})
    ensures var r := ReplaySince(bus.Model(), if since.Some? && since.value < 0 then Some(0) else since);
      sent == [Ready(r.latest, r.syncRequired)] + if r.syncRequired then [SyncRequired(r.latest)] else Updates(r.events)
  {
    hide ReplaySince, Updates;
    bus.Subscribe(id);
    var r := bus.GetReplay(Normalized(since));
    sent := [Ready(r.latest, r.syncRequired)];
    if r.syncRequired {
      sent := sent + [SyncRequired(r.latest)];
    } else {
      NoUpdates(r.events);
      for i := 0 to |r.events|
        modifies {}
        invariant sent == [Ready(r.latest, r.syncRequired)] + Updates(r.events[..i])
      {
        UpdatesNext(r.events, i);
        sent := sent + [Update(r.events[i])];
      }
      assert r.events[..|r.events|] == r.events;
    }
  }

  lemma NoUpdates(events: seq<Event>)
    ensures Updates(events[..0]) == []
  {
  }

  lemma UpdatesNext(events: seq<Event>, i: nat)
    requires i < |events|
    ensures Updates(events[..i + 1]) == Updates(events[..i]) + [Update(events[i])]
  {
  }
}
