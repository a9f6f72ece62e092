/**
 The coalescing view-save queue: one save at a time, and only the newest pending view is
 kept. A method is what runs between two suspensions of the asynchronous loop.
 */
module ViewSaveQueue {
  import opened Wrappers

  /** A snapshot of a view, as far as the queue is concerned. */
  type View = nat

  /** Where the save loop is suspended. */
  datatype Loop = Idle | Persisting(view: View) | Draining

  /** How a callback ended; after a failure the error handler may throw as well. */
  datatype Outcome = Settled | Rejected(handlerThrows: bool)

  datatype State = State(pending: Option<View>, running: bool, loop: Loop, enqueued: seq<View>, attempted: seq<View>)

  const Start := State(None, false, Idle, [], [])

  /** The head of the loop: take the pending view and persist it, or drain. */
  function Turn(s: State): State {
    match s.pending
    case Some(v) => s.(pending := None, loop := Persisting(v), attempted := s.attempted + [v])
    case None => s.(loop := Draining)
  }

  /** Start the loop unless it is running. */
  function Launch(s: State): State {
    if s.running then s else Turn(s.(running := true))
  }

  function Enqueued(s: State, v: View): State {
    Launch(s.(pending := Some(v), enqueued := s.enqueued + [v]))
  }

  /** A save ended: the next turn, unless the error handler threw, which leaves the loop. */
  function SaveEnded(s: State, o: Outcome): State {
    if o.Rejected? && o.handlerThrows then s.(loop := Draining) else Turn(s)
  }

  /** Draining ended, in whatever way: the loop is over, and starts again if a view came in meanwhile. */
  function DrainEnded(s: State, o: Outcome): State {
    var t := s.(running := false, loop := Idle);
    if t.pending.Some? then Launch(t) else t
  }

  // ---------------------------------------------------------------- the queue as an object

  class SaveQueue {
    var pending: Option<View>
    var running: bool
    var loop: Loop
    ghost var enqueued: seq<View>
    ghost var attempted: seq<View>

    ghost function Model(): State
      reads this
    {
      State(pending, running, loop, enqueued, attempted)
    }

    constructor ()
      ensures Model() == Start
    {
      pending, running, loop, enqueued, attempted := None, false, Idle, [], [];
    }

    /** The head of the `while` loop, up to the next suspension. */
    method LoopTurn()
      modifies this
      ensures Model() == Turn(old(Model()))
    {
      if pending.Some? {
        var nextView := pending.value;
        pending := None;
        loop := Persisting(nextView);
        attempted := attempted + [nextView];
      } else {
        loop := Draining;
      }
    }

    method RunLoop()
      modifies this
      ensures Model() == Launch(old(Model()))
    {
      if running {
        return;
      }
      running := true;
      LoopTurn();
    }

    method Enqueue(view: View)
      modifies this
      ensures Model() == Enqueued(old(Model()), view)
    {
      pending := Some(view);
      enqueued := enqueued + [view];
      RunLoop();
    }

    method OnSaveEnded(outcome: Outcome)
      requires loop.Persisting?
      modifies this
      ensures Model() == SaveEnded(old(Model()), outcome)
    {
      if outcome.Rejected? && outcome.handlerThrows {
        loop := Draining;
        return;
      }
      LoopTurn();
    }

    method OnDrainEnded(outcome: Outcome)
      requires loop.Draining?
      modifies this
      ensures Model() == DrainEnded(old(Model()), outcome)
    {
      running := false;
      loop := Idle;
      if pending.Some? {
        RunLoop();
      }
    }
  }

  // ---------------------------------------------------------------- runs

  datatype Event = Enqueue(view: View) | SaveEnds(outcome: Outcome) | DrainEnds(outcome: Outcome)

  predicate Enabled(s: State, e: Event) {
    match e
    case Enqueue(_) => true
    case SaveEnds(_) => s.loop.Persisting?
    case DrainEnds(_) => s.loop.Draining?
  }

  function Next(s: State, e: Event): State {
    match e
    case Enqueue(v) => Enqueued(s, v)
    case SaveEnds(o) => SaveEnded(s, o)
    case DrainEnds(o) => DrainEnded(s, o)
  }

  ghost predicate IsRun(states: seq<State>, events: seq<Event>) {
    && |states| == |events| + 1 && states[0] == Start
    && forall i :: 0 <= i < |events| ==> Enabled(states[i], events[i]) && states[i + 1] == Next(states[i], events[i])
  }

  /** `a` is what is left of `b` when some items are left out. */
  predicate Subsequence(a: seq<View>, b: seq<View>) {
    if a == [] then true
    else if b == [] then false
    else if a[|a| - 1] == b[|b| - 1] then Subsequence(a[..|a| - 1], b[..|b| - 1])
    else Subsequence(a, b[..|b| - 1])
  }

  lemma {:induction false} LeaveLast(a: seq<View>, b: seq<View>)
    requires a != [] && Subsequence(a, b)
    ensures b != [] && Subsequence(a[..|a| - 1], b)
    decreases |b|, 0
  {
    var init := b[..|b| - 1];
    if a[|a| - 1] == b[|b| - 1] {
      Lengthen(a[..|a| - 1], init, b[|b| - 1]);
      assert init + [b[|b| - 1]] == b;
    } else {
      LeaveLast(a, init);
      Lengthen(a[..|a| - 1], init, b[|b| - 1]);
      assert init + [b[|b| - 1]] == b;
    }
  }

  lemma {:induction false} Lengthen(a: seq<View>, b: seq<View>, x: View)
    requires Subsequence(a, b)
    ensures Subsequence(a, b + [x])
    decreases |b|, 1
  {
    assert (b + [x])[..|b|] == b;
    if a != [] && a[|a| - 1] == x {
      LeaveLast(a, b);
    }
  }

  lemma Pair(a: seq<View>, b: seq<View>, x: View)
    requires Subsequence(a, b)
    ensures Subsequence(a + [x], b + [x])
  {
    assert (a + [x])[..|a|] == a && (b + [x])[..|b|] == b;
  }

  /** The attempted views, and the pending one if there is one, in the order they will be saved. */
  function Planned(s: State): seq<View> {
    s.attempted + if s.pending.Some? then [s.pending.value] else []
  }

  /**
   The invariant: a save is in flight only while the loop runs, a pending view means that it
   runs, what is saved and pending is a subsequence of what was enqueued, and nothing newer
   than its last item exists.
   */
  ghost predicate Valid(s: State) {
    && (s.running <==> !s.loop.Idle?)
    && (s.pending.Some? ==> s.running)
    && Subsequence(Planned(s), s.enqueued)
    && (s.enqueued != [] ==> Planned(s) != [] && Planned(s)[|Planned(s)| - 1] == s.enqueued[|s.enqueued| - 1])
    && (s.loop.Persisting? ==> s.attempted != [] && s.attempted[|s.attempted| - 1] == s.loop.view)
  }

  lemma EnqueueKeepsValid(s: State, v: View)
    requires Valid(s)
    ensures Valid(Enqueued(s, v))
  {
    var s' := Enqueued(s, v);
    if s.pending.Some? {
      LeaveLast(Planned(s), s.enqueued);
      assert Planned(s)[..|Planned(s)| - 1] == s.attempted;
    } else {
      assert Planned(s) == s.attempted;
    }
    Pair(s.attempted, s.enqueued, v);
    assert Planned(s') == s.attempted + [v];
  }

  lemma TurnKeepsPlan(s: State)
    ensures Planned(Turn(s)) == Planned(s)
  {
  }

  lemma StepKeepsValid(s: State, e: Event)
    requires Valid(s) && Enabled(s, e)
    ensures Valid(Next(s, e))
  {
    match e {
      case Enqueue(v) => EnqueueKeepsValid(s, v);
      case SaveEnds(o) => TurnKeepsPlan(s);
      case DrainEnds(o) => TurnKeepsPlan(s.(running := true, loop := Idle));
    }
  }

  lemma {:induction false} RunIsValid(states: seq<State>, events: seq<Event>, i: nat)
    requires IsRun(states, events) && i <= |events|
    ensures Valid(states[i])
  {
    if i > 0 {
      hide Valid, Next, Enabled;
      RunIsValid(states, events, i - 1);
      StepKeepsValid(states[i - 1], events[i - 1]);
    }
  }

  /**
   No save is lost. In every reachable state a pending view means the loop is running, the
   saved views are a subsequence of the enqueued ones, and at rest the last view saved is the
   last one enqueued. Error handlers may throw.
   */
  lemma NoLostSave(states: seq<State>, events: seq<Event>, i: nat)
    requires IsRun(states, events) && i <= |events|
    ensures var s := states[i];
      && (s.pending.Some? ==> !s.loop.Idle?)
      && Subsequence(s.attempted, s.enqueued)
      && (s.loop.Idle? && s.enqueued != [] ==>
           s.attempted != [] && s.attempted[|s.attempted| - 1] == s.enqueued[|s.enqueued| - 1])
  {
    RunIsValid(states, events, i);
    var s := states[i];
    if s.pending.Some? {
      LeaveLast(Planned(s), s.enqueued);
      assert Planned(s)[..|Planned(s)| - 1] == s.attempted;
    } else {
      assert Planned(s) == s.attempted;
    }
  }

  /** A new save starts only when none is in flight: the one before it has ended. */
  lemma OneSaveAtATime(states: seq<State>, events: seq<Event>, i: nat)
    requires IsRun(states, events) && i < |events|
    requires |states[i + 1].attempted| > |states[i].attempted|
    ensures states[i].loop.Persisting? ==> events[i].SaveEnds?
    ensures states[i + 1].attempted[..|states[i].attempted|] == states[i].attempted
    ensures |states[i + 1].attempted| == |states[i].attempted| + 1
  {
    RunIsValid(states, events, i);
  }

  // ---------------------------------------------------------------- every step

  /** A save of this view starts: it is no longer pending, and the loop waits for it. */
  ghost predicate Starts(s: State, s': State, v: View) {
    s'.loop == Persisting(v) && s'.pending == None && s'.running && s'.attempted == s.attempted + [v]
  }

  /** No save starts. */
  ghost predicate NoSave(s: State, s': State) {
    s'.attempted == s.attempted
  }

  /** A view that comes in is saved at once if the queue rests, and else it waits, instead of the one that waited before. */
  lemma EnqueueExactly(s: State, v: View)
    requires Valid(s)
    ensures var s' := Next(s, Enqueue(v));
      && s'.enqueued == s.enqueued + [v]
      && (s.loop == Idle ==> Starts(s, s', v))
      && (s.loop != Idle ==> NoSave(s, s') && s'.pending == Some(v) && s'.loop == s.loop && s'.running)
  {
    hide Subsequence;
  }

  /**
   After a save, failed or not, the view that waits is saved; with none waiting, or after an
   error handler that threw, the loop drains.
   */
  lemma SaveEndExactly(s: State, o: Outcome)
    requires Valid(s) && s.loop.Persisting?
    ensures var s' := Next(s, SaveEnds(o));
      && s'.enqueued == s.enqueued
      && (o == Rejected(true) || s.pending == None ==>
           (NoSave(s, s') && s'.pending == s.pending && s'.loop == Draining && s'.running))
      && (forall v :: o != Rejected(true) && s.pending == Some(v) ==> Starts(s, s', v))
  {
    hide Subsequence;
  }

  /** After draining the queue rests, or saves the view that came in meanwhile. */
  lemma DrainEndExactly(s: State, o: Outcome)
    requires Valid(s) && s.loop.Draining?
    ensures var s' := Next(s, DrainEnds(o));
      && s'.enqueued == s.enqueued
      && (s.pending == None ==> NoSave(s, s') && s'.pending == None && s'.loop == Idle && !s'.running)
      && (forall v :: s.pending == Some(v) ==> Starts(s, s', v))
  {
    hide Subsequence;
  }

  /** So the drain callback is called only when no view waits, unless an error handler threw. */
  lemma DrainsWhenEmpty(states: seq<State>, events: seq<Event>, i: nat)
    requires IsRun(states, events) && i < |events|
    requires states[i].loop != Draining && states[i + 1].loop == Draining
    ensures states[i + 1].pending == None || events[i] == SaveEnds(Rejected(true))
  {
    RunIsValid(states, events, i);
    DrainsAfter(states[i], events[i]);
    hide Valid, Next;
  }

  lemma DrainsAfter(s: State, e: Event)
    requires Valid(s) && Enabled(s, e) && s.loop != Draining && Next(s, e).loop == Draining
    ensures Next(s, e).pending == None || e == SaveEnds(Rejected(true))
  {
    hide Subsequence, Planned;
  }

  // ---------------------------------------------------------------- coming to rest

  /** An upper bound of the callbacks that still have to end before the queue rests. */
  function Remaining(s: State): nat {
    (match s.loop case Idle => 0 case Persisting(_) => 2 case Draining => 1) + if s.pending.Some? then 2 else 0
  }

  /** Every callback that ends brings the queue nearer to rest, as long as nothing new is enqueued. */
  lemma EveryCallbackHelps(s: State, e: Event)
    requires Valid(s) && Enabled(s, e) && !e.Enqueue?
    ensures Remaining(Next(s, e)) < Remaining(s)
    ensures Remaining(s) > 0 <==> !s.loop.Idle?
  {
  }

  /** At most four callbacks end after the last enqueue; then the last view has been saved and the queue rests. */
  lemma {:induction false} ComesToRest(states: seq<State>, events: seq<Event>, i: nat, j: nat)
    requires IsRun(states, events) && i <= j <= |events|
    requires forall k :: i <= k < j ==> !events[k].Enqueue?
    ensures Remaining(states[j]) + (j - i) <= Remaining(states[i]) <= 4
    decreases j - i
  {
    RunIsValid(states, events, i);
    if i < j {
      RunIsValid(states, events, j - 1);
      EveryCallbackHelps(states[j - 1], events[j - 1]);
      ComesToRest(states, events, i, j - 1);
    }
  }
}
