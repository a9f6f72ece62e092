/**
 The report handlers in front of the store: which requests they turn away, and what they do,
 in order, when a report has an effect.
 */
module ScraperApi {
  import opened Wrappers
  import opened ScraperTasks
  import opened ScraperTaskRuns
  import ScraperTaskStore

  /** What the completion handler does outside the store, on behalf of a task; data is kept as text. */
  datatype Effect =
    | StoreSecret(taskId: string, sourceId: string, key: string, data: string)
    | MarkRefreshing(taskId: string, sourceId: string)
    | ResumeFlow(taskId: string, sourceId: string)

  datatype Response =
    | NotFound
    | SourceMismatch
    | LeaseOwnedByOther
    | Idempotent(task: Task)
    | Accepted(task: Task)

  datatype Completion = Completion(
    now: Time, taskId: string, sourceId: string, workerId: string, attempt: Option<int>, data: string, resolvable: bool)

  function CompletionEventOf(c: Completion): Event {
    CompleteEvent(c.now, c.taskId, Some(c.workerId), c.attempt)
  }

  /** The secret first, then the state, then the flow, if its source still resolves. */
  function EffectsOf(c: Completion, t: Task): seq<Effect> {
    [StoreSecret(c.taskId, c.sourceId, OrElse(t.secretKey, "webview_data"), c.data), MarkRefreshing(c.taskId, c.sourceId)] +
    if c.resolvable then [ResumeFlow(c.taskId, c.sourceId)] else []
  }

  /** The data goes under the task's secret key, the report to the store as the worker's own. */
  lemma ReportExactly(c: Completion, t: Task)
    ensures var key := if t.secretKey == "" then "webview_data" else t.secretKey;
      EffectsOf(c, t) ==
      if c.resolvable then
        [StoreSecret(c.taskId, c.sourceId, key, c.data), MarkRefreshing(c.taskId, c.sourceId), ResumeFlow(c.taskId, c.sourceId)]
      else
        [StoreSecret(c.taskId, c.sourceId, key, c.data), MarkRefreshing(c.taskId, c.sourceId)]
    ensures CompletionEventOf(c) == CompleteEvent(c.now, c.taskId, Some(c.workerId), c.attempt)
  {
  }

  /** The report reaches the store: the task exists and belongs to the source. */
  predicate Reaches(s: Store, c: Completion) {
    c.taskId in s.tasks && s.tasks[c.taskId].sourceId == c.sourceId
  }

  class ReportHandler {
    const store: ScraperTaskStore.TaskStore
    var effects: seq<Effect>

    constructor (store: ScraperTaskStore.TaskStore)
      ensures this.store == store && effects == []
    {
      this.store := store;
      effects := [];
    }

    method InternalCompleteScraperTask(c: Completion) returns (response: Response)
      requires store.Valid()
      modifies this, store
      ensures store.Valid()
      ensures var s := old(store.Model()); var outcome := Step(s, CompletionEventOf(c));
        if c.taskId !in s.tasks then
          response == NotFound && effects == old(effects) && store.trace == old(store.trace)
        else if !Reaches(s, c) then
          response == SourceMismatch && effects == old(effects) && store.trace == old(store.trace)
        else
          && store.trace == old(store.trace) + [CompletionEventOf(c)]
          && store.Model() == outcome.store
          && if outcome.changed then
               response == Accepted(outcome.returned.value) && effects == old(effects) + EffectsOf(c, outcome.returned.value)
             else
               effects == old(effects) &&
               response == if outcome.returned.None? then LeaseOwnedByOther else Idempotent(outcome.returned.value)
    {
      hide ScraperTasks.Valid, After, FreshRun;
      if c.taskId !in store.tasksById {
        return NotFound;
      }
      if store.tasksById[c.taskId].sourceId != c.sourceId {
        return SourceMismatch;
      }
      var updated, changed := store.CompleteTask(c.now, c.taskId, Some(c.workerId), c.attempt);
      if updated.None? {
        return LeaseOwnedByOther;
      }
      if !changed {
        return Idempotent(updated.value);
      }
      var task := updated.value;
      effects := effects + [StoreSecret(c.taskId, c.sourceId, OrElse(task.secretKey, "webview_data"), c.data)];
      effects := effects + [MarkRefreshing(c.taskId, c.sourceId)];
      if c.resolvable {
        effects := effects + [ResumeFlow(c.taskId, c.sourceId)];
      }
      return Accepted(task);
    }
  }

  // ---------------------------------------------------------------- runs

  /** Either an operation on the store from elsewhere, or a completion report through the handler. */
  datatype Call = Direct(e: Event) | Report(c: Completion)

  datatype World = World(trace: seq<Event>, effects: seq<Effect>)

  ghost predicate Possible(w: World, call: Call) {
    && FreshRun(w.trace)
    && (call.Direct? ==>
         !call.e.CompleteEvent? && (call.e.UpsertEvent? ==> call.e.freshId !in Created(w.trace)))
  }

  ghost function Next(w: World, call: Call): (r: World)
    requires Possible(w, call)
    ensures FreshRun(r.trace)
  {
    match call
    case Direct(e) =>
      RunExtends(w.trace, e);
      World(w.trace + [e], w.effects)
    case Report(c) =>
      var s := After(w.trace);
      var e := CompletionEventOf(c);
      if !Reaches(s, c) then w
      else
        RunExtends(w.trace, e);
        var outcome := Step(s, e);
        World(w.trace + [e], if outcome.changed then w.effects + EffectsOf(c, outcome.returned.value) else w.effects)
  }

  /** The worlds a sequence of calls goes through. */
  ghost predicate IsRun(worlds: seq<World>, calls: seq<Call>) {
    && |worlds| == |calls| + 1 && worlds[0] == World([], [])
    && forall i :: 0 <= i < |calls| ==> Possible(worlds[i], calls[i]) && worlds[i + 1] == Next(worlds[i], calls[i])
  }

  /** The effects on behalf of one task. */
  function For(effects: seq<Effect>, id: string): seq<Effect> {
    if effects == [] then []
    else For(effects[..|effects| - 1], id) + if effects[|effects| - 1].taskId == id then [effects[|effects| - 1]] else []
  }

  lemma {:induction false} ForAppend(a: seq<Effect>, b: seq<Effect>, id: string)
    requires forall i :: 0 <= i < |b| ==> b[i].taskId == b[0].taskId
    ensures For(a + b, id) == For(a, id) + if b != [] && b[0].taskId == id then b else []
    decreases |b|
  {
    if b == [] {
      assert a + b == a;
    } else {
      var init := b[..|b| - 1];
      assert (a + b)[..|a + b| - 1] == a + init;
      ForAppend(a, init, id);
      assert init + [b[|b| - 1]] == b;
    }
  }

  /** Nothing was done for the task, or everything one accepted report asks for, once and in order. */
  ghost predicate DoneAtMostOnce(effects: seq<Effect>, id: string, completions: nat) {
    || (completions == 0 && For(effects, id) == [])
    || (completions == 1 && exists c: Completion, t: Task :: c.taskId == id && For(effects, id) == EffectsOf(c, t))
  }

  lemma NextDoesAtMostOnce(w: World, call: Call, id: string)
    requires Possible(w, call) && DoneAtMostOnce(w.effects, id, Completions(w.trace, id))
    ensures DoneAtMostOnce(Next(w, call).effects, id, Completions(Next(w, call).trace, id))
  {
    hide Step, EffectsOf, After;
    var w' := Next(w, call);
    if w' != w {
      assert w'.trace[..|w'.trace| - 1] == w.trace;
      TerminalEffectsOnce(w'.trace, id);
      if call.Report? {
        ReportReturns(After(w.trace), call.c);
        var outcome := Step(After(w.trace), CompletionEventOf(call.c));
        if outcome.changed {
          EffectsShape(call.c, outcome.returned.value);
          ForAppend(w.effects, EffectsOf(call.c, outcome.returned.value), id);
          assert [] + EffectsOf(call.c, outcome.returned.value) == EffectsOf(call.c, outcome.returned.value);
        }
      }
    }
  }

  lemma ReportReturns(s: Store, c: Completion)
    requires Indexed(s)
    ensures Step(s, CompletionEventOf(c)).changed ==> Step(s, CompletionEventOf(c)).returned.Some?
  {
  }

  lemma EffectsShape(c: Completion, t: Task)
    ensures EffectsOf(c, t) != [] && forall i :: 0 <= i < |EffectsOf(c, t)| ==> EffectsOf(c, t)[i].taskId == c.taskId
  {
  }

  /**
   Whatever is reported, however often and by whom, after every call: storing the data and
   resuming the flow have been done at most once for a task.
   */
  lemma {:induction false} EffectsAtMostOnce(worlds: seq<World>, calls: seq<Call>, i: nat, id: string)
    requires IsRun(worlds, calls) && i <= |calls|
    ensures FreshRun(worlds[i].trace)
    ensures DoneAtMostOnce(worlds[i].effects, id, Completions(worlds[i].trace, id))
  {
    hide Next, Possible, DoneAtMostOnce;
    if i == 0 {
      StartsUndone(id);
    } else {
      EffectsAtMostOnce(worlds, calls, i - 1, id);
      NextDoesAtMostOnce(worlds[i - 1], calls[i - 1], id);
    }
  }

  lemma StartsUndone(id: string)
    ensures FreshRun([]) && DoneAtMostOnce([], id, Completions([], id))
  {
  }
}
