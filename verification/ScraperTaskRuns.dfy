/** What every run of the scraper task store keeps. */
module ScraperTaskRuns {
  import opened Wrappers
  import opened ScraperTasks

  // ---------------------------------------------------------------- runs from the empty store

  /** The ids a run handed out. */
  ghost function Created(events: seq<Event>): set<string> {
    if events == [] then {}
    else Created(events[..|events| - 1]) + if Last(events).UpsertEvent? then {Last(events).freshId} else {}
  }

  ghost function Last(events: seq<Event>): Event
    requires events != []
  {
    events[|events| - 1]
  }

  /** Task ids are generated, and no id is generated twice. */
  ghost predicate FreshRun(events: seq<Event>) {
    events == [] ||
    (var before := events[..|events| - 1];
     FreshRun(before) && (Last(events).UpsertEvent? ==> Last(events).freshId !in Created(before)))
  }

  ghost function After(events: seq<Event>): (s: Store)
    requires FreshRun(events)
    ensures Valid(s) && s.tasks.Keys <= Created(events)
  {
    if events == [] then EmptyStore
    else
      var before := After(events[..|events| - 1]);
      StepKeepsValid(before, Last(events));
      StepKeys(before, Last(events));
      Step(before, Last(events)).store
  }

  lemma StepKeys(s: Store, e: Event)
    requires Valid(s)
    ensures Step(s, e).store.tasks.Keys <= s.tasks.Keys + if e.UpsertEvent? then {e.freshId} else {}
  {
  }

  lemma KeysWereCreated(events: seq<Event>)
    requires FreshRun(events)
    ensures After(events).tasks.Keys <= Created(events)
  {
  }

  lemma RunExtends(events: seq<Event>, e: Event)
    requires FreshRun(events) && (e.UpsertEvent? ==> e.freshId !in Created(events))
    ensures FreshRun(events + [e])
    ensures Valid(After(events + [e]))
    ensures After(events + [e]) == Step(After(events), e).store
    ensures ScraperTasks.Valid(After(events))
    ensures Created(events + [e]) == Created(events) + if e.UpsertEvent? then {e.freshId} else {}
  {
    assert (events + [e])[..|events + [e]| - 1] == events;
  }

  /** A run that goes on from a given store. */
  ghost function RunFrom(s: Store, events: seq<Event>): (r: Store)
    requires Valid(s) && FreshFrom(s, events)
    ensures Valid(r)
    decreases |events|
  {
    if events == [] then s
    else
      StepKeepsValid(s, events[0]);
      RunFrom(Step(s, events[0]).store, events[1..])
  }

  ghost predicate FreshFrom(s: Store, events: seq<Event>)
    requires Valid(s)
    decreases |events|
  {
    events == [] ||
    (FreshIn(s, events[0]) &&
     (StepKeepsValid(s, events[0]); FreshFrom(Step(s, events[0]).store, events[1..])))
  }

  // ---------------------------------------------------------------- one step, one task

  /** The operation names this task. */
  ghost predicate On(e: Event, id: string) {
    (e.HeartbeatEvent? || e.CompleteEvent? || e.FailEvent?) && e.id == id
  }

  /** A claim looks at every lease and then writes the one pending task it returns. */
  lemma ClaimStep(s: Store, e: Event, id: string)
    requires Valid(s) && e.ClaimEvent?
    ensures var r := Step(s, e).returned;
      && Step(s, e).store.tasks.Keys == s.tasks.Keys
      && (r.Some? ==> r.value.id in s.tasks)
      && (id in s.tasks ==>
        var t, u := Released(s.tasks[id], e.release), Step(s, e).store.tasks[id];
        if r.Some? && r.value.id == id then t.status == Pending && u == r.value == Claimant(t, e.worker, e.seconds, e.now)
        else u == t)
  {
    ValidIsOrdered(s);
    var best := First(ReleaseExpired(s, e.release), IsPending());
    if best.Some? {
      ValidTasks(s, best.value);
    }
    hide Valid, LeaseExpired;
  }

  /** An upsert looks at every lease and then writes one active task, or a new one. */
  lemma UpsertStep(s: Store, e: Event, id: string)
    requires Valid(s) && FreshIn(s, e) && e.UpsertEvent? && id in s.tasks
    ensures id in Step(s, e).store.tasks
    ensures var t, u := Released(s.tasks[id], e.release), Step(s, e).store.tasks[id];
      u == t || (Active(t) && u == Updated(t, e.request, e.now))
  {
    hide Released, Updated, NewTask, Valid;
    ValidIsOrdered(s);
  }

  /** What an operation that does not name a task may do to it. */
  lemma OtherStep(s: Store, e: Event, id: string)
    requires Valid(s) && FreshIn(s, e) && !On(e, id) && id in s.tasks
    ensures Terminal(s.tasks[id]) ==> id in Step(s, e).store.tasks && Step(s, e).store.tasks[id] == s.tasks[id]
    ensures Active(s.tasks[id]) && id in Step(s, e).store.tasks ==> Active(Step(s, e).store.tasks[id])
  {
    if e.UpsertEvent? {
      UpsertStep(s, e, id);
      hide Step;
    } else if e.ClaimEvent? {
      ClaimStep(s, e, id);
      hide Step;
    }
  }

  /** A task that an operation brings into being is active. */
  lemma NewStep(s: Store, e: Event, id: string)
    requires Valid(s) && FreshIn(s, e) && id !in s.tasks && id in Step(s, e).store.tasks
    ensures e.UpsertEvent? && e.freshId == id && Step(s, e).store.tasks[id] == NewTask(id, e.request, e.now)
  {
  }

  lemma StepKeepsTasksValid(s: Store, e: Event, id: string)
    requires Valid(s) && FreshIn(s, e) && id in Step(s, e).store.tasks
    ensures ValidTask(id, Step(s, e).store.tasks[id])
  {
    StepKeepsValid(s, e);
    hide Step;
  }

  // ---------------------------------------------------------------- lease exclusion

  /** An operation of somebody other than `worker`: it may claim, and report or heartbeat under another name. */
  ghost predicate ByOthers(e: Event, worker: string) {
    match e
    case HeartbeatEvent(_, _, w, _) => w != worker
    case CompleteEvent(_, _, reporter, _) => reporter.Some? && reporter.value != "" && reporter.value != worker
    case FailEvent(_, _, reporter, _, _) => reporter.Some? && reporter.value != "" && reporter.value != worker
    case ClearEvent(_) => false
    case _ => true
  }

  /** Every clock reading of the operation is before `t`. */
  ghost predicate Before(e: Event, t: Time) {
    match e
    case UpsertEvent(release, now, _, _) => release < t && now < t
    case ClaimEvent(release, now, _, _) => release < t && now < t
    case HeartbeatEvent(now, _, _, _) => now < t
    case CompleteEvent(now, _, _, _) => now < t
    case FailEvent(now, _, _, _, _) => now < t
    case ListEvent(now) => now < t
    case ClearEvent(_) => true
  }

  ghost predicate HeldUntil(s: Store, id: string, worker: string, until: Time) {
    && id in s.tasks && Leased(s.tasks[id])
    && s.tasks[id].leaseOwner == Some(worker) && s.tasks[id].leaseExpiresAt == Some(until)
  }

  /** What a lease protects. */
  ghost predicate SameHold(t: Task, u: Task) {
    && t.status == u.status && t.leaseOwner == u.leaseOwner
    && t.leaseExpiresAt == u.leaseExpiresAt && t.attemptCount == u.attemptCount
  }

  lemma StepRespectsLease(s: Store, e: Event, id: string, worker: string, until: Time)
    requires Valid(s) && FreshIn(s, e) && HeldUntil(s, id, worker, until)
    requires ByOthers(e, worker) && Before(e, until)
    ensures id in Step(s, e).store.tasks && SameHold(s.tasks[id], Step(s, e).store.tasks[id])
    ensures On(e, id) ==> !Step(s, e).changed && Step(s, e).store == s
  {
    hide Valid;
    if e.UpsertEvent? {
      UpsertStep(s, e, id);
      hide Step;
    } else if e.ClaimEvent? {
      ClaimStep(s, e, id);
      hide Step;
    }
  }

  /** While a worker's lease runs, nothing anybody else does changes who holds the task, until when, or its attempt. */
  lemma {:induction false} LeaseExclusion(s: Store, events: seq<Event>, id: string, worker: string, until: Time)
    requires Valid(s) && FreshFrom(s, events) && HeldUntil(s, id, worker, until)
    requires forall i :: 0 <= i < |events| ==> ByOthers(events[i], worker) && Before(events[i], until)
    ensures HeldUntil(RunFrom(s, events), id, worker, until)
    ensures SameHold(s.tasks[id], RunFrom(s, events).tasks[id])
    decreases |events|
  {
    if events != [] {
      hide Step, Valid, ByOthers, Before;
      StepRespectsLease(s, events[0], id, worker, until);
      StepKeepsValid(s, events[0]);
      LeaseExclusion(Step(s, events[0]).store, events[1..], id, worker, until);
    }
  }

  // ---------------------------------------------------------------- claim order and recovery

  /** What a claim may hand out at time `now`. */
  ghost predicate Claimable(s: Store, id: string, now: Time) {
    id in s.tasks && (s.tasks[id].status == Pending || LeaseExpired(s.tasks[id], now))
  }

  /** The `k`-th key's task is claimable, and created before every claimable one, or with it and listed first. */
  ghost predicate InTurn(s: Store, k: nat, now: Time) {
    && k < |s.order| && Claimable(s, s.order[k], now)
    && forall i :: 0 <= i < |s.order| && Claimable(s, s.order[i], now) ==>
         if i < k then s.tasks[s.order[k]].createdAt < s.tasks[s.order[i]].createdAt
         else s.tasks[s.order[k]].createdAt <= s.tasks[s.order[i]].createdAt
  }

  lemma PendingAfterRelease(s: Store, id: string, release: Time)
    requires id in s.tasks
    ensures ReleaseExpired(s, release).tasks[id].status == Pending <==> Claimable(s, id, release)
    ensures ReleaseExpired(s, release).tasks[id].createdAt == s.tasks[id].createdAt
  {
  }

  lemma OnlyTasksAreClaimable(s: Store, id: string, now: Time)
    requires id !in s.tasks
    ensures !Claimable(s, id, now)
  {
  }

  lemma SelectionInTurn(s: Store, release: Time)
    requires Ordered(s)
    ensures match First(ReleaseExpired(s, release), IsPending())
      case None => forall id :: !Claimable(s, id, release)
      case Some(id) => exists k: nat :: InTurn(s, k, release) && s.order[k] == id
  {
    hide Released, LeaseExpired, Claimable;
    var s1 := ReleaseExpired(s, release);
    var k := Earliest(s1, IsPending(), |s1.order|);
    forall id | id in s.tasks
      ensures s1.tasks[id].status == Pending <==> Claimable(s, id, release)
      ensures s1.tasks[id].createdAt == s.tasks[id].createdAt
    {
      PendingAfterRelease(s, id, release);
    }
    hide Earliest;
    if k.Some? {
      assert InTurn(s, k.value, release);
    } else {
      forall id ensures !Claimable(s, id, release) {
        if id in s.tasks {
          var i :| 0 <= i < |s.order| && s.order[i] == id;
        } else {
          OnlyTasksAreClaimable(s, id, release);
        }
      }
    }
  }

  /** A claim returns the claimable task created first, earlier insertion winning a tie, and nothing only if none is claimable. */
  lemma ClaimOrder(s: Store, release: Time, now: Time, worker: string, seconds: int)
    requires Valid(s)
    ensures var r := Claim(s, release, now, worker, seconds).returned;
      match r {
        case None => forall id :: !Claimable(s, id, release)
        case Some(t) =>
          && (exists k: nat :: InTurn(s, k, release) && s.order[k] == t.id)
          && t.attemptCount == s.tasks[t.id].attemptCount + 1 && t.createdAt == s.tasks[t.id].createdAt
          && t.status == Claimed && t.leaseOwner == Some(worker)
      }
  {
    ValidIsOrdered(s);
    SelectionInTurn(s, release);
    var best := First(ReleaseExpired(s, release), IsPending());
    if best.Some? {
      ValidTasks(s, best.value);
    }
    hide Valid, First, InTurn, Claimable;
  }

  /** A held task becomes claimable exactly when its lease runs out. */
  lemma ClaimableFromExpiry(s: Store, id: string, worker: string, until: Time, now: Time)
    requires Valid(s) && HeldUntil(s, id, worker, until)
    ensures Claimable(s, id, now) <==> until <= now
  {
  }

  /** `r` is the task, as attempt `attempt`, or another claimable one that is no younger. */
  ghost predicate ClaimedInTurn(s: Store, r: Option<Task>, id: string, attempt: nat, now: Time) {
    && id in s.tasks && r.Some?
    && if r.value.id == id then r.value.attemptCount == attempt
       else Claimable(s, r.value.id, now) && r.value.createdAt <= s.tasks[id].createdAt
  }

  /**
   Crash recovery. The holder of a task goes silent while others go on before the lease ends.
   Then a claim before the end does not return the task, and a claim from the end on returns
   it, as the next attempt, unless an older task is claimable.
   */
  lemma CrashRecovery(
    s: Store, events: seq<Event>, id: string, worker: string, until: Time,
    release: Time, now: Time, claimant: string, seconds: int)
    requires Valid(s) && FreshFrom(s, events) && HeldUntil(s, id, worker, until)
    requires forall i :: 0 <= i < |events| ==> ByOthers(events[i], worker) && Before(events[i], until)
    ensures var s1 := RunFrom(s, events); var r := Claim(s1, release, now, claimant, seconds).returned;
      if release < until then r.None? || r.value.id != id
      else ClaimedInTurn(s1, r, id, s.tasks[id].attemptCount + 1, release)
  {
    LeaseExclusion(s, events, id, worker, until);
    hide *;
    ClaimAfterSilence(RunFrom(s, events), id, worker, until, release, now, claimant, seconds);
    SameAttempt(s.tasks[id], RunFrom(s, events).tasks[id]);
  }

  lemma SameAttempt(t: Task, u: Task)
    requires SameHold(t, u)
    ensures t.attemptCount == u.attemptCount
  {
  }

  lemma ClaimAfterSilence(
    s: Store, id: string, worker: string, until: Time, release: Time, now: Time, claimant: string, seconds: int)
    requires Valid(s) && HeldUntil(s, id, worker, until)
    ensures var r := Claim(s, release, now, claimant, seconds).returned;
      if release < until then r.None? || r.value.id != id
      else ClaimedInTurn(s, r, id, s.tasks[id].attemptCount + 1, release)
  {
    ClaimableFromExpiry(s, id, worker, until, release);
    ClaimOrder(s, release, now, claimant, seconds);
    ListedSomewhere(s, id);
    hide Claim, Valid, Claimable;
    var i :| 0 <= i < |s.order| && s.order[i] == id;
  }

  lemma ListedSomewhere(s: Store, id: string)
    requires Valid(s) && id in s.tasks
    ensures exists i :: 0 <= i < |s.order| && s.order[i] == id
  {
  }

  // ---------------------------------------------------------------- fencing

  lemma {:induction false} AttemptNeverShrinks(s: Store, events: seq<Event>, id: string)
    requires Valid(s) && FreshFrom(s, events) && id in s.tasks
    requires forall i :: 0 <= i < |events| && events[i].UpsertEvent? ==> events[i].freshId != id
    ensures id in RunFrom(s, events).tasks ==> s.tasks[id].attemptCount <= RunFrom(s, events).tasks[id].attemptCount
    decreases |events|
  {
    if events != [] {
      StepKeepsValid(s, events[0]);
      var s' := Step(s, events[0]).store;
      if id in s'.tasks {
        StepClaims(s, events[0], id);
        hide Step;
        AttemptNeverShrinks(s', events[1..], id);
      } else {
        GoneForGood(s', events[1..], id);
      }
    }
  }

  lemma {:induction false} GoneForGood(s: Store, events: seq<Event>, id: string)
    requires Valid(s) && FreshFrom(s, events) && id !in s.tasks
    requires forall i :: 0 <= i < |events| && events[i].UpsertEvent? ==> events[i].freshId != id
    ensures id !in RunFrom(s, events).tasks
    decreases |events|
  {
    if events != [] {
      StepKeepsValid(s, events[0]);
      StepKeys(s, events[0]);
      GoneForGood(Step(s, events[0]).store, events[1..], id);
    }
  }

  ghost predicate ReportsOn(e: Event, id: string, attempt: int) {
    (e.CompleteEvent? || e.FailEvent?) && e.id == id && e.attempt == Some(attempt)
  }

  /** Once an attempt has been claimed, a report carrying an earlier attempt changes nothing, however much later it comes. */
  lemma Fencing(s: Store, claim: Event, claimed: Store, between: seq<Event>, report: Event, id: string, attempt: int)
    requires Valid(s) && claim.ClaimEvent? && claimed == Step(s, claim).store
    requires Valid(claimed) && FreshFrom(claimed, between)
    requires forall i :: 0 <= i < |between| && between[i].UpsertEvent? ==> between[i].freshId != id
    requires var t := Step(s, claim).returned; t.Some? && t.value.id == id && attempt < t.value.attemptCount
    requires ReportsOn(report, id, attempt)
    ensures Step(RunFrom(claimed, between), report).store == RunFrom(claimed, between)
    ensures !Step(RunFrom(claimed, between), report).changed
  {
    ClaimStep(s, claim, id);
    hide Valid, Claim, FreshFrom;
    AttemptNeverShrinks(claimed, between, id);
    EarlierReport(RunFrom(claimed, between), report, id, attempt);
    hide Step;
  }

  lemma EarlierReport(s: Store, report: Event, id: string, attempt: int)
    requires Indexed(s) && ReportsOn(report, id, attempt)
    requires id in s.tasks ==> attempt < s.tasks[id].attemptCount
    ensures Step(s, report).store == s && !Step(s, report).changed
  {
  }

  // ---------------------------------------------------------------- one way out of the active statuses

  /** A terminal task stays, and the only way on is from failed to completed. */
  ghost predicate Settled(t: Task, u: Task) {
    && Terminal(u)
    && (t.status == Completed ==> u == t)
    && (t.status == Failed && u.status == Failed ==> u == t)
  }

  lemma StepSettles(s: Store, e: Event, id: string)
    requires Valid(s) && FreshIn(s, e) && id in s.tasks && Terminal(s.tasks[id])
    ensures id in Step(s, e).store.tasks && Settled(s.tasks[id], Step(s, e).store.tasks[id])
  {
    if !On(e, id) {
      OtherStep(s, e, id);
      hide Step;
    }
  }

  lemma {:induction false} TerminalForGood(s: Store, events: seq<Event>, id: string)
    requires Valid(s) && FreshFrom(s, events) && id in s.tasks && Terminal(s.tasks[id])
    ensures id in RunFrom(s, events).tasks && Settled(s.tasks[id], RunFrom(s, events).tasks[id])
    decreases |events|
  {
    if events != [] {
      StepKeepsValid(s, events[0]);
      StepSettles(s, events[0], id);
      hide Step;
      TerminalForGood(Step(s, events[0]).store, events[1..], id);
    }
  }

  // ---------------------------------------------------------------- counting over a run

  function One(b: bool): nat {
    if b then 1 else 0
  }

  ghost function Claims(events: seq<Event>, id: string): nat
    requires FreshRun(events)
  {
    if events == [] then 0
    else
      var before := events[..|events| - 1];
      var r := Step(After(before), Last(events)).returned;
      Claims(before, id) + One(Last(events).ClaimEvent? && r.Some? && r.value.id == id)
  }

  /** How often completing the task reported a change. */
  ghost function Completions(events: seq<Event>, id: string): nat
    requires FreshRun(events)
  {
    if events == [] then 0
    else
      var before, e := events[..|events| - 1], Last(events);
      Completions(before, id) + One(e.CompleteEvent? && e.id == id && Step(After(before), e).changed)
  }

  ghost function Failures(events: seq<Event>, id: string): nat
    requires FreshRun(events)
  {
    if events == [] then 0
    else
      var before, e := events[..|events| - 1], Last(events);
      Failures(before, id) + One(e.FailEvent? && e.id == id && Step(After(before), e).changed)
  }

  ghost predicate CompletedIn(s: Store, id: string) {
    id in s.tasks && s.tasks[id].status == Completed
  }

  ghost predicate FailedIn(s: Store, id: string) {
    id in s.tasks && s.tasks[id].failedAt.Some?
  }

  /** What a step that does not name the task leaves of its final marks. */
  lemma StepStatuses(s: Store, e: Event, id: string)
    requires Valid(s) && FreshIn(s, e)
    ensures !On(e, id) ==> CompletedIn(Step(s, e).store, id) == CompletedIn(s, id)
    ensures !On(e, id) ==> FailedIn(Step(s, e).store, id) == FailedIn(s, id)
  {
    if !On(e, id) {
      hide Step, Valid;
      var s' := Step(s, e).store;
      if id in s.tasks {
        OtherStep(s, e, id);
        ValidTasks(s, id);
        if id in s'.tasks {
          StepKeepsTasksValid(s, e, id);
        }
      } else if id in s'.tasks {
        NewStep(s, e, id);
      }
    }
  }

  lemma ValidTasks(s: Store, id: string)
    requires Valid(s) && id in s.tasks
    ensures ValidTask(id, s.tasks[id])
  {
  }

  lemma StepCompletes(s: Store, e: Event, id: string)
    requires Valid(s) && FreshIn(s, e)
    ensures One(CompletedIn(Step(s, e).store, id)) ==
      One(CompletedIn(s, id)) + One(e.CompleteEvent? && e.id == id && Step(s, e).changed)
  {
    StepStatuses(s, e, id);
  }

  lemma StepFails(s: Store, e: Event, id: string)
    requires Valid(s) && FreshIn(s, e)
    ensures One(FailedIn(Step(s, e).store, id)) ==
      One(FailedIn(s, id)) + One(e.FailEvent? && e.id == id && Step(s, e).changed)
  {
    StepStatuses(s, e, id);
  }

  /** The store remembers: a task is completed, or has failed, exactly as often as it was reported so with effect. */
  lemma {:induction false} TerminalCounts(events: seq<Event>, id: string)
    requires FreshRun(events)
    ensures Completions(events, id) == One(CompletedIn(After(events), id))
    ensures Failures(events, id) == One(FailedIn(After(events), id))
  {
    if events != [] {
      var before := events[..|events| - 1];
      TerminalCounts(before, id);
      hide Step;
      StepCompletes(After(before), Last(events), id);
      StepFails(After(before), Last(events), id);
    }
  }

  /** Over every run, a task completes with effect at most once and fails with effect at most once. */
  lemma TerminalEffectsOnce(events: seq<Event>, id: string)
    requires FreshRun(events)
    ensures Completions(events, id) <= 1 && Failures(events, id) <= 1
  {
    TerminalCounts(events, id);
    hide After, Completions, Failures, Valid;
  }

  /** After a task completed, no report of failure has an effect. */
  lemma NoFailureAfterCompletion(events: seq<Event>, e: Event, id: string)
    requires FreshRun(events) && Completions(events, id) > 0
    requires e.FailEvent? && e.id == id
    ensures !Step(After(events), e).changed && Step(After(events), e).store == After(events)
  {
    TerminalCounts(events, id);
    hide After, Completions, Failures;
  }

  lemma StepClaims(s: Store, e: Event, id: string)
    requires Valid(s) && FreshIn(s, e)
    ensures var s' := Step(s, e).store; var r := Step(s, e).returned;
      var claimed := e.ClaimEvent? && r.Some? && r.value.id == id;
      && (id in s'.tasks && id in s.tasks ==> s'.tasks[id].attemptCount == s.tasks[id].attemptCount + One(claimed))
      && (id in s'.tasks && id !in s.tasks ==> e.UpsertEvent? && e.freshId == id && s'.tasks[id].attemptCount == 0)
      && (claimed ==> id in s.tasks)
  {
    hide Valid;
    ValidIsOrdered(s);
    if e.ClaimEvent? {
      ClaimStep(s, e, id);
      hide Step;
    } else if id in s.tasks {
      if e.UpsertEvent? {
        UpsertStep(s, e, id);
        hide Step;
      }
    } else if id in Step(s, e).store.tasks {
      NewStep(s, e, id);
      hide Step;
    }
  }

  lemma {:induction false} NeverClaimedBefore(events: seq<Event>, id: string)
    requires FreshRun(events) && id !in Created(events)
    ensures Claims(events, id) == 0
  {
    if events != [] {
      var before := events[..|events| - 1];
      NeverClaimedBefore(before, id);
      StepClaims(After(before), Last(events), id);
    }
  }

  /** A task's attempt counter is the number of claims that returned it, in the whole history. */
  lemma {:induction false} AttemptsAreClaims(events: seq<Event>, id: string)
    requires FreshRun(events) && id in After(events).tasks
    ensures After(events).tasks[id].attemptCount == Claims(events, id) == After(events).tasks[id].lastAttempt
  {
    if events != [] {
      var before := events[..|events| - 1];
      StepClaims(After(before), Last(events), id);
      if id in After(before).tasks {
        AttemptsAreClaims(before, id);
      } else {
        NeverClaimedBefore(before, id);
      }
    }
  }

  /** In every reachable store there is at most one active task for a step of a source. */
  lemma OneActivePerStep(events: seq<Event>, a: string, b: string)
    requires FreshRun(events)
    requires a in After(events).tasks && b in After(events).tasks
    requires Active(After(events).tasks[a]) && Active(After(events).tasks[b])
    requires After(events).tasks[a].sourceId == After(events).tasks[b].sourceId
    requires After(events).tasks[a].stepId == After(events).tasks[b].stepId
    ensures a == b
  {
    assert !Rivals(After(events), a, b);
  }

  /** In every reachable store a task is claimed or running exactly when it has an owner, and then it has an expiry. */
  lemma LeasedIffOwned(events: seq<Event>, id: string)
    requires FreshRun(events) && id in After(events).tasks
    ensures var t := After(events).tasks[id];
      (Leased(t) <==> t.leaseOwner.Some?) && (Leased(t) <==> t.leaseExpiresAt.Some?)
  {
    assert ValidTask(id, After(events).tasks[id]);
  }
}
