/**
 When each operation of the task store takes effect, and what the records say afterwards, field
 by field.
 */
module ScraperTaskLaws {
  import opened Wrappers
  import opened ScraperTasks
  import ScraperTaskRuns

  // ---------------------------------------------------------------- vocabulary

  /** Somebody else holds the task, and the lease has not run out. */
  ghost predicate WithOther(t: Task, worker: string, now: Time) {
    exists owner, expiry ::
      t.leaseOwner == Some(owner) && owner != worker && t.leaseExpiresAt == Some(expiry) && now < expiry
  }

  /** `end` is `seconds` after `now`, but at least one second. */
  ghost predicate LeaseEndsAt(end: Time, now: Time, seconds: int) {
    (seconds >= 1 && end == now + seconds as real) || (seconds < 1 && end == now + 1.0)
  }

  /** Everything but this task is as it was. */
  ghost predicate OthersKept(s: Store, s': Store, id: string) {
    && s'.order == s.order && s'.tasks.Keys == s.tasks.Keys
    && forall k :: k in s.tasks && k != id ==> s'.tasks[k] == s.tasks[k]
  }

  /** The lease has run out by this time. */
  ghost predicate RunOut(t: Task, now: Time) {
    (t.status == Claimed || t.status == Running) && exists expiry :: t.leaseExpiresAt == Some(expiry) && expiry <= now
  }

  /** A task whose lease has run out is pending and free again; any other stays. */
  ghost predicate Freed(t: Task, u: Task, now: Time) {
    if RunOut(t, now) then u == t.(status := Pending, leaseOwner := None, leaseExpiresAt := None, updatedAt := now)
    else u == t
  }

  lemma OtherExactly(t: Task, worker: string, now: Time)
    ensures HeldByOther(t, worker, now) <==> WithOther(t, worker, now)
  {
  }

  lemma LeaseEndExactly(now: Time, seconds: int)
    ensures LeaseEndsAt(LeaseEnd(now, seconds), now, seconds)
  {
  }

  lemma FreedExactly(t: Task, now: Time)
    ensures Freed(t, Released(t, now), now)
    ensures RunOut(t, now) == LeaseExpired(t, now)
  {
  }

  // ---------------------------------------------------------------- reports

  /** The report counts: the task is not final in the way named, the attempt is its own, and nobody else holds it. */
  ghost predicate Rightful(t: Task, worker: Option<string>, attempt: Option<int>, now: Time) {
    && (attempt == None || attempt == Some(t.attemptCount))
    && !(exists name :: worker == Some(name) && name != "" && WithOther(t, name, now))
  }

  lemma RightfulExactly(t: Task, worker: Option<string>, attempt: Option<int>, now: Time)
    ensures Rightful(t, worker, attempt, now) <==> !Fenced(t, attempt) && !Excluded(t, worker, now)
  {
    if worker.Some? {
      OtherExactly(t, worker.value, now);
    }
    hide WithOther, HeldByOther;
  }

  ghost predicate CompletedFrom(t: Task, u: Task, now: Time) {
    u == t.(status := Completed, completedAt := Some(now), lastError := None, leaseOwner := None, leaseExpiresAt := None,
            updatedAt := now)
  }

  ghost predicate FailedFrom(t: Task, u: Task, error: string, now: Time) {
    u == t.(status := Failed, failedAt := Some(now), lastError := Some(error), leaseOwner := None, leaseExpiresAt := None,
            updatedAt := now)
  }

  /** The task, if it exists and is final. */
  ghost function FinalTask(s: Store, id: string): Option<Task> {
    if id in s.tasks && (s.tasks[id].status == Completed || s.tasks[id].status == Failed) then Some(s.tasks[id]) else None
  }

  /** A completion takes effect exactly if the task exists, is not completed, and the report is rightful; this is what it does then. */
  lemma CompletionExactly(s: Store, now: Time, id: string, worker: Option<string>, attempt: Option<int>)
    requires Indexed(s)
    ensures var o := Step(s, CompleteEvent(now, id, worker, attempt));
      && (o.changed <==> id in s.tasks && s.tasks[id].status != Completed && Rightful(s.tasks[id], worker, attempt, now))
      && (!o.changed ==> o.store == s)
      && (o.changed ==> OthersKept(s, o.store, id) && o.returned == Some(o.store.tasks[id]))
      && (o.changed ==> CompletedFrom(s.tasks[id], o.store.tasks[id], now))
  {
    if id in s.tasks {
      RightfulExactly(s.tasks[id], worker, attempt, now);
    }
    hide Rightful, Fenced, Excluded;
  }

  /** The same for a failure, which a failed task refuses too. */
  lemma FailureExactly(s: Store, now: Time, id: string, worker: Option<string>, error: string, attempt: Option<int>)
    requires Indexed(s)
    ensures var o := Step(s, FailEvent(now, id, worker, error, attempt));
      && (o.changed <==>
           && id in s.tasks && s.tasks[id].status != Completed && s.tasks[id].status != Failed
           && Rightful(s.tasks[id], worker, attempt, now))
      && (!o.changed ==> o.store == s)
      && (o.changed ==> OthersKept(s, o.store, id) && o.returned == Some(o.store.tasks[id]))
      && (o.changed ==> FailedFrom(s.tasks[id], o.store.tasks[id], error, now))
  {
    if id in s.tasks {
      RightfulExactly(s.tasks[id], worker, attempt, now);
    }
    hide Rightful, Fenced, Excluded;
  }

  /** What an ineffective report or heartbeat is answered: nothing if the task is unknown or somebody else's, else the task. */
  lemma AnswersExactly(s: Store, now: Time, id: string, worker: Option<string>, attempt: Option<int>)
    requires Indexed(s) && !Step(s, CompleteEvent(now, id, worker, attempt)).changed
    ensures Step(s, CompleteEvent(now, id, worker, attempt)).returned ==
      if id in s.tasks && (s.tasks[id].status == Completed || !(attempt == None || attempt == Some(s.tasks[id].attemptCount)))
      then Some(s.tasks[id]) else None
  {
  }

  lemma FailureAnswers(s: Store, now: Time, id: string, worker: Option<string>, error: string, attempt: Option<int>)
    requires Indexed(s) && !Step(s, FailEvent(now, id, worker, error, attempt)).changed
    ensures Step(s, FailEvent(now, id, worker, error, attempt)).returned ==
      if id in s.tasks && (s.tasks[id].status == Completed || s.tasks[id].status == Failed ||
                           !(attempt == None || attempt == Some(s.tasks[id].attemptCount)))
      then Some(s.tasks[id]) else None
  {
  }

  ghost predicate Renewed(t: Task, u: Task, now: Time, worker: string, seconds: int) {
    exists end :: LeaseEndsAt(end, now, seconds) &&
      u == t.(status := Running, leaseOwner := Some(worker), leaseExpiresAt := Some(end), updatedAt := now)
  }

  /** A heartbeat takes effect exactly if the task exists, is not final, and nobody else holds it; it starts the lease anew. */
  lemma HeartbeatExactly(s: Store, now: Time, id: string, worker: string, seconds: int)
    requires Indexed(s)
    ensures var o := Step(s, HeartbeatEvent(now, id, worker, seconds));
      && (o.changed <==>
           && id in s.tasks && s.tasks[id].status != Completed && s.tasks[id].status != Failed
           && !WithOther(s.tasks[id], worker, now))
      && (!o.changed ==> o.store == s)
      && (!o.changed ==> o.returned == FinalTask(s, id))
      && (o.changed ==> OthersKept(s, o.store, id) && o.returned == Some(o.store.tasks[id]))
      && (o.changed ==> Renewed(s.tasks[id], o.store.tasks[id], now, worker, seconds))
  {
    if id in s.tasks {
      OtherExactly(s.tasks[id], worker, now);
    }
    LeaseEndExactly(now, seconds);
    hide WithOther, HeldByOther, LeaseEnd, LeaseEndsAt;
  }

  // ---------------------------------------------------------------- leases, listing and clearing

  ghost predicate AllFreed(s: Store, s': Store, now: Time) {
    && s'.order == s.order && s'.tasks.Keys == s.tasks.Keys
    && forall k :: k in s.tasks ==> Freed(s.tasks[k], s'.tasks[k], now)
  }

  lemma ReleaseExactly(s: Store, now: Time)
    ensures AllFreed(s, ReleaseExpired(s, now), now)
  {
    hide Freed, Released;
    forall k | k in s.tasks ensures Freed(s.tasks[k], ReleaseExpired(s, now).tasks[k], now) {
      FreedExactly(s.tasks[k], now);
    }
  }

  /** Listing only frees the tasks whose lease has run out. */
  lemma ListExactly(s: Store, now: Time)
    requires Indexed(s)
    ensures AllFreed(s, Step(s, ListEvent(now)).store, now)
  {
    hide ReleaseExpired, AllFreed;
    ReleaseExactly(s, now);
  }

  /** Clearing removes exactly the pending, claimed and running tasks of the source, or of all if none is named. */
  lemma ClearExactly(s: Store, sourceId: Option<string>, id: string)
    requires Ordered(s)
    ensures var s' := Step(s, ClearEvent(sourceId)).store;
      && (id in s'.tasks <==>
           id in s.tasks &&
           !((s.tasks[id].status == Pending || s.tasks[id].status == Claimed || s.tasks[id].status == Running) &&
             (sourceId == None || sourceId == Some("") || sourceId == Some(s.tasks[id].sourceId))))
      && (id in s'.tasks ==> s'.tasks[id] == s.tasks[id])
      && (id in s'.order <==> id in s'.tasks)
  {
  }

  /** And the others keep their order. */
  lemma {:induction false} WithoutKeepsOrder(order: seq<string>, gone: set<string>, i: nat)
    requires i < |order| && order[i] !in gone
    ensures var place := |Without(order[..i], gone)|;
      place < |Without(order, gone)| && Without(order, gone)[place] == order[i]
    decreases |order|
  {
    hide Without;
    WithoutFirst(order, gone);
    if i == 0 {
      assert order[..0] == [];
      NothingWithout(gone);
    } else {
      WithoutKeepsOrder(order[1..], gone, i - 1);
      assert order[..i][1..] == order[1..][..i - 1];
      WithoutFirst(order[..i], gone);
    }
  }

  lemma NothingWithout(gone: set<string>)
    ensures Without([], gone) == []
  {
  }

  lemma WithoutFirst(order: seq<string>, gone: set<string>)
    requires order != []
    ensures Without(order, gone) == (if order[0] in gone then [] else [order[0]]) + Without(order[1..], gone)
  {
  }

  // ---------------------------------------------------------------- claims

  /** What a claim at this time may hand out. */
  ghost predicate Available(s: Store, id: string, now: Time) {
    id in s.tasks && (s.tasks[id].status == Pending || RunOut(s.tasks[id], now))
  }

  /** The available task created first; of those created together, the one listed first. */
  ghost predicate FirstAvailable(s: Store, id: string, now: Time) {
    exists i :: 0 <= i < |s.order| && s.order[i] == id && Available(s, id, now) &&
      forall j :: 0 <= j < |s.order| && j != i && Available(s, s.order[j], now) ==>
        s.tasks[id].createdAt < s.tasks[s.order[j]].createdAt ||
        (i < j && s.tasks[id].createdAt == s.tasks[s.order[j]].createdAt)
  }

  lemma AvailableExactly(s: Store, id: string, now: Time)
    ensures Available(s, id, now) == ScraperTaskRuns.Claimable(s, id, now)
  {
    if id in s.tasks {
      FreedExactly(s.tasks[id], now);
    }
  }

  lemma FirstIsInTurn(s: Store, k: nat, now: Time)
    requires Indexed(s) && ScraperTaskRuns.InTurn(s, k, now)
    ensures FirstAvailable(s, s.order[k], now)
  {
    hide Available, ScraperTaskRuns.Claimable;
    forall id ensures Available(s, id, now) == ScraperTaskRuns.Claimable(s, id, now) {
      AvailableExactly(s, id, now);
    }
  }

  lemma SomeInTurn(s: Store, id: string, now: Time)
    requires Indexed(s) && exists k: nat :: ScraperTaskRuns.InTurn(s, k, now) && s.order[k] == id
    ensures FirstAvailable(s, id, now)
  {
    var k: nat :| ScraperTaskRuns.InTurn(s, k, now) && s.order[k] == id;
    FirstIsInTurn(s, k, now);
  }

  /** The claimed record. */
  ghost predicate ClaimedFrom(t: Task, u: Task, worker: string, seconds: int, now: Time) {
    exists end :: LeaseEndsAt(end, now, seconds) &&
      u == t.(status := Claimed, attemptCount := t.attemptCount + 1, lastAttempt := t.attemptCount + 1,
              leaseOwner := Some(worker), leaseExpiresAt := Some(end), updatedAt := now, failedAt := None, lastError := None)
  }

  lemma ClaimedFields(t: Task, worker: string, seconds: int, release: Time, now: Time)
    ensures ClaimedFrom(t, Claimant(Released(t, release), worker, seconds, now), worker, seconds, now)
  {
    LeaseEndExactly(now, seconds);
    hide LeaseEnd, LeaseEndsAt;
  }

  /** Whether a claim returns a task, and which. */
  lemma ClaimPicks(s: Store, release: Time, now: Time, worker: string, seconds: int)
    requires Valid(s)
    ensures var o := Step(s, ClaimEvent(release, now, worker, seconds));
      && (o.returned == None <==> forall id :: !Available(s, id, release))
      && (o.returned.Some? ==> FirstAvailable(s, o.returned.value.id, release))
  {
    hide Available, ScraperTaskRuns.Claimable, ScraperTaskRuns.InTurn, FirstAvailable, Valid, First, Claimant;
    ValidIsOrdered(s);
    ScraperTaskRuns.ClaimOrder(s, release, now, worker, seconds);
    forall id ensures Available(s, id, release) == ScraperTaskRuns.Claimable(s, id, release) {
      AvailableExactly(s, id, release);
    }
    var r := Claim(s, release, now, worker, seconds).returned;
    hide Claim;
    if r.Some? {
      SomeInTurn(s, r.value.id, release);
      FirstIsAvailable(s, r.value.id, release);
    }
  }

  /** What a claim does to one task. */
  lemma ClaimWrites(s: Store, release: Time, now: Time, worker: string, seconds: int, id: string)
    requires Valid(s) && id in s.tasks
    ensures var o := Step(s, ClaimEvent(release, now, worker, seconds));
      && o.store.order == s.order && o.store.tasks.Keys == s.tasks.Keys
      && if o.returned.Some? && o.returned.value.id == id
         then o.store.tasks[id] == o.returned.value && ClaimedFrom(s.tasks[id], o.returned.value, worker, seconds, now)
         else Freed(s.tasks[id], o.store.tasks[id], release)
  {
    hide Valid, Freed, ClaimedFrom, Claimant, Released, First;
    ValidIsOrdered(s);
    ScraperTaskRuns.ClaimStep(s, ClaimEvent(release, now, worker, seconds), id);
    ClaimedFields(s.tasks[id], worker, seconds, release, now);
    FreedExactly(s.tasks[id], release);
  }

  lemma ClaimKeepsKeys(s: Store, release: Time, now: Time, worker: string, seconds: int)
    requires Indexed(s)
    ensures var o := Step(s, ClaimEvent(release, now, worker, seconds));
      o.store.order == s.order && o.store.tasks.Keys == s.tasks.Keys
  {
    hide Claimant, Released, First;
  }

  /**
   A claim hands out the first available task, if there is one, as the worker's next attempt
   with a lease from now; all other tasks whose lease has run out become free.
   */
  lemma ClaimExactly(s: Store, release: Time, now: Time, worker: string, seconds: int)
    requires Valid(s)
    ensures var o := Step(s, ClaimEvent(release, now, worker, seconds));
      && o.store.order == s.order && o.store.tasks.Keys == s.tasks.Keys
      && (o.returned == None <==> forall id :: !Available(s, id, release))
      && (o.returned == None ==> AllFreed(s, o.store, release))
      && (forall t :: o.returned == Some(t) ==> Claims(s, o.store, t, release, now, worker, seconds))
  {
    ValidIsOrdered(s);
    hide Valid, Available, FirstAvailable, ClaimedFrom, Freed, Step, Ordered;
    var o := Step(s, ClaimEvent(release, now, worker, seconds));
    ClaimKeepsKeys(s, release, now, worker, seconds);
    ClaimPicks(s, release, now, worker, seconds);
    forall k | k in s.tasks
      ensures if o.returned.Some? && o.returned.value.id == k
              then o.store.tasks[k] == o.returned.value && ClaimedFrom(s.tasks[k], o.returned.value, worker, seconds, now)
              else Freed(s.tasks[k], o.store.tasks[k], release)
    {
      ClaimWrites(s, release, now, worker, seconds, k);
    }
    if o.returned.Some? {
      FirstIsAvailable(s, o.returned.value.id, release);
      AvailableIsTask(s, o.returned.value.id, release);
    }
  }

  /** The outcome of a claim that returns `t`. */
  ghost predicate Claims(s: Store, s': Store, t: Task, release: Time, now: Time, worker: string, seconds: int) {
    && FirstAvailable(s, t.id, release) && t.id in s.tasks && s'.tasks.Keys == s.tasks.Keys && s'.tasks[t.id] == t
    && ClaimedFrom(s.tasks[t.id], t, worker, seconds, now)
    && forall k :: k in s.tasks && k != t.id ==> Freed(s.tasks[k], s'.tasks[k], release)
  }

  lemma AvailableIsTask(s: Store, id: string, now: Time)
    requires Available(s, id, now)
    ensures id in s.tasks
  {
  }

  lemma FirstIsAvailable(s: Store, id: string, now: Time)
    requires FirstAvailable(s, id, now)
    ensures Available(s, id, now)
  {
  }

  // ---------------------------------------------------------------- upserts

  ghost predicate Unfinished(t: Task) {
    t.status == Pending || t.status == Claimed || t.status == Running
  }

  /** The parts of a record a request decides. */
  ghost predicate Asks(t: Task, r: Request) {
    && t.url == r.url
    && t.script == (match r.script case Some(text) => text case None => "")
    && t.interceptApi == (match r.interceptApi case Some(text) => text case None => "")
    && t.secretKey == if r.secretKey == "" then "webview_data" else r.secretKey
  }

  /** An unfinished task, updated: the request's fields and the time; a lease that has not run out stays. */
  ghost predicate UpdatedFrom(t: Task, u: Task, r: Request, release: Time, now: Time) {
    && Asks(u, r)
    && u == (if RunOut(t, release) || t.status == Pending
             then t.(status := Pending, leaseOwner := None, leaseExpiresAt := None) else t)
            .(url := u.url, script := u.script, interceptApi := u.interceptApi, secretKey := u.secretKey, updatedAt := now)
  }

  /** A new task. */
  ghost predicate NewFrom(u: Task, id: string, r: Request, now: Time) {
    && u.id == id && u.sourceId == r.sourceId && u.stepId == r.stepId && Asks(u, r)
    && u.status == Pending && u.attemptCount == 0 && u.lastAttempt == 0
    && u.leaseOwner == None && u.leaseExpiresAt == None && u.lastError == None
    && u.createdAt == now && u.updatedAt == now && u.completedAt == None && u.failedAt == None
  }

  lemma UpdatedFields(t: Task, r: Request, release: Time, now: Time)
    ensures UpdatedFrom(t, Updated(Released(t, release), r, now), r, release, now)
  {
    FreedExactly(t, release);
  }

  lemma NewFields(id: string, r: Request, now: Time)
    ensures NewFrom(NewTask(id, r, now), id, r, now)
  {
  }

  /** The step of the request. */
  ghost predicate ForStep(t: Task, r: Request) {
    t.sourceId == r.sourceId && t.stepId == r.stepId
  }

  lemma ActiveForExactly(s: Store, r: Request, release: Time, id: string)
    requires id in s.tasks
    ensures ActiveFor(r.sourceId, r.stepId)(ReleaseExpired(s, release).tasks[id]) <==> Unfinished(s.tasks[id]) && ForStep(s.tasks[id], r)
  {
  }

  /** The request's step has this unfinished task. */
  ghost predicate Wanted(s: Store, r: Request, id: string) {
    id in s.tasks && Unfinished(s.tasks[id]) && ForStep(s.tasks[id], r)
  }

  /** The selection of an upsert is the one unfinished task of the step. */
  lemma UpsertPicks(s: Store, release: Time, r: Request)
    requires Valid(s)
    ensures match First(ReleaseExpired(s, release), ActiveFor(r.sourceId, r.stepId)) {
      case Some(best) => Wanted(s, r, best) && forall id :: Wanted(s, r, id) ==> id == best
      case None => forall id :: !Wanted(s, r, id)
    }
  {
    ValidIsOrdered(s);
    var s1 := ReleaseExpired(s, release);
    var p := ActiveFor(r.sourceId, r.stepId);
    assert Ordered(s1);
    SelectsFirst(s1, p);
    forall id | id in s.tasks ensures p(s1.tasks[id]) <==> Wanted(s, r, id) {
      ActiveForExactly(s, r, release, id);
    }
    var best := First(s1, p);
    hide Released, First, Ordered, ActiveFor, Unfinished, ForStep;
    if best.Some? {
      forall id | Wanted(s, r, id) ensures id == best.value {
        OnlyOne(s, r, id, best);
      }
    }
  }

  /** The record `u` of a task after the upsert. */
  ghost predicate AfterUpsert(s: Store, u: Task, id: string, release: Time, now: Time, r: Request)
    requires id in s.tasks
  {
    if Wanted(s, r, id) then UpdatedFrom(s.tasks[id], u, r, release, now) else Freed(s.tasks[id], u, release)
  }

  /**
   An upsert updates the unfinished task of the step, if there is one, and otherwise adds a
   pending one under the fresh id; other tasks whose lease has run out become free.
   */
  lemma UpsertExactly(s: Store, release: Time, now: Time, r: Request, freshId: string)
    requires Valid(s) && freshId !in s.tasks
    ensures var s' := Step(s, UpsertEvent(release, now, r, freshId)).store;
      && s.tasks.Keys <= s'.tasks.Keys
      && (forall id :: id in s.tasks ==> AfterUpsert(s, s'.tasks[id], id, release, now, r))
      && ((exists id :: Wanted(s, r, id)) ==> s'.order == s.order && s'.tasks.Keys == s.tasks.Keys)
      && ((forall id :: !Wanted(s, r, id)) ==>
           (s'.order == s.order + [freshId] && s'.tasks.Keys == s.tasks.Keys + {freshId}
            && NewFrom(s'.tasks[freshId], freshId, r, now)))
  {
    ValidIsOrdered(s);
    hide *;
    UpsertPicks(s, release, r);
    NewFields(freshId, r, now);
    UpsertShape(s, release, now, r, freshId);
    var s' := Step(s, UpsertEvent(release, now, r, freshId)).store;
    forall id | id in s.tasks ensures id in s'.tasks && AfterUpsert(s, s'.tasks[id], id, release, now, r) {
      UpsertWrites(s, release, now, r, freshId, id);
    }
    ListedAreTasks(s, release, r);
  }

  lemma ListedAreTasks(s: Store, release: Time, r: Request)
    requires Valid(s)
    ensures var best := First(ReleaseExpired(s, release), ActiveFor(r.sourceId, r.stepId)); best.Some? ==> best.value in s.tasks
  {
    hide First;
  }

  lemma UpsertShape(s: Store, release: Time, now: Time, r: Request, freshId: string)
    requires Indexed(s)
    ensures var s' := Step(s, UpsertEvent(release, now, r, freshId)).store;
      var best := First(ReleaseExpired(s, release), ActiveFor(r.sourceId, r.stepId));
      if best.Some? then s'.order == s.order && s'.tasks.Keys == s.tasks.Keys
      else
        && s'.order == s.order + [freshId] && s'.tasks.Keys == s.tasks.Keys + {freshId}
        && s'.tasks[freshId] == NewTask(freshId, r, now)
  {
    hide First, Updated, NewTask, Released, ActiveFor;
  }

  lemma UpsertWrites(s: Store, release: Time, now: Time, r: Request, freshId: string, id: string)
    requires Valid(s) && freshId !in s.tasks && id in s.tasks
    ensures var s' := Step(s, UpsertEvent(release, now, r, freshId)).store;
      id in s'.tasks && AfterUpsert(s, s'.tasks[id], id, release, now, r)
  {
    ValidIsOrdered(s);
    UpsertPicks(s, release, r);
    UpdatedFields(s.tasks[id], r, release, now);
    FreedExactly(s.tasks[id], release);
    hide Freed, UpdatedFrom, Updated, NewTask, First, Wanted, ActiveFor, Released, Valid, Ordered;
  }

  lemma OnlyOne(s: Store, r: Request, id: string, best: Option<string>)
    requires Valid(s) && id in s.tasks && Unfinished(s.tasks[id]) && ForStep(s.tasks[id], r)
    requires best.Some? && best.value in s.tasks && Unfinished(s.tasks[best.value]) && ForStep(s.tasks[best.value], r)
    ensures best == Some(id)
  {
    assert !Rivals(s, id, best.value);
  }
}
