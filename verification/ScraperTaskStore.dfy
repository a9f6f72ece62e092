/**
 The store as the program has it: an object whose operations change task records in place
 under one lock. Each operation is its function on values; the ghost trace records the run.
 */
module ScraperTaskStore {
  import opened Wrappers
  import opened ScraperTasks
  import ScraperTaskRuns

  /** The tasks when the leases of the keys in `done` have been looked at. */
  ghost function PartlyReleased(tasks: map<string, Task>, done: seq<string>, now: Time): map<string, Task> {
    map id | id in tasks :: if id in done then Released(tasks[id], now) else tasks[id]
  }

  lemma PartlyReleasedNext(tasks: map<string, Task>, order: seq<string>, i: nat, now: Time)
    requires Ordered(Store(tasks, order)) && i < |order|
    ensures var before := PartlyReleased(tasks, order[..i], now);
      && order[i] in before && before[order[i]] == tasks[order[i]]
      && PartlyReleased(tasks, order[..i + 1], now) == before[order[i] := Released(tasks[order[i]], now)]
  {
    hide Released;
    assert order[..i + 1] == order[..i] + [order[i]];
    assert order[i] !in order[..i];
  }

  ghost function KeysOf(tasks: map<string, Task>, keys: seq<string>, p: Task -> bool): set<string> {
    set id | id in keys && id in tasks && p(tasks[id])
  }

  lemma KeysOfNext(tasks: map<string, Task>, order: seq<string>, i: nat, p: Task -> bool)
    requires i < |order| && order[i] in tasks
    ensures KeysOf(tasks, order[..i + 1], p) == KeysOf(tasks, order[..i], p) + if p(tasks[order[i]]) then {order[i]} else {}
  {
    assert order[..i + 1] == order[..i] + [order[i]];
  }

  /** All keys of an ordered store together, and none of them. */
  lemma OrderedKeys(s: Store, p: Task -> bool)
    requires Ordered(s)
    ensures KeysOf(s.tasks, s.order[..0], p) == {}
    ensures KeysOf(s.tasks, s.order, p) == set id | id in s.tasks && p(s.tasks[id])
    ensures Indexed(s)
  {
  }

  class TaskStore {
    var tasksById: map<string, Task>
    var order: seq<string>
    ghost var trace: seq<Event>

    ghost function Model(): Store
      reads this
    {
      Store(tasksById, order)
    }

    ghost predicate Valid()
      reads this
    {
      && ScraperTaskRuns.FreshRun(trace)
      && ScraperTasks.Valid(Model())
      && Model() == ScraperTaskRuns.After(trace)
    }

    constructor ()
      ensures Valid() && trace == [] && Model() == EmptyStore
    {
      tasksById, order, trace := map[], [], [];
    }

    /** The loop over all tasks that returns expired leases. */
    method ReleaseExpiredLeasesLocked(now: Time)
      requires ScraperTasks.Valid(Model())
      modifies this`tasksById
      ensures Model() == ReleaseExpired(old(Model()), now)
    {
      ValidIsOrdered(Model());
      hide ScraperTasks.Valid;
      ghost var before := tasksById;
      var i := 0;
      assert tasksById == PartlyReleased(before, order[..0], now);
      while i < |order|
        invariant 0 <= i <= |order|
        invariant tasksById == PartlyReleased(before, order[..i], now)
      {
        PartlyReleasedNext(before, order, i, now);
        var id := order[i];
        var task := tasksById[id];
        if LeaseExpired(task, now) {
          task := task.(status := Pending, leaseOwner := None, leaseExpiresAt := None, updatedAt := now);
          tasksById := tasksById[id := task];
        }
        i := i + 1;
      }
      assert order[..i] == order;
    }

    method MarkClaimed(id: string, now: Time, workerId: string, leaseSeconds: int) returns (task: Task)
      requires id in tasksById
      modifies this`tasksById
      ensures task == Claimant(old(tasksById)[id], workerId, leaseSeconds, now)
      ensures tasksById == old(tasksById)[id := task]
    {
      task := tasksById[id];
      task := task.(status := Claimed, attemptCount := task.attemptCount + 1);
      task := task.(lastAttempt := task.attemptCount, leaseOwner := Some(workerId));
      task := task.(leaseExpiresAt := Some(LeaseEnd(now, leaseSeconds)), updatedAt := now, failedAt := None, lastError := None);
      tasksById := tasksById[id := task];
    }

    method UpsertPendingTask(release: Time, now: Time, request: Request, freshId: string) returns (task: Task)
      requires Valid() && freshId !in ScraperTaskRuns.Created(trace)
      modifies this
      ensures Valid()
      ensures var e := UpsertEvent(release, now, request, freshId);
        && trace == old(trace) + [e]
        && Model() == Step(old(Model()), e).store
        && Some(task) == Step(old(Model()), e).returned
    {
      hide ScraperTaskRuns.After, ScraperTaskRuns.FreshRun, ScraperTaskRuns.Created, ScraperTasks.Valid;
      ghost var e := UpsertEvent(release, now, request, freshId);
      ScraperTaskRuns.KeysWereCreated(trace);
      ScraperTaskRuns.RunExtends(trace, e);
      ReleaseKeepsValid(Model(), release);
      ValidIsOrdered(ReleaseExpired(Model(), release));
      ReleaseExpiredLeasesLocked(release);
      var existing := First(Store(tasksById, order), ActiveFor(request.sourceId, request.stepId));
      if existing.Some? {
        task := tasksById[existing.value];
        task := task.(url := request.url, script := TextOr(request.script),
                      interceptApi := TextOr(request.interceptApi),
                      secretKey := OrElse(request.secretKey, "webview_data"));
        if task.status == Pending {
          task := task.(leaseOwner := None, leaseExpiresAt := None);
        }
        task := task.(updatedAt := now);
        tasksById := tasksById[existing.value := task];
      } else {
        task := NewTask(freshId, request, now);
        tasksById := tasksById[freshId := task];
        order := order + [freshId];
      }
      trace := trace + [e];
    }

    method ClaimNextTask(release: Time, now: Time, workerId: string, leaseSeconds: int) returns (claimed: Option<Task>)
      requires Valid()
      modifies this
      ensures Valid()
      ensures var e := ClaimEvent(release, now, workerId, leaseSeconds);
        && trace == old(trace) + [e]
        && Model() == Step(old(Model()), e).store
        && claimed == Step(old(Model()), e).returned
    {
      hide ScraperTaskRuns.After, ScraperTaskRuns.FreshRun, ScraperTaskRuns.Created, ScraperTasks.Valid;
      ghost var e := ClaimEvent(release, now, workerId, leaseSeconds);
      ScraperTaskRuns.RunExtends(trace, e);
      ReleaseKeepsValid(Model(), release);
      ValidIsOrdered(ReleaseExpired(Model(), release));
      hide ReleaseExpired, First, Claimant;
      ReleaseExpiredLeasesLocked(release);
      var pending := First(Store(tasksById, order), IsPending());
      claimed := None;
      if pending.Some? {
        var task := MarkClaimed(pending.value, now, workerId, leaseSeconds);
        claimed := Some(task);
      }
      trace := trace + [e];
    }

    method HeartbeatTask(now: Time, taskId: string, workerId: string, leaseSeconds: int) returns (task: Option<Task>)
      requires Valid()
      modifies this
      ensures Valid()
      ensures var e := HeartbeatEvent(now, taskId, workerId, leaseSeconds);
        && trace == old(trace) + [e]
        && Model() == Step(old(Model()), e).store
        && task == Step(old(Model()), e).returned
    {
      hide ScraperTaskRuns.After, ScraperTaskRuns.FreshRun, ScraperTaskRuns.Created, ScraperTasks.Valid;
      ghost var e := HeartbeatEvent(now, taskId, workerId, leaseSeconds);
      ScraperTaskRuns.RunExtends(trace, e);
      trace := trace + [e];
      if taskId !in tasksById {
        return None;
      }
      var t := tasksById[taskId];
      if Terminal(t) {
        return Some(t);
      }
      var hasValidForeignLease :=
        t.leaseOwner.Some? && t.leaseOwner.value != workerId && t.leaseExpiresAt.Some? && t.leaseExpiresAt.value > now;
      if hasValidForeignLease {
        return None;
      }
      t := t.(status := Running, leaseOwner := Some(workerId));
      t := t.(leaseExpiresAt := Some(LeaseEnd(now, leaseSeconds)), updatedAt := now);
      tasksById := tasksById[taskId := t];
      return Some(t);
    }

    method CompleteTask(now: Time, taskId: string, workerId: Option<string>, attempt: Option<int>)
      returns (task: Option<Task>, changed: bool)
      requires Valid()
      modifies this
      ensures Valid()
      ensures var e := CompleteEvent(now, taskId, workerId, attempt);
        && trace == old(trace) + [e]
        && Model() == Step(old(Model()), e).store
        && task == Step(old(Model()), e).returned && changed == Step(old(Model()), e).changed
    {
      hide ScraperTaskRuns.After, ScraperTaskRuns.FreshRun, ScraperTaskRuns.Created, ScraperTasks.Valid;
      ghost var e := CompleteEvent(now, taskId, workerId, attempt);
      ScraperTaskRuns.RunExtends(trace, e);
      trace := trace + [e];
      if taskId !in tasksById {
        return None, false;
      }
      var t := tasksById[taskId];
      if t.status == Completed {
        return Some(t), false;
      }
      if attempt.Some? && t.attemptCount != attempt.value {
        return Some(t), false;
      }
      if workerId.Some? && workerId.value != "" && t.leaseOwner.Some? && t.leaseOwner.value != workerId.value {
        if t.leaseExpiresAt.Some? && t.leaseExpiresAt.value > now {
          return None, false;
        }
      }
      t := t.(status := Completed, leaseOwner := None, leaseExpiresAt := None);
      t := t.(updatedAt := now, completedAt := Some(now), lastError := None);
      tasksById := tasksById[taskId := t];
      return Some(t), true;
    }

    method FailTask(now: Time, taskId: string, workerId: Option<string>, error: string, attempt: Option<int>)
      returns (task: Option<Task>, changed: bool)
      requires Valid()
      modifies this
      ensures Valid()
      ensures var e := FailEvent(now, taskId, workerId, error, attempt);
        && trace == old(trace) + [e]
        && Model() == Step(old(Model()), e).store
        && task == Step(old(Model()), e).returned && changed == Step(old(Model()), e).changed
    {
      hide ScraperTaskRuns.After, ScraperTaskRuns.FreshRun, ScraperTaskRuns.Created, ScraperTasks.Valid;
      ghost var e := FailEvent(now, taskId, workerId, error, attempt);
      ScraperTaskRuns.RunExtends(trace, e);
      trace := trace + [e];
      if taskId !in tasksById {
        return None, false;
      }
      var t := tasksById[taskId];
      if t.status == Failed || t.status == Completed {
        return Some(t), false;
      }
      if attempt.Some? && t.attemptCount != attempt.value {
        return Some(t), false;
      }
      if workerId.Some? && workerId.value != "" && t.leaseOwner.Some? && t.leaseOwner.value != workerId.value {
        if t.leaseExpiresAt.Some? && t.leaseExpiresAt.value > now {
          return None, false;
        }
      }
      t := t.(status := Failed, leaseOwner := None, leaseExpiresAt := None);
      t := t.(updatedAt := now, failedAt := Some(now), lastError := Some(error));
      tasksById := tasksById[taskId := t];
      return Some(t), true;
    }

    /** Removes the active tasks of one source, or of all, and returns their last records in order. */
    method ClearActiveTasks(sourceId: Option<string>) returns (removed: seq<Task>)
      requires Valid()
      modifies this
      ensures Valid()
      ensures trace == old(trace) + [ClearEvent(sourceId)]
      ensures Model() == Clear(old(Model()), sourceId)
      ensures removed == Matching(old(Model()), IsCleared(sourceId), |old(order)|)
    {
      hide ScraperTaskRuns.After, ScraperTaskRuns.FreshRun, ScraperTaskRuns.Created, ScraperTasks.Valid, Cleared;
      ghost var e := ClearEvent(sourceId);
      ScraperTaskRuns.RunExtends(trace, e);
      ValidIsOrdered(Model());
      var gone;
      removed, gone := CollectCleared(sourceId);
      tasksById := tasksById - gone;
      order := Without(order, gone);
      trace := trace + [e];
    }

    /** The loop that looks for the tasks to remove. */
    method CollectCleared(sourceId: Option<string>) returns (removed: seq<Task>, gone: set<string>)
      requires Ordered(Model())
      ensures removed == Matching(Model(), IsCleared(sourceId), |order|)
      ensures gone == set id | id in tasksById && Cleared(tasksById[id], sourceId)
    {
      hide Cleared, Ordered, KeysOf;
      ghost var p := IsCleared(sourceId);
      OrderedKeys(Model(), p);
      removed, gone := [], {};
      for i := 0 to |order|
        invariant gone == KeysOf(tasksById, order[..i], p)
        invariant removed == Matching(Model(), p, i)
      {
        var task := tasksById[order[i]];
        KeysOfNext(tasksById, order, i, p);
        if Cleared(task, sourceId) {
          removed := removed + [task];
          gone := gone + {order[i]};
        }
      }
      assert order[..|order|] == order;
    }

    /** The loop that looks for the active tasks. */
    method CollectActive() returns (active: seq<Task>)
      requires Ordered(Model())
      ensures active == Matching(Model(), IsActive(), |order|)
    {
      hide Active;
      active := [];
      for i := 0 to |order|
        invariant active == Matching(Model(), IsActive(), i)
      {
        if Active(tasksById[order[i]]) {
          active := active + [tasksById[order[i]]];
        }
      }
    }

    /** Listing the active tasks, oldest first, also returns expired leases. */
    method ListActiveTasks(now: Time) returns (active: seq<Task>)
      requires Valid()
      modifies this
      ensures Valid()
      ensures trace == old(trace) + [ListEvent(now)]
      ensures Model() == ReleaseExpired(old(Model()), now)
      ensures active == SortByAge(Matching(Model(), IsActive(), |order|))
    {
      hide ScraperTaskRuns.After, ScraperTaskRuns.FreshRun, ScraperTaskRuns.Created, ScraperTasks.Valid, Active;
      ghost var e := ListEvent(now);
      ScraperTaskRuns.RunExtends(trace, e);
      ReleaseExpiredLeasesLocked(now);
      ValidIsOrdered(Model());
      hide Ordered, ReleaseExpired, Matching, SortByAge, IsActive;
      active := CollectActive();
      active := SortByAge(active);
      trace := trace + [e];
    }
  }
}
