/**
 The scraper task queue as a state machine on values: one function per operation of the
 store, each given the clock readings it takes.
 */
module ScraperTasks {
  import opened Wrappers

  type Time = real

  datatype Status = Pending | Claimed | Running | Completed | Failed

  datatype Task = Task(
    id: string,
    sourceId: string,
    stepId: string,
    url: string,
    script: string,
    interceptApi: string,
    secretKey: string,
    status: Status,
    attemptCount: nat,
    leaseOwner: Option<string>,
    leaseExpiresAt: Option<Time>,
    createdAt: Time,
    updatedAt: Time,
    completedAt: Option<Time>,
    failedAt: Option<Time>,
    lastError: Option<string>,
    lastAttempt: nat)

  /** A dictionary of tasks; `order` is the insertion order the dictionary iterates in. */
  datatype Store = Store(tasks: map<string, Task>, order: seq<string>)

  const EmptyStore := Store(map[], [])

  predicate Active(t: Task) {
    t.status == Pending || t.status == Claimed || t.status == Running
  }

  predicate Terminal(t: Task) {
    t.status == Completed || t.status == Failed
  }

  predicate Leased(t: Task) {
    t.status == Claimed || t.status == Running
  }

  /** Every listed key has a task. */
  ghost predicate Indexed(s: Store) {
    forall i :: 0 <= i < |s.order| ==> s.order[i] in s.tasks
  }

  /** The keys are listed once each. */
  ghost predicate Ordered(s: Store) {
    && Indexed(s)
    && (forall id :: id in s.tasks ==> id in s.order)
    && (forall i, j :: 0 <= i < j < |s.order| ==> s.order[i] != s.order[j])
  }

  // ---------------------------------------------------------------- leases

  predicate LeaseExpired(t: Task, now: Time) {
    Leased(t) && t.leaseExpiresAt.Some? && t.leaseExpiresAt.value <= now
  }

  function Released(t: Task, now: Time): Task {
    if LeaseExpired(t, now) then t.(status := Pending, leaseOwner := None, leaseExpiresAt := None, updatedAt := now)
    else t
  }

  /** Every task whose lease has run out is pending again. */
  function ReleaseExpired(s: Store, now: Time): Store {
    s.(tasks := map id | id in s.tasks :: Released(s.tasks[id], now))
  }

  /** A lease of at least one second from `now`. */
  function LeaseEnd(now: Time, seconds: int): Time {
    now + (if seconds > 1 then seconds else 1) as real
  }

  /** Another worker holds the task and its lease has not run out. */
  predicate HeldByOther(t: Task, worker: string, now: Time) {
    && t.leaseOwner.Some? && t.leaseOwner.value != worker
    && t.leaseExpiresAt.Some? && t.leaseExpiresAt.value > now
  }

  // ---------------------------------------------------------------- selection

  /** Among the first `k` keys, the position of the task satisfying `p` that was created first; the earlier key wins a tie. */
  function Earliest(s: Store, p: Task -> bool, k: nat): (r: Option<nat>)
    requires k <= |s.order| && Indexed(s)
    ensures r.None? ==> forall i :: 0 <= i < k ==> !p(s.tasks[s.order[i]])
    ensures r.Some? ==> r.value < k && p(s.tasks[s.order[r.value]])
    ensures r.Some? ==> forall i :: 0 <= i < k && p(s.tasks[s.order[i]]) ==>
      var best := s.tasks[s.order[r.value]].createdAt;
      if i < r.value then best < s.tasks[s.order[i]].createdAt else best <= s.tasks[s.order[i]].createdAt
  {
    if k == 0 then None
    else
      var best := Earliest(s, p, k - 1);
      var t := s.tasks[s.order[k - 1]];
      if p(t) && (best.None? || t.createdAt < s.tasks[s.order[best.value]].createdAt) then Some(k - 1)
      else best
  }

  /** The key of the selected task, if there is one. */
  function First(s: Store, p: Task -> bool): (r: Option<string>)
    requires Indexed(s)
    ensures r.Some? ==> r.value in s.tasks && p(s.tasks[r.value])
  {
    match Earliest(s, p, |s.order|)
    case Some(i) => Some(s.order[i])
    case None => None
  }

  /** `r` is a task satisfying `p` that was created first, or there is none. */
  ghost predicate Selects(s: Store, p: Task -> bool, r: Option<string>) {
    match r
    case None => forall id :: id in s.tasks ==> !p(s.tasks[id])
    case Some(best) =>
      && best in s.tasks && p(s.tasks[best])
      && forall id :: id in s.tasks && p(s.tasks[id]) ==> s.tasks[best].createdAt <= s.tasks[id].createdAt
  }

  /** The tasks satisfying `p` under the first `k` keys, in the order of the keys. */
  function Matching(s: Store, p: Task -> bool, k: nat): seq<Task>
    requires k <= |s.order| && Indexed(s)
  {
    if k == 0 then []
    else
      var t := s.tasks[s.order[k - 1]];
      Matching(s, p, k - 1) + if p(t) then [t] else []
  }

  // ---------------------------------------------------------------- sorting by age

  function InsertByAge(ts: seq<Task>, t: Task): seq<Task> {
    if ts == [] || ts[|ts| - 1].createdAt <= t.createdAt then ts + [t]
    else InsertByAge(ts[..|ts| - 1], t) + [ts[|ts| - 1]]
  }

  /** What the library's stable sort returns; `SortIsStable` says that nothing else would do. */
  function SortByAge(ts: seq<Task>): seq<Task> {
    if ts == [] then [] else InsertByAge(SortByAge(ts[..|ts| - 1]), ts[|ts| - 1])
  }

  ghost predicate SortedByAge(ts: seq<Task>) {
    forall i, j :: 0 <= i < j < |ts| ==> ts[i].createdAt <= ts[j].createdAt
  }

  /** The tasks created at one time, in order. */
  ghost function CreatedAt(ts: seq<Task>, c: Time): seq<Task> {
    if ts == [] then []
    else CreatedAt(ts[..|ts| - 1], c) + if ts[|ts| - 1].createdAt == c then [ts[|ts| - 1]] else []
  }

  lemma CreatedAtNext(ts: seq<Task>, t: Task, c: Time)
    ensures CreatedAt(ts + [t], c) == CreatedAt(ts, c) + if t.createdAt == c then [t] else []
  {
    assert (ts + [t])[..|ts|] == ts;
  }

  lemma SortedWithLast(ts: seq<Task>, last: Task)
    requires SortedByAge(ts) && forall i :: 0 <= i < |ts| ==> ts[i].createdAt <= last.createdAt
    ensures SortedByAge(ts + [last])
  {
  }

  lemma InitIsSorted(ts: seq<Task>)
    requires SortedByAge(ts) && ts != []
    ensures SortedByAge(ts[..|ts| - 1])
    ensures forall i :: 0 <= i < |ts| ==> ts[i].createdAt <= ts[|ts| - 1].createdAt
  {
  }

  /** Inserting keeps the order; `bound` is any time not before the tasks. */
  lemma {:induction false} InsertSorts(ts: seq<Task>, t: Task, bound: Time)
    requires SortedByAge(ts) && forall i :: 0 <= i < |ts| ==> ts[i].createdAt <= bound
    requires t.createdAt <= bound
    ensures SortedByAge(InsertByAge(ts, t))
    ensures forall i :: 0 <= i < |InsertByAge(ts, t)| ==> InsertByAge(ts, t)[i].createdAt <= bound
  {
    hide SortedByAge;
    if ts != [] {
      InitIsSorted(ts);
      var init, last := ts[..|ts| - 1], ts[|ts| - 1];
      if last.createdAt > t.createdAt {
        InsertSorts(init, t, last.createdAt);
        SortedWithLast(InsertByAge(init, t), last);
      } else {
        SortedWithLast(ts, t);
      }
    } else {
      SortedWithLast(ts, t);
    }
  }

  lemma {:induction false} InsertIsStable(ts: seq<Task>, t: Task, c: Time)
    requires SortedByAge(ts)
    ensures |InsertByAge(ts, t)| == |ts| + 1
    ensures CreatedAt(InsertByAge(ts, t), c) == CreatedAt(ts + [t], c)
  {
    hide CreatedAt;
    CreatedAtNext(ts, t, c);
    if ts != [] && ts[|ts| - 1].createdAt > t.createdAt {
      var init, last := ts[..|ts| - 1], ts[|ts| - 1];
      InsertIsStable(init, t, c);
      CreatedAtNext(init, t, c);
      CreatedAtNext(InsertByAge(init, t), last, c);
      CreatedAtNext(init, last, c);
      assert init + [last] == ts;
    }
  }

  lemma InsertKeepsSorted(ts: seq<Task>, t: Task)
    requires SortedByAge(ts)
    ensures SortedByAge(InsertByAge(ts, t))
  {
    if ts != [] && ts[|ts| - 1].createdAt > t.createdAt {
      InsertSorts(ts, t, ts[|ts| - 1].createdAt);
    } else {
      InsertSorts(ts, t, t.createdAt);
    }
  }

  /** The result is in order of age, and tasks of the same age keep their order. */
  lemma {:induction false} SortIsStable(ts: seq<Task>, c: Time)
    ensures SortedByAge(SortByAge(ts)) && |SortByAge(ts)| == |ts|
    ensures CreatedAt(SortByAge(ts), c) == CreatedAt(ts, c)
  {
    if ts != [] {
      hide InsertByAge, CreatedAt, SortedByAge;
      var init, last := ts[..|ts| - 1], ts[|ts| - 1];
      assert SortByAge(ts) == InsertByAge(SortByAge(init), last);
      hide SortByAge;
      SortIsStable(init, c);
      InsertIsStable(SortByAge(init), last, c);
      InsertKeepsSorted(SortByAge(init), last);
      CreatedAtNext(SortByAge(init), last, c);
      CreatedAtNext(init, last, c);
      assert init + [last] == ts;
    }
  }

  // ---------------------------------------------------------------- operations

  datatype Outcome = Outcome(store: Store, returned: Option<Task>, changed: bool)

  /** What a step asks to have scraped. */
  datatype Request = Request(
    sourceId: string, stepId: string, url: string, script: Option<string>, interceptApi: Option<string>, secretKey: string)

  function OrElse(text: string, default: string): string {
    if text == "" then default else text
  }

  function TextOr(text: Option<string>): string {
    if text.Some? then text.value else ""
  }

  function NewTask(id: string, r: Request, now: Time): Task {
    Task(id, r.sourceId, r.stepId, r.url, TextOr(r.script), TextOr(r.interceptApi), OrElse(r.secretKey, "webview_data"),
         Pending, 0, None, None, now, now, None, None, None, 0)
  }

  function Updated(t: Task, r: Request, now: Time): Task {
    var u := t.(url := r.url, script := TextOr(r.script), interceptApi := TextOr(r.interceptApi),
                secretKey := OrElse(r.secretKey, "webview_data"), updatedAt := now);
    if u.status == Pending then u.(leaseOwner := None, leaseExpiresAt := None) else u
  }

  function ActiveFor(sourceId: string, stepId: string): Task -> bool {
    (t: Task) => t.sourceId == sourceId && t.stepId == stepId && Active(t)
  }

  function IsPending(): Task -> bool {
    (t: Task) => t.status == Pending
  }

  function Claimant(t: Task, worker: string, seconds: int, now: Time): Task {
    t.(status := Claimed, attemptCount := t.attemptCount + 1, lastAttempt := t.attemptCount + 1,
       leaseOwner := Some(worker), leaseExpiresAt := Some(LeaseEnd(now, seconds)), updatedAt := now,
       failedAt := None, lastError := None)
  }

  function Upsert(s: Store, release: Time, now: Time, r: Request, freshId: string): Outcome
    requires Indexed(s)
  {
    var s1 := ReleaseExpired(s, release);
    match First(s1, ActiveFor(r.sourceId, r.stepId))
    case Some(id) =>
      var u := Updated(s1.tasks[id], r, now);
      Outcome(s1.(tasks := s1.tasks[id := u]), Some(u), true)
    case None =>
      var t := NewTask(freshId, r, now);
      Outcome(Store(s1.tasks[freshId := t], s1.order + [freshId]), Some(t), true)
  }

  function Claim(s: Store, release: Time, now: Time, worker: string, seconds: int): Outcome
    requires Indexed(s)
  {
    var s1 := ReleaseExpired(s, release);
    match First(s1, IsPending())
    case None => Outcome(s1, None, false)
    case Some(id) =>
      var t := Claimant(s1.tasks[id], worker, seconds, now);
      Outcome(s1.(tasks := s1.tasks[id := t]), Some(t), true)
  }

  function Heartbeat(s: Store, now: Time, id: string, worker: string, seconds: int): Outcome {
    if id !in s.tasks then Outcome(s, None, false)
    else
      var t := s.tasks[id];
      if Terminal(t) then Outcome(s, Some(t), false)
      else if HeldByOther(t, worker, now) then Outcome(s, None, false)
      else
        var u := t.(status := Running, leaseOwner := Some(worker),
                    leaseExpiresAt := Some(LeaseEnd(now, seconds)), updatedAt := now);
        Outcome(s.(tasks := s.tasks[id := u]), Some(u), true)
  }

  /** A report is checked against the lease only if it names a worker. */
  predicate Excluded(t: Task, worker: Option<string>, now: Time) {
    worker.Some? && worker.value != "" && HeldByOther(t, worker.value, now)
  }

  predicate Fenced(t: Task, attempt: Option<int>) {
    attempt.Some? && t.attemptCount != attempt.value
  }

  function Complete(s: Store, now: Time, id: string, worker: Option<string>, attempt: Option<int>): Outcome {
    if id !in s.tasks then Outcome(s, None, false)
    else
      var t := s.tasks[id];
      if t.status == Completed || Fenced(t, attempt) then Outcome(s, Some(t), false)
      else if Excluded(t, worker, now) then Outcome(s, None, false)
      else
        var u := t.(status := Completed, leaseOwner := None, leaseExpiresAt := None, updatedAt := now,
                    completedAt := Some(now), lastError := None);
        Outcome(s.(tasks := s.tasks[id := u]), Some(u), true)
  }

  function Fail(s: Store, now: Time, id: string, worker: Option<string>, error: string, attempt: Option<int>): Outcome {
    if id !in s.tasks then Outcome(s, None, false)
    else
      var t := s.tasks[id];
      if Terminal(t) || Fenced(t, attempt) then Outcome(s, Some(t), false)
      else if Excluded(t, worker, now) then Outcome(s, None, false)
      else
        var u := t.(status := Failed, leaseOwner := None, leaseExpiresAt := None, updatedAt := now,
                    failedAt := Some(now), lastError := Some(error));
        Outcome(s.(tasks := s.tasks[id := u]), Some(u), true)
  }

  predicate Cleared(t: Task, sourceId: Option<string>) {
    Active(t) && (sourceId.None? || sourceId.value == "" || t.sourceId == sourceId.value)
  }

  function IsActive(): Task -> bool {
    (t: Task) => Active(t)
  }

  function IsCleared(sourceId: Option<string>): Task -> bool {
    (t: Task) => Cleared(t, sourceId)
  }

  function Without(order: seq<string>, gone: set<string>): (r: seq<string>)
    ensures forall id :: id in r <==> id in order && id !in gone
    ensures (forall i, j :: 0 <= i < j < |order| ==> order[i] != order[j]) ==>
      forall i, j :: 0 <= i < j < |r| ==> r[i] != r[j]
  {
    if order == [] then []
    else if order[0] in gone then Without(order[1..], gone)
    else [order[0]] + Without(order[1..], gone)
  }

  function Clear(s: Store, sourceId: Option<string>): Store {
    var gone := set id | id in s.tasks && Cleared(s.tasks[id], sourceId);
    Store(s.tasks - gone, Without(s.order, gone))
  }

  // ---------------------------------------------------------------- runs

  datatype Event =
    | UpsertEvent(release: Time, now: Time, request: Request, freshId: string)
    | ClaimEvent(release: Time, now: Time, worker: string, seconds: int)
    | HeartbeatEvent(now: Time, id: string, worker: string, seconds: int)
    | CompleteEvent(now: Time, id: string, reporter: Option<string>, attempt: Option<int>)
    | FailEvent(now: Time, id: string, reporter: Option<string>, error: string, attempt: Option<int>)
    | ListEvent(now: Time)
    | ClearEvent(sourceId: Option<string>)

  function Step(s: Store, e: Event): Outcome
    requires Indexed(s)
  {
    match e
    case UpsertEvent(release, now, request, freshId) => Upsert(s, release, now, request, freshId)
    case ClaimEvent(release, now, worker, seconds) => Claim(s, release, now, worker, seconds)
    case HeartbeatEvent(now, id, worker, seconds) => Heartbeat(s, now, id, worker, seconds)
    case CompleteEvent(now, id, reporter, attempt) => Complete(s, now, id, reporter, attempt)
    case FailEvent(now, id, reporter, error, attempt) => Fail(s, now, id, reporter, error, attempt)
    case ListEvent(now) => Outcome(ReleaseExpired(s, now), None, false)
    case ClearEvent(sourceId) => Outcome(Clear(s, sourceId), None, false)
  }

  // ---------------------------------------------------------------- the store invariant

  ghost predicate ValidTask(id: string, t: Task) {
    && t.id == id
    && (Leased(t) <==> t.leaseOwner.Some?)
    && (t.leaseOwner.Some? <==> t.leaseExpiresAt.Some?)
    && t.lastAttempt == t.attemptCount
    && (Active(t) ==> t.completedAt.None? && t.failedAt.None?)
    && (t.status == Failed ==> t.failedAt.Some? && t.completedAt.None?)
    && (t.status == Completed ==> t.completedAt.Some?)
  }

  /** Two tasks for the same step of the same source, both still to be done. */
  ghost predicate Rivals(s: Store, a: string, b: string) {
    && a in s.tasks && b in s.tasks && a != b
    && Active(s.tasks[a]) && Active(s.tasks[b])
    && s.tasks[a].sourceId == s.tasks[b].sourceId && s.tasks[a].stepId == s.tasks[b].stepId
  }

  ghost predicate Valid(s: Store) {
    && Ordered(s)
    && (forall id :: id in s.tasks ==> ValidTask(id, s.tasks[id]))
    && (forall a, b :: !Rivals(s, a, b))
  }

  ghost predicate FreshIn(s: Store, e: Event) {
    e.UpsertEvent? ==> e.freshId !in s.tasks
  }

  lemma ValidIsOrdered(s: Store)
    requires Valid(s)
    ensures Ordered(s)
  {
  }

  lemma SelectsFirst(s: Store, p: Task -> bool)
    requires Ordered(s)
    ensures Selects(s, p, First(s, p))
  {
    forall id | id in s.tasks && p(s.tasks[id])
      ensures First(s, p).Some? && s.tasks[First(s, p).value].createdAt <= s.tasks[id].createdAt
    {
      var i :| 0 <= i < |s.order| && s.order[i] == id;
    }
  }

  /** `r` lists the tasks of these keys that satisfy `p`, each once. */
  ghost predicate Lists(s: Store, p: Task -> bool, keys: seq<string>, r: seq<Task>) {
    && (forall id :: id in keys && id in s.tasks && p(s.tasks[id]) ==> s.tasks[id] in r)
    && (forall t :: t in r ==> p(t) && t.id in keys && t.id in s.tasks && s.tasks[t.id] == t)
    && (forall i, j :: 0 <= i < j < |r| ==> r[i].id != r[j].id)
  }

  lemma ListsNext(s: Store, p: Task -> bool, keys: seq<string>, id: string, r: seq<Task>)
    requires Lists(s, p, keys, r) && id in s.tasks && s.tasks[id].id == id && id !in keys
    ensures Lists(s, p, keys + [id], r + if p(s.tasks[id]) then [s.tasks[id]] else [])
  {
    var r' := r + if p(s.tasks[id]) then [s.tasks[id]] else [];
    forall i, j | 0 <= i < j < |r'| ensures r'[i].id != r'[j].id {
      assert r'[i] == r[i] && r[i] in r;
    }
  }

  lemma MatchingNext(s: Store, p: Task -> bool, k: nat)
    requires Indexed(s) && 0 < k <= |s.order|
    ensures var id := s.order[k - 1];
      && s.order[..k] == s.order[..k - 1] + [id] && id in s.tasks
      && Matching(s, p, k) == Matching(s, p, k - 1) + if p(s.tasks[id]) then [s.tasks[id]] else []
  {
  }

  /** In a valid store the matching tasks are listed, and each is listed once. */
  lemma {:induction false} MatchingExactly(s: Store, p: Task -> bool, k: nat)
    requires Valid(s) && k <= |s.order|
    ensures Lists(s, p, s.order[..k], Matching(s, p, k))
  {
    hide *;
    ValidIsIndexed(s);
    if k > 0 {
      MatchingExactly(s, p, k - 1);
      MatchingNext(s, p, k);
      KeyIsNew(s, k - 1);
      ListsNext(s, p, s.order[..k - 1], s.order[k - 1], Matching(s, p, k - 1));
    } else {
      NoneMatching(s, p);
    }
  }

  lemma ValidIsIndexed(s: Store)
    requires Valid(s)
    ensures Indexed(s)
  {
  }

  lemma NoneMatching(s: Store, p: Task -> bool)
    requires Indexed(s)
    ensures Lists(s, p, s.order[..0], Matching(s, p, 0))
  {
  }

  lemma KeyIsNew(s: Store, k: nat)
    requires Valid(s) && k < |s.order|
    ensures s.order[k] in s.tasks && s.tasks[s.order[k]].id == s.order[k] && s.order[k] !in s.order[..k]
  {
  }

  /** Replacing a task by one that differs neither in its key nor in being a rival keeps the store valid. */
  lemma ReplaceKeepsValid(s: Store, id: string, t: Task)
    requires Valid(s) && id in s.tasks && ValidTask(id, t)
    requires t.sourceId == s.tasks[id].sourceId && t.stepId == s.tasks[id].stepId
    requires Active(t) ==> Active(s.tasks[id])
    ensures Valid(s.(tasks := s.tasks[id := t]))
  {
    var s' := s.(tasks := s.tasks[id := t]);
    forall a, b ensures !Rivals(s', a, b) {
      assert !Rivals(s, a, b);
    }
  }

  lemma ReleasedIsValid(id: string, t: Task, now: Time)
    requires ValidTask(id, t)
    ensures ValidTask(id, Released(t, now))
    ensures Active(Released(t, now)) == Active(t)
    ensures Released(t, now).sourceId == t.sourceId && Released(t, now).stepId == t.stepId
  {
  }

  lemma ReleaseKeepsValid(s: Store, now: Time)
    requires Valid(s)
    ensures Valid(ReleaseExpired(s, now))
  {
    hide Released, ValidTask, Active;
    var s' := ReleaseExpired(s, now);
    forall id | id in s.tasks
      ensures ValidTask(id, s'.tasks[id]) && Active(s'.tasks[id]) == Active(s.tasks[id])
      ensures s'.tasks[id].sourceId == s.tasks[id].sourceId && s'.tasks[id].stepId == s.tasks[id].stepId
    {
      ReleasedIsValid(id, s.tasks[id], now);
    }
    forall a, b ensures !Rivals(s', a, b) {
      assert !Rivals(s, a, b);
    }
  }

  lemma InsertKeepsValid(s: Store, id: string, t: Task)
    requires Valid(s) && id !in s.tasks && ValidTask(id, t)
    requires forall k :: k in s.tasks ==> !ActiveFor(t.sourceId, t.stepId)(s.tasks[k])
    ensures Valid(Store(s.tasks[id := t], s.order + [id]))
  {
    var s' := Store(s.tasks[id := t], s.order + [id]);
    assert s'.order[|s.order|] == id;
    forall k | k in s'.tasks ensures k in s'.order {
      if k != id {
        var i :| 0 <= i < |s.order| && s.order[i] == k;
        assert s'.order[i] == k;
      }
    }
    forall a, b ensures !Rivals(s', a, b) {
      assert !Rivals(s, a, b);
    }
  }

  lemma UpsertKeepsValid(s: Store, e: Event)
    requires Valid(s) && FreshIn(s, e) && e.UpsertEvent?
    ensures Valid(Step(s, e).store)
  {
    ReleaseKeepsValid(s, e.release);
    var s1 := ReleaseExpired(s, e.release);
    var p := ActiveFor(e.request.sourceId, e.request.stepId);
    SelectsFirst(s1, p);
    var best := First(s1, p);
    if best.Some? {
      ReplaceKeepsValid(s1, best.value, Updated(s1.tasks[best.value], e.request, e.now));
    } else {
      InsertKeepsValid(s1, e.freshId, NewTask(e.freshId, e.request, e.now));
    }
  }

  lemma ClearKeepsValid(s: Store, sourceId: Option<string>)
    requires Valid(s)
    ensures Valid(Clear(s, sourceId))
  {
    var s' := Clear(s, sourceId);
    forall i | 0 <= i < |s'.order| ensures s'.order[i] in s'.tasks {
      assert s'.order[i] in s'.order;
    }
    forall a, b ensures !Rivals(s', a, b) {
      assert !Rivals(s, a, b);
    }
  }

  lemma ClaimKeepsValid(s: Store, e: Event)
    requires Valid(s) && e.ClaimEvent?
    ensures Valid(Step(s, e).store)
  {
    ReleaseKeepsValid(s, e.release);
    var s1 := ReleaseExpired(s, e.release);
    var best := First(s1, IsPending());
    if best.Some? {
      ReplaceKeepsValid(s1, best.value, Claimant(s1.tasks[best.value], e.worker, e.seconds, e.now));
    }
  }

  lemma ReportKeepsValid(s: Store, e: Event, id: string)
    requires Valid(s) && (e.HeartbeatEvent? || e.CompleteEvent? || e.FailEvent?) && e.id == id
    ensures Valid(Step(s, e).store)
  {
    hide Fenced, Excluded, HeldByOther, Rivals;
    if id in s.tasks && Step(s, e).changed {
      ReplaceKeepsValid(s, id, Step(s, e).returned.value);
    }
  }

  /** Every operation keeps the store invariant. */
  lemma StepKeepsValid(s: Store, e: Event)
    requires Valid(s) && FreshIn(s, e)
    ensures Valid(Step(s, e).store)
  {
    hide Valid;
    match e {
      case UpsertEvent(_, _, _, _) =>
        UpsertKeepsValid(s, e);
      case ClaimEvent(_, _, _, _) =>
        ClaimKeepsValid(s, e);
      case ListEvent(now) =>
        ReleaseKeepsValid(s, now);
      case ClearEvent(sourceId) =>
        ClearKeepsValid(s, sourceId);
      case HeartbeatEvent(_, id, _, _) =>
        ReportKeepsValid(s, e, id);
      case CompleteEvent(_, id, _, _) =>
        ReportKeepsValid(s, e, id);
      case FailEvent(_, id, _, _, _) =>
        ReportKeepsValid(s, e, id);
    }
  }
}
