/**
 The scraper's log limiter: repeated lines are dropped, a burst kills the task's log, and the
 tables it keeps per task stay bounded. Times are milliseconds.
 */
module LogControl {
  import opened Wrappers

  const MAX_CONSECUTIVE_DUPLICATE_LOGS := 3
  const LOG_BURST_WINDOW_MS := 2_000
  const LOG_BURST_LIMIT := 180
  const MAX_TRACKED_TASKS := 256
  const MAX_ERROR_LOGS_PER_SOURCE := 80

  datatype Log = Log(sourceId: string, taskId: string, stage: string, level: string, message: string)

  datatype Window = Window(startMs: nat, count: nat)

  datatype Decision = Emit | Drop | Kill(count: nat)

  datatype Control = Control(
    lastKey: map<string, string>, streak: map<string, nat>, window: map<string, Window>, killed: set<string>)

  const Empty := Control(map[], map[], map[], {})

  function KeyOf(log: Log): string {
    log.sourceId + "|" + log.stage + "|" + log.level + "|" + log.message
  }

  // ---------------------------------------------------------------- one task

  /** What the tables say about one task. */
  datatype View = View(lastKey: Option<string>, streak: nat, window: Window, killed: bool)

  /** The window after one more line: it starts anew if none was open, or the old one is over. */
  function CountLine(w: Window, now: nat): Window {
    if w.startMs == 0 || now - w.startMs > LOG_BURST_WINDOW_MS then Window(now, 1) else Window(w.startMs, w.count + 1)
  }

  function Streak(v: View, key: string): nat {
    if v.lastKey == Some(key) then v.streak + 1 else 0
  }

  /** One line of a task whose log is still alive. */
  function ViewAfter(v: View, key: string, now: nat, limited: bool): View {
    var w := CountLine(v.window, now);
    View(Some(key), Streak(v, key), w, limited && w.count > LOG_BURST_LIMIT)
  }

  function Decide(v: View, key: string, now: nat, limited: bool): Decision {
    var w := CountLine(v.window, now);
    if limited && w.count > LOG_BURST_LIMIT then Kill(w.count)
    else if Streak(v, key) >= MAX_CONSECUTIVE_DUPLICATE_LOGS then Drop
    else Emit
  }

  // ---------------------------------------------------------------- all tasks

  predicate SameKeys(c: Control) {
    c.lastKey.Keys == c.streak.Keys == c.window.Keys
  }

  function ViewOf(c: Control, id: string): View {
    View(
      if id in c.lastKey then Some(c.lastKey[id]) else None,
      if id in c.streak then c.streak[id] else 0,
      if id in c.window then c.window[id] else Window(0, 0),
      id in c.killed)
  }

  /** Tables that grew beyond the limit are emptied before a line is judged. */
  function Evict(c: Control): Control {
    var c1 := if |c.killed| > MAX_TRACKED_TASKS then c.(killed := {}) else c;
    if |c1.lastKey| > MAX_TRACKED_TASKS then c1.(lastKey := map[], streak := map[], window := map[]) else c1
  }

  predicate Limited(id: string) {
    id != "unknown"
  }

  function Evaluate(c: Control, log: Log, now: nat): (Control, Decision) {
    var c1 := Evict(c);
    var id := log.taskId;
    if id == "" then (c1, Emit)
    else if id in c1.killed then (c1, Drop)
    else
      var v := ViewAfter(ViewOf(c1, id), KeyOf(log), now, Limited(id));
      (Control(c1.lastKey[id := v.lastKey.value], c1.streak[id := v.streak], c1.window[id := v.window],
               if v.killed then c1.killed + {id} else c1.killed),
       Decide(ViewOf(c1, id), KeyOf(log), now, Limited(id)))
  }

  function Cleanup(c: Control, id: string): Control {
    c.(lastKey := c.lastKey - {id}, streak := c.streak - {id}, window := c.window - {id})
  }

  // ---------------------------------------------------------------- the tables stay bounded

  ghost predicate Bounded(c: Control) {
    && SameKeys(c) && "" !in c.lastKey && "" !in c.killed
    && |c.lastKey| <= MAX_TRACKED_TASKS + 1 && |c.killed| <= MAX_TRACKED_TASKS + 1
  }

  lemma SizeOfAdded(keys: set<string>, id: string)
    ensures |keys + {id}| <= |keys| + 1
  {
    if id in keys {
      assert keys + {id} == keys;
    }
  }

  lemma EvictedIsBounded(c: Control)
    requires Bounded(c)
    ensures var c1 := Evict(c);
      && SameKeys(c1) && "" !in c1.lastKey && "" !in c1.killed
      && |c1.lastKey.Keys| <= MAX_TRACKED_TASKS && |c1.killed| <= MAX_TRACKED_TASKS
  {
    var c1 := Evict(c);
    assert |c1.lastKey.Keys| == |c1.lastKey|;
  }

  lemma LineKeepsBounded(c: Control, id: string, key: string, streak: nat, window: Window, kill: bool)
    requires SameKeys(c) && "" !in c.lastKey && "" !in c.killed && id != ""
    requires |c.lastKey.Keys| <= MAX_TRACKED_TASKS && |c.killed| <= MAX_TRACKED_TASKS
    ensures Bounded(Control(c.lastKey[id := key], c.streak[id := streak], c.window[id := window],
                            if kill then c.killed + {id} else c.killed))
  {
    SizeOfAdded(c.lastKey.Keys, id);
    SizeOfAdded(c.killed, id);
    var m := c.lastKey[id := key];
    assert m.Keys == c.lastKey.Keys + {id} && |m| == |m.Keys|;
  }

  /** The three tables always have the same keys, at most 257 of them, whatever is logged or cleaned up. */
  lemma EvaluateKeepsBounded(c: Control, log: Log, now: nat)
    requires Bounded(c)
    ensures Bounded(Evaluate(c, log, now).0)
  {
    hide KeyOf, Evict, Decide, ViewOf;
    var c1, id := Evict(c), log.taskId;
    EvictedIsBounded(c);
    if id != "" && id !in c1.killed {
      var v := ViewAfter(ViewOf(c1, id), KeyOf(log), now, Limited(id));
      LineKeepsBounded(c1, id, v.lastKey.value, v.streak, v.window, v.killed);
    } else {
      assert |c1.lastKey| == |c1.lastKey.Keys|;
    }
  }

  lemma CleanupKeepsBounded(c: Control, id: string)
    requires Bounded(c)
    ensures Bounded(Cleanup(c, id))
  {
    var c' := Cleanup(c, id);
    assert c'.lastKey.Keys == c.lastKey.Keys - {id};
    assert |c'.lastKey.Keys| <= |c.lastKey.Keys|;
    assert |c'.lastKey| == |c'.lastKey.Keys| && |c.lastKey| == |c.lastKey.Keys|;
  }

  // ---------------------------------------------------------------- the limiter as an object

  class LogControlState {
    var lastKeyByTask: map<string, string>
    var duplicateStreakByTask: map<string, nat>
    var burstWindowByTask: map<string, Window>
    var killedTasks: set<string>

    ghost function Model(): Control
      reads this
    {
      Control(lastKeyByTask, duplicateStreakByTask, burstWindowByTask, killedTasks)
    }

    constructor ()
      ensures Model() == Empty && Bounded(Model())
    {
      lastKeyByTask, duplicateStreakByTask, burstWindowByTask, killedTasks := map[], map[], map[], {};
    }

    method EvictIfFull()
      modifies this
      ensures Model() == Evict(old(Model()))
    {
      if |killedTasks| > MAX_TRACKED_TASKS {
        killedTasks := {};
      }
      if |lastKeyByTask| > MAX_TRACKED_TASKS {
        lastKeyByTask := map[];
        duplicateStreakByTask := map[];
        burstWindowByTask := map[];
      }
    }

    /** The streak of equal lines: from the fourth one on, the line is to be dropped. */
    method CountDuplicate(id: string, key: string) returns (shouldDrop: bool)
      modifies this`lastKeyByTask, this`duplicateStreakByTask
      ensures var streak := Streak(old(ViewOf(Model(), id)), key);
        && shouldDrop == (streak >= MAX_CONSECUTIVE_DUPLICATE_LOGS)
        && lastKeyByTask == old(lastKeyByTask)[id := key]
        && duplicateStreakByTask == old(duplicateStreakByTask)[id := streak]
    {
      shouldDrop := false;
      if id in lastKeyByTask && lastKeyByTask[id] == key {
        var streak := (if id in duplicateStreakByTask then duplicateStreakByTask[id] else 0) + 1;
        duplicateStreakByTask := duplicateStreakByTask[id := streak];
        if streak >= MAX_CONSECUTIVE_DUPLICATE_LOGS {
          shouldDrop := true;
        }
        assert lastKeyByTask == lastKeyByTask[id := key];
      } else {
        lastKeyByTask := lastKeyByTask[id := key];
        duplicateStreakByTask := duplicateStreakByTask[id := 0];
      }
    }

    method CountBurst(id: string, now: nat) returns (window: Window)
      modifies this`burstWindowByTask
      ensures window == CountLine(old(ViewOf(Model(), id)).window, now)
      ensures burstWindowByTask == old(burstWindowByTask)[id := window]
    {
      window := if id in burstWindowByTask then burstWindowByTask[id] else Window(0, 0);
      if window.startMs == 0 || now - window.startMs > LOG_BURST_WINDOW_MS {
        window := Window(now, 0);
      }
      window := window.(count := window.count + 1);
      burstWindowByTask := burstWindowByTask[id := window];
    }

    method EvaluateLog(log: Log, now: nat) returns (decision: Decision)
      requires Bounded(Model())
      modifies this
      ensures Bounded(Model())
      ensures (Model(), decision) == Evaluate(old(Model()), log, now)
    {
      hide KeyOf, Bounded, Evict, Streak, CountLine;
      EvaluateKeepsBounded(Model(), log, now);
      EvictIfFull();
      var id := log.taskId;
      if id == "" {
        return Emit;
      }
      if id in killedTasks {
        return Drop;
      }
      ghost var before := Model();
      var shouldDrop := CountDuplicate(id, KeyOf(log));
      assert ViewOf(Model(), id).window == ViewOf(before, id).window;
      var window := CountBurst(id, now);
      hide ViewOf;
      if id != "unknown" && window.count > LOG_BURST_LIMIT {
        killedTasks := killedTasks + {id};
        return Kill(window.count);
      }
      if shouldDrop {
        return Drop;
      }
      return Emit;
    }

    method CleanupTask(id: string)
      requires Bounded(Model())
      modifies this
      ensures Bounded(Model()) && Model() == Cleanup(old(Model()), id)
    {
      CleanupKeepsBounded(Model(), id);
      lastKeyByTask := lastKeyByTask - {id};
      duplicateStreakByTask := duplicateStreakByTask - {id};
      burstWindowByTask := burstWindowByTask - {id};
    }
  }

  // ---------------------------------------------------------------- runs of one task

  /** A line of a task: its key and when it came. */
  datatype Line = Line(key: string, now: nat)

  /**
   What a call means for one task: it may be taken off the killed list, its last key, streak
   and window may be forgotten, and then one of its lines may be judged.
   */
  datatype Moment = Moment(forgiven: bool, forgotten: bool, line: Option<Line>)

  const NewView := View(None, 0, Window(0, 0), false)

  function Restored(v: View, m: Moment): View {
    var w := if m.forgotten then NewView.(killed := v.killed) else v;
    w.(killed := w.killed && !m.forgiven)
  }

  function Step(v: View, m: Moment): View {
    var w := Restored(v, m);
    if m.line.None? || w.killed then w else ViewAfter(w, m.line.value.key, m.line.value.now, true)
  }

  function Emits(v: View, m: Moment): nat {
    var w := Restored(v, m);
    if m.line.Some? && !w.killed && Decide(w, m.line.value.key, m.line.value.now, true).Emit? then 1 else 0
  }

  /** How many of the lines are emitted. */
  function Emitted(v: View, moments: seq<Moment>): nat
    decreases |moments|
  {
    if moments == [] then 0 else Emits(v, moments[0]) + Emitted(Step(v, moments[0]), moments[1..])
  }

  /** How often the task is forgotten. */
  function Forgets(moments: seq<Moment>): nat {
    if moments == [] then 0 else (if moments[0].forgotten then 1 else 0) + Forgets(moments[1..])
  }

  ghost predicate Within(moments: seq<Moment>, from: nat, to: nat) {
    forall i :: 0 <= i < |moments| && moments[i].line.Some? ==> from <= moments[i].line.value.now <= to
  }

  /** The budget of the window that is open, and of another one if that window can still end. */
  function Budget(v: View, from: nat): nat {
    if v.window.startMs == 0 then LOG_BURST_LIMIT
    else
      (if v.window.count >= LOG_BURST_LIMIT then 0 else LOG_BURST_LIMIT - v.window.count) +
      if v.window.startMs < from then LOG_BURST_LIMIT else 0
  }

  lemma RestoredBudget(v: View, m: Moment, from: nat)
    ensures Budget(Restored(v, m), from) <= if m.forgotten then LOG_BURST_LIMIT else Budget(v, from)
  {
  }

  lemma LineSpends(w: View, line: Line, from: nat)
    requires 0 < from <= line.now <= from + LOG_BURST_WINDOW_MS && !w.killed
    ensures var m := Moment(false, false, Some(line));
      Emits(w, m) + Budget(Step(w, m), from) <= Budget(w, from)
  {
  }

  lemma MomentSpends(v: View, m: Moment, from: nat)
    requires 0 < from && (m.line.Some? ==> from <= m.line.value.now <= from + LOG_BURST_WINDOW_MS)
    ensures Emits(v, m) + Budget(Step(v, m), from) <= Budget(v, from) + if m.forgotten then LOG_BURST_LIMIT else 0
  {
    hide Budget, ViewAfter, Decide;
    var w := Restored(v, m);
    RestoredBudget(v, m, from);
    if m.line.Some? && !w.killed {
      LineSpends(w, m.line.value, from);
    }
  }

  /** Within 2000 ms a window can end at most once; being taken off the killed list gives nothing back. */
  lemma {:induction false} WindowBound(v: View, moments: seq<Moment>, from: nat)
    requires 0 < from && Within(moments, from, from + LOG_BURST_WINDOW_MS)
    ensures Emitted(v, moments) <= Budget(v, from) + LOG_BURST_LIMIT * Forgets(moments)
    decreases |moments|
  {
    if moments != [] {
      hide Budget, Step, Emits;
      var rest := moments[1..];
      assert forall i :: 0 <= i < |rest| ==> rest[i] == moments[i + 1];
      MomentSpends(v, moments[0], from);
      WindowBound(Step(v, moments[0]), rest, from);
    }
  }

  /** Until the task is taken off the killed list nothing of it is emitted. */
  lemma {:induction false} NothingAfterKill(v: View, moments: seq<Moment>)
    requires v.killed && forall i :: 0 <= i < |moments| ==> !moments[i].forgiven
    ensures Emitted(v, moments) == 0
    decreases |moments|
  {
    if moments != [] {
      assert !moments[0].forgiven;
      assert forall i :: 0 <= i < |moments[1..]| ==> moments[1..][i] == moments[i + 1];
      NothingAfterKill(Step(v, moments[0]), moments[1..]);
    }
  }

  /** What is still emitted of a run of equal lines. */
  function LeftOfRun(v: View, key: string): nat {
    if v.lastKey != Some(key) then MAX_CONSECUTIVE_DUPLICATE_LOGS
    else if v.streak + 1 >= MAX_CONSECUTIVE_DUPLICATE_LOGS then 0
    else MAX_CONSECUTIVE_DUPLICATE_LOGS - 1 - v.streak
  }

  lemma EqualLine(v: View, key: string, m: Moment)
    requires m.line.Some? ==> m.line.value.key == key
    ensures Emits(v, m) + LeftOfRun(Step(v, m), key) <=
      LeftOfRun(v, key) + if m.forgotten then MAX_CONSECUTIVE_DUPLICATE_LOGS else 0
  {
  }

  /** Of a run of equal lines at most three are emitted, and three more whenever the task is forgotten within it. */
  lemma {:induction false} RunOfEqualLines(v: View, key: string, moments: seq<Moment>)
    requires forall i :: 0 <= i < |moments| && moments[i].line.Some? ==> moments[i].line.value.key == key
    ensures Emitted(v, moments) <= LeftOfRun(v, key) + 3 * Forgets(moments)
    ensures LeftOfRun(v, key) <= 3
    decreases |moments|
  {
    if moments != [] {
      assert moments[0].line.Some? ==> moments[0].line.value.key == key;
      assert forall i :: 0 <= i < |moments[1..]| ==> moments[1..][i] == moments[i + 1];
      hide Step, Emits;
      EqualLine(v, key, moments[0]);
      RunOfEqualLines(Step(v, moments[0]), key, moments[1..]);
    }
  }

  // ---------------------------------------------------------------- runs of all tasks

  datatype Call = LogCall(log: Log, now: nat) | CleanupCall(taskId: string)

  function After(c: Control, call: Call): Control {
    match call
    case LogCall(log, now) => Evaluate(c, log, now).0
    case CleanupCall(id) => Cleanup(c, id)
  }

  function EmitsFor(c: Control, call: Call, id: string): nat {
    if call.LogCall? && call.log.taskId == id && Evaluate(c, call.log, call.now).1.Emit? then 1 else 0
  }

  /** How many lines of the task are emitted. */
  function EmittedFor(c: Control, calls: seq<Call>, id: string): nat
    decreases |calls|
  {
    if calls == [] then 0 else EmitsFor(c, calls[0], id) + EmittedFor(After(c, calls[0]), calls[1..], id)
  }

  /** The killed list is emptied by this call. */
  predicate Forgives(c: Control, call: Call) {
    call.LogCall? && |c.killed| > MAX_TRACKED_TASKS
  }

  function MomentOf(c: Control, call: Call, id: string): Moment {
    match call
    case LogCall(log, now) =>
      Moment(Forgives(c, call), |c.lastKey| > MAX_TRACKED_TASKS,
             if log.taskId == id then Some(Line(KeyOf(log), now)) else None)
    case CleanupCall(cleaned) => Moment(false, cleaned == id, None)
  }

  function MomentsOf(c: Control, calls: seq<Call>, id: string): (moments: seq<Moment>)
    ensures |moments| == |calls|
    decreases |calls|
  {
    if calls == [] then [] else [MomentOf(c, calls[0], id)] + MomentsOf(After(c, calls[0]), calls[1..], id)
  }

  lemma LineOnTask(c: Control, log: Log, now: nat, id: string)
    requires id != "" && Limited(id)
    ensures ViewOf(After(c, LogCall(log, now)), id) == Step(ViewOf(c, id), MomentOf(c, LogCall(log, now), id))
    ensures EmitsFor(c, LogCall(log, now), id) == Emits(ViewOf(c, id), MomentOf(c, LogCall(log, now), id))
  {
    hide KeyOf, Streak, CountLine, Evict;
    EvictedView(c, id);
    assert ViewOf(Evict(c), id) == Restored(ViewOf(c, id), MomentOf(c, LogCall(log, now), id));
  }

  lemma EvictedView(c: Control, id: string)
    ensures ViewOf(Evict(c), id) ==
      var v := ViewOf(c, id);
      var w := if |c.lastKey| > MAX_TRACKED_TASKS then NewView.(killed := v.killed) else v;
      w.(killed := w.killed && |c.killed| <= MAX_TRACKED_TASKS)
  {
  }

  /** Tasks disturb each other only by filling the tables: otherwise each is judged as if it were alone. */
  lemma CallOnTask(c: Control, call: Call, id: string)
    requires id != "" && Limited(id)
    ensures ViewOf(After(c, call), id) == Step(ViewOf(c, id), MomentOf(c, call, id))
    ensures EmitsFor(c, call, id) == Emits(ViewOf(c, id), MomentOf(c, call, id))
  {
    match call {
      case LogCall(log, now) =>
        LineOnTask(c, log, now, id);
      case CleanupCall(_) =>
    }
  }

  lemma {:induction false} RunOnTask(c: Control, calls: seq<Call>, id: string)
    requires id != "" && Limited(id)
    ensures EmittedFor(c, calls, id) == Emitted(ViewOf(c, id), MomentsOf(c, calls, id))
    decreases |calls|
  {
    if calls != [] {
      hide EmitsFor, After, ViewOf, MomentOf, Step, Emits;
      CallOnTask(c, calls[0], id);
      RunOnTask(After(c, calls[0]), calls[1..], id);
    }
  }

  ghost predicate Timed(calls: seq<Call>, from: nat, to: nat) {
    forall i :: 0 <= i < |calls| && calls[i].LogCall? ==> from <= calls[i].now <= to
  }

  lemma {:induction false} MomentsInTime(c: Control, calls: seq<Call>, id: string, from: nat, to: nat)
    requires Timed(calls, from, to)
    ensures Within(MomentsOf(c, calls, id), from, to)
    decreases |calls|
  {
    if calls != [] {
      hide KeyOf, After;
      var rest := calls[1..];
      assert forall i :: 0 <= i < |rest| ==> rest[i] == calls[i + 1];
      MomentsInTime(After(c, calls[0]), rest, id, from, to);
    }
  }

  /** How often the run forgets the task: by cleaning it up, or by emptying tables that are full. */
  function ForgetsOf(c: Control, calls: seq<Call>, id: string): nat {
    Forgets(MomentsOf(c, calls, id))
  }

  /**
   The burst bound. From any state of the limiter, in any 2000 ms, at most 360 lines of a
   task are emitted, and at most 180 more each time the task is forgotten, however many are
   logged and whatever happens to other tasks in between.
   */
  lemma BurstBound(c: Control, calls: seq<Call>, id: string, from: nat)
    requires id != "" && Limited(id) && 0 < from && Timed(calls, from, from + LOG_BURST_WINDOW_MS)
    ensures EmittedFor(c, calls, id) <= 360 + 180 * ForgetsOf(c, calls, id)
  {
    hide EmittedFor, Emitted, MomentsOf, ViewOf, Forgets;
    MomentsInTime(c, calls, id, from, from + LOG_BURST_WINDOW_MS);
    RunOnTask(c, calls, id);
    WindowBound(ViewOf(c, id), MomentsOf(c, calls, id), from);
  }

  /** The calls before the one that empties the killed list. */
  function BeforeForgiven(c: Control, calls: seq<Call>): (n: nat)
    ensures n <= |calls|
    decreases |calls|
  {
    if calls == [] || Forgives(c, calls[0]) then 0 else 1 + BeforeForgiven(After(c, calls[0]), calls[1..])
  }

  lemma {:induction false} NotForgiven(c: Control, calls: seq<Call>, id: string, i: nat)
    requires i < BeforeForgiven(c, calls)
    ensures !MomentsOf(c, calls[..BeforeForgiven(c, calls)], id)[i].forgiven
    decreases |calls|
  {
    hide KeyOf, After;
    var n := BeforeForgiven(c, calls);
    assert calls[..n][0] == calls[0] && calls[..n][1..] == calls[1..][..n - 1];
    if i > 0 {
      NotForgiven(After(c, calls[0]), calls[1..], id, i - 1);
    }
  }

  /** Once a task's log was killed, none of its lines are emitted until the killed list has grown over its limit. */
  lemma SilentAfterKill(c: Control, calls: seq<Call>, id: string)
    requires id in c.killed && id != "" && Limited(id)
    ensures EmittedFor(c, calls[..BeforeForgiven(c, calls)], id) == 0
  {
    hide EmittedFor, Emitted, MomentsOf, BeforeForgiven;
    var before := calls[..BeforeForgiven(c, calls)];
    forall i | 0 <= i < |before| ensures !MomentsOf(c, before, id)[i].forgiven {
      NotForgiven(c, calls, id, i);
    }
    RunOnTask(c, before, id);
    NothingAfterKill(ViewOf(c, id), MomentsOf(c, before, id));
  }

  // ---------------------------------------------------------------- runs that forget nothing

  function LoggedIds(calls: seq<Call>): set<string> {
    set i | 0 <= i < |calls| && calls[i].LogCall? :: calls[i].log.taskId
  }

  lemma SmallerSet(a: set<string>, b: set<string>)
    requires a <= b
    ensures |a| <= |b|
  {
    assert b == a + (b - a);
  }

  lemma EvictShrinks(c: Control)
    ensures Evict(c).lastKey.Keys <= c.lastKey.Keys && Evict(c).killed <= c.killed
  {
  }

  lemma LineTables(c: Control, log: Log, now: nat)
    ensures var c1, c' := Evict(c), Evaluate(c, log, now).0;
      && (c'.lastKey == c1.lastKey || c'.lastKey == c1.lastKey[log.taskId := KeyOf(log)])
      && (c'.killed == c1.killed || c'.killed == c1.killed + {log.taskId})
  {
    hide KeyOf, Decide, ViewOf, Evict, Streak, CountLine;
  }

  lemma LineGrows(c: Control, log: Log, now: nat)
    ensures Evaluate(c, log, now).0.lastKey.Keys <= c.lastKey.Keys + {log.taskId}
    ensures Evaluate(c, log, now).0.killed <= c.killed + {log.taskId}
  {
    hide *;
    EvictShrinks(c);
    LineTables(c, log, now);
  }

  lemma LoggedOne(call: Call)
    ensures LoggedIds([call]) == if call.LogCall? then {call.log.taskId} else {}
  {
    assert [call][0] == call;
  }

  lemma CallGrows(c: Control, call: Call)
    ensures After(c, call).lastKey.Keys <= c.lastKey.Keys + LoggedIds([call])
    ensures After(c, call).killed <= c.killed + LoggedIds([call])
  {
    hide Evaluate, LoggedIds;
    LoggedOne(call);
    if call.LogCall? {
      LineGrows(c, call.log, call.now);
    }
  }

  lemma LoggedFirst(calls: seq<Call>)
    requires calls != []
    ensures LoggedIds([calls[0]]) + LoggedIds(calls[1..]) <= LoggedIds(calls)
  {
    assert forall i :: 0 <= i < |calls[1..]| ==> calls[1..][i] == calls[i + 1];
  }

  lemma ForgetsFirst(c: Control, calls: seq<Call>, id: string)
    requires calls != []
    ensures ForgetsOf(c, calls, id) ==
      (if MomentOf(c, calls[0], id).forgotten then 1 else 0) + ForgetsOf(After(c, calls[0]), calls[1..], id)
  {
    hide MomentOf, After;
  }

  lemma KeptInMind(c: Control, call: Call, id: string)
    requires |c.lastKey.Keys| <= MAX_TRACKED_TASKS && call != CleanupCall(id)
    ensures !MomentOf(c, call, id).forgotten
  {
    hide KeyOf;
    assert |c.lastKey| == |c.lastKey.Keys|;
  }

  /** The next call starts from no more ids than the run before it. */
  lemma FewerIds(c: Control, calls: seq<Call>)
    requires calls != []
    ensures var c' := After(c, calls[0]);
      && |c'.lastKey.Keys + LoggedIds(calls[1..])| <= |c.lastKey.Keys + LoggedIds(calls)|
      && |c'.killed + LoggedIds(calls[1..])| <= |c.killed + LoggedIds(calls)|
  {
    hide After, LoggedIds;
    var c' := After(c, calls[0]);
    CallGrows(c, calls[0]);
    LoggedFirst(calls);
    SmallerSet(c'.lastKey.Keys + LoggedIds(calls[1..]), c.lastKey.Keys + LoggedIds(calls));
    SmallerSet(c'.killed + LoggedIds(calls[1..]), c.killed + LoggedIds(calls));
  }

  /**
   A run of which the tracked tasks and the logged ones together are at most 256, and which
   does not clean up the task, never forgets it.
   */
  lemma {:induction false} NothingForgotten(c: Control, calls: seq<Call>, id: string)
    requires |c.lastKey.Keys + LoggedIds(calls)| <= MAX_TRACKED_TASKS
    requires CleanupCall(id) !in calls
    ensures ForgetsOf(c, calls, id) == 0
    decreases |calls|
  {
    if calls != [] {
      hide *;
      SmallerSet(c.lastKey.Keys, c.lastKey.Keys + LoggedIds(calls));
      assert calls[0] in calls;
      KeptInMind(c, calls[0], id);
      FewerIds(c, calls);
      NothingForgotten(After(c, calls[0]), calls[1..], id);
      ForgetsFirst(c, calls, id);
    }
  }

  /** So in such a run at most 360 lines of the task are emitted in any 2000 ms. */
  lemma BurstBoundWhenTracked(c: Control, calls: seq<Call>, id: string, from: nat)
    requires id != "" && Limited(id) && 0 < from && Timed(calls, from, from + LOG_BURST_WINDOW_MS)
    requires |c.lastKey.Keys + LoggedIds(calls)| <= MAX_TRACKED_TASKS && CleanupCall(id) !in calls
    ensures EmittedFor(c, calls, id) <= 360
  {
    hide *;
    BurstBound(c, calls, id, from);
    NothingForgotten(c, calls, id);
  }

  /** A run of which the killed tasks and the logged ones together are at most 256 never empties the killed list. */
  lemma {:induction false} NothingForgiven(c: Control, calls: seq<Call>)
    requires |c.killed + LoggedIds(calls)| <= MAX_TRACKED_TASKS
    ensures BeforeForgiven(c, calls) == |calls|
    decreases |calls|
  {
    if calls != [] {
      hide After, LoggedIds;
      SmallerSet(c.killed, c.killed + LoggedIds(calls));
      FewerIds(c, calls);
      NothingForgiven(After(c, calls[0]), calls[1..]);
    }
  }

  // ---------------------------------------------------------------- the bound is attained

  /** `n` lines at one time, with two keys in turn. */
  function InTurn(a: Log, b: Log, n: nat, now: nat): (calls: seq<Call>)
    ensures |calls| == n
    decreases n
  {
    if n == 0 then [] else [LogCall(a, now)] + InTurn(b, a, n - 1, now)
  }

  /** `k` times: clean the task up, then log `n` lines of it. */
  function Bursts(a: Log, b: Log, n: nat, k: nat, now: nat): seq<Call> {
    if k == 0 then []
    else [CleanupCall(a.taskId)] + InTurn(a, b, n, now) + Bursts(a, b, n, k - 1, now)
  }

  /** Only this task is tracked, and its log is alive. */
  ghost predicate Alone(c: Control, id: string) {
    c.lastKey.Keys <= {id} && c.killed == {}
  }

  /** The window has room for `n` more lines at this time. */
  ghost predicate Room(v: View, n: nat, now: nat) {
    v.window.startMs == 0 || (v.window.startMs == now && v.window.count + n <= LOG_BURST_LIMIT)
  }

  lemma NextInTurn(c: Control, a: Log, n: nat, now: nat)
    requires Alone(c, a.taskId) && a.taskId != "" && 0 < now && 0 < n <= LOG_BURST_LIMIT
    requires Room(ViewOf(c, a.taskId), n, now) && ViewOf(c, a.taskId).lastKey != Some(KeyOf(a))
    ensures var c' := After(c, LogCall(a, now));
      Alone(c', a.taskId) && EmitsFor(c, LogCall(a, now), a.taskId) == 1
      && Room(ViewOf(c', a.taskId), n - 1, now) && ViewOf(c', a.taskId).lastKey == Some(KeyOf(a))
  {
    hide KeyOf;
    SmallerSet(c.lastKey.Keys, {a.taskId});
    assert |c.lastKey| == |c.lastKey.Keys|;
  }

  /** All lines of a burst with room in the window are emitted; `rest` comes after it. */
  lemma {:induction false} BurstEmitted(c: Control, a: Log, b: Log, n: nat, now: nat, rest: seq<Call>) returns (c': Control)
    requires a.taskId == b.taskId != "" && KeyOf(a) != KeyOf(b) && 0 < now && n <= LOG_BURST_LIMIT
    requires Alone(c, a.taskId)
    requires Room(ViewOf(c, a.taskId), n, now) && ViewOf(c, a.taskId).lastKey != Some(KeyOf(a))
    ensures Alone(c', a.taskId)
    ensures EmittedFor(c, InTurn(a, b, n, now) + rest, a.taskId) == n + EmittedFor(c', rest, a.taskId)
    decreases n
  {
    hide KeyOf, Alone, Room, ViewOf, After, EmitsFor;
    var calls := InTurn(a, b, n, now) + rest;
    if n == 0 {
      assert calls == rest;
      c' := c;
    } else {
      NextInTurn(c, a, n, now);
      assert calls[0] == LogCall(a, now) && calls[1..] == InTurn(b, a, n - 1, now) + rest;
      c' := BurstEmitted(After(c, LogCall(a, now)), b, a, n - 1, now, rest);
    }
  }

  lemma CleanedUp(c: Control, id: string)
    requires Alone(c, id)
    ensures var c' := After(c, CleanupCall(id));
      Alone(c', id) && ViewOf(c', id) == NewView && EmitsFor(c, CleanupCall(id), id) == 0
  {
  }

  lemma FirstCleanup(c: Control, a: Log, b: Log, n: nat, k: nat, now: nat)
    requires k > 0
    ensures EmittedFor(c, Bursts(a, b, n, k, now), a.taskId) ==
      EmitsFor(c, CleanupCall(a.taskId), a.taskId) +
      EmittedFor(After(c, CleanupCall(a.taskId)), InTurn(a, b, n, now) + Bursts(a, b, n, k - 1, now), a.taskId)
  {
    hide InTurn, EmitsFor, After;
    var calls := Bursts(a, b, n, k, now);
    assert calls[0] == CleanupCall(a.taskId) && calls[1..] == InTurn(a, b, n, now) + Bursts(a, b, n, k - 1, now);
  }

  lemma NoBursts(c: Control, a: Log, b: Log, n: nat, now: nat)
    ensures EmittedFor(c, Bursts(a, b, n, 0, now), a.taskId) == 0 == n * 0
  {
  }

  lemma TimesNext(n: nat, k: nat)
    requires k > 0
    ensures n * k == n + n * (k - 1)
  {
  }

  lemma CleanRoom(v: View, n: nat, now: nat)
    requires v == NewView
    ensures Room(v, n, now) && v.lastKey.None?
  {
  }

  /**
   A run that is emitted in full: up to 180 lines after every cleanup, all at the same time.
   A task that is forgotten gets its window anew: the bound above needs its last term.
   */
  lemma {:induction false} CleanupReopens(c: Control, a: Log, b: Log, n: nat, k: nat, now: nat)
    requires a.taskId == b.taskId != "" && KeyOf(a) != KeyOf(b) && 0 < now && Alone(c, a.taskId)
    requires n <= LOG_BURST_LIMIT
    ensures EmittedFor(c, Bursts(a, b, n, k, now), a.taskId) == n * k
    decreases k
  {
    hide *;
    if k == 0 {
      NoBursts(c, a, b, n, now);
    } else {
      var c1 := After(c, CleanupCall(a.taskId));
      CleanedUp(c, a.taskId);
      CleanRoom(ViewOf(c1, a.taskId), n, now);
      FirstCleanup(c, a, b, n, k, now);
      var c' := BurstEmitted(c1, a, b, n, now, Bursts(a, b, n, k - 1, now));
      CleanupReopens(c', a, b, n, k - 1, now);
      TimesNext(n, k);
    }
  }

  // ---------------------------------------------------------------- error logs per source

  function KeepLast<T>(items: seq<T>, n: nat): seq<T> {
    if |items| <= n then items else items[|items| - n..]
  }

  class ErrorLogs {
    var bySource: map<string, seq<Log>>
    /** Everything pushed so far. */
    ghost var pushed: seq<Log>

    ghost predicate Valid()
      reads this
    {
      forall id ::
        (if id in bySource then bySource[id] else []) == KeepLast(ErrorsOf(pushed, id), MAX_ERROR_LOGS_PER_SOURCE)
    }

    constructor ()
      ensures Valid() && pushed == []
    {
      bySource, pushed := map[], [];
    }

    /** Each source keeps exactly its last 80 error lines. */
    method PushErrorLog(log: Log)
      requires Valid()
      modifies this
      ensures Valid() && pushed == old(pushed) + [log]
    {
      hide KeepLast, ErrorsOf;
      forall id ensures ErrorsOf(pushed + [log], id) ==
        if log.level == "error" && log.sourceId == id then ErrorsOf(pushed, id) + [log] else ErrorsOf(pushed, id)
      {
        ErrorsOfNext(pushed, log, id);
      }
      pushed := pushed + [log];
      if log.level != "error" {
        return;
      }
      KeepLastTwice(ErrorsOf(old(pushed), log.sourceId), log, MAX_ERROR_LOGS_PER_SOURCE);
      var logs := if log.sourceId in bySource then bySource[log.sourceId] else [];
      logs := PopExcess(logs + [log]);
      bySource := bySource[log.sourceId := logs];
    }
  }

  method PopExcess(logs: seq<Log>) returns (r: seq<Log>)
    ensures r == KeepLast(logs, MAX_ERROR_LOGS_PER_SOURCE)
  {
    r := logs;
    while |r| > MAX_ERROR_LOGS_PER_SOURCE
      invariant |r| <= |logs| && r == logs[|logs| - |r|..]
      invariant |r| < |logs| ==> |r| >= MAX_ERROR_LOGS_PER_SOURCE
    {
      r := r[1..];
    }
  }

  lemma ErrorsOfNext(pushed: seq<Log>, log: Log, id: string)
    ensures ErrorsOf(pushed + [log], id) ==
      if log.level == "error" && log.sourceId == id then ErrorsOf(pushed, id) + [log] else ErrorsOf(pushed, id)
  {
    assert (pushed + [log])[..|pushed|] == pushed;
  }

  ghost function ErrorsOf(pushed: seq<Log>, id: string): seq<Log> {
    if pushed == [] then []
    else
      var last := pushed[|pushed| - 1];
      ErrorsOf(pushed[..|pushed| - 1], id) + if last.level == "error" && last.sourceId == id then [last] else []
  }

  lemma KeepLastTwice<T>(items: seq<T>, x: T, n: nat)
    requires n > 0
    ensures KeepLast(KeepLast(items, n) + [x], n) == KeepLast(items + [x], n)
  {
  }
}
