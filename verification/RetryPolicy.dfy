/**
 Retries of failed sources: the state a tick reads, writes and clears, and the budget every
 episode of failures stays within, across restarts of the scheduler.
 */
module RetryPolicy {
  import opened Wrappers
  import opened Text
  import opened RuntimeTable
  import TemplateSyntax

  datatype RetryState = RetryState(signature: string, attempts: nat, firstFailedAt: Time, nextRetryAt: Option<Time>)

  const MAX_RETRIES := 3

  /** Seconds to wait before each retry. */
  function Backoff(retry: nat): real {
    if retry == 0 then 60.0 else if retry == 1 then 180.0 else 600.0
  }

  /** A status or error code, as the scheduler compares them. */
  function Normal(s: Option<string>): string {
    if s.Some? then Lower(Trim(s.value, TemplateSyntax.IsSpace)) else ""
  }

  predicate RetryableCode(code: string) {
    code == "runtime.network_timeout" || code == "runtime.retry_required"
  }

  predicate RetryableStatus(status: string) {
    status == "error" || status == "suspended"
  }

  lemma LowerTwice(t: string)
    requires Trimmed(t, TemplateSyntax.IsSpace)
    ensures Trimmed(Lower(t), TemplateSyntax.IsSpace) && Lower(Lower(t)) == Lower(t)
  {
  }

  lemma NormalTwice(s: Option<string>)
    ensures Normal(Some(Normal(s))) == Normal(s)
  {
    if s.Some? {
      LowerTwice(Trim(s.value, TemplateSyntax.IsSpace));
      hide Trim, Lower, Trimmed;
      TrimOfTrimmed(Normal(s), TemplateSyntax.IsSpace);
    }
  }

  // ---------------------------------------------------------------- reading and writing the state

  function ToMetadata(st: RetryState): RetryMetadata {
    RetryMetadata(st.signature, st.attempts, Some(st.firstFailedAt), st.nextRetryAt)
  }

  /** The state of a record, if its metadata has a signature; else what the scheduler remembers. */
  function Read(r: Record, remembered: Option<RetryState>, now: Time): Option<RetryState> {
    if r.retryMetadata.None? || Normal(Some(r.retryMetadata.value.signature)) == "" then remembered
    else
      var m := r.retryMetadata.value;
      var attempts: nat := if m.attempts > 0 then m.attempts else 0;
      var first := if m.firstFailedAt.Some? then m.firstFailedAt.value else now;
      Some(RetryState(
        Normal(Some(m.signature)), attempts, first,
        if m.nextRetryAt.Some? then m.nextRetryAt
        else if attempts < MAX_RETRIES then Some(first + Backoff(attempts))
        else None))
  }

  /** A state the scheduler writes: a normalized signature, and a next retry unless all are used up. */
  ghost predicate Written(st: RetryState) {
    && st.signature != "" && Normal(Some(st.signature)) == st.signature
    && st.attempts <= MAX_RETRIES
    && (st.nextRetryAt.Some? <==> st.attempts < MAX_RETRIES)
  }

  /** Reading back a written state returns it, whatever the scheduler remembers: a restart loses nothing. */
  lemma ReadOfWritten(r: Record, st: RetryState, remembered: Option<RetryState>, now: Time)
    requires Written(st) && r.retryMetadata == Some(ToMetadata(st))
    ensures Read(r, remembered, now) == Some(st)
  {
  }

  // ---------------------------------------------------------------- one source in one tick

  /** What a tick knows about a source: its record and the remembered retry state. */
  datatype Entry = Entry(record: Option<Record>, remembered: Option<RetryState>)

  datatype Decision = Nothing | Retry(code: string) | Auto

  datatype Ticked = Ticked(entry: Entry, decision: Decision)

  function Clear(e: Entry): Entry {
    Entry(if e.record.Some? then Some(e.record.value.(retryMetadata := None)) else None, None)
  }

  function Write(e: Entry, st: RetryState): Entry {
    Entry(if e.record.Some? then Some(e.record.value.(retryMetadata := Some(ToMetadata(st)))) else None, Some(st))
  }

  function SucceededSince(r: Record, st: RetryState): bool {
    r.lastSuccessAt.Some? && r.lastSuccessAt.value > st.firstFailedAt
  }

  function NewState(code: string, r: Record, now: Time): RetryState {
    var first := if r.updatedAt.Some? then r.updatedAt.value else now;
    RetryState(code, 0, first, Some(first + Backoff(0)))
  }

  function AfterRetry(st: RetryState, now: Time): RetryState {
    st.(attempts := st.attempts + 1,
        nextRetryAt := if st.attempts + 1 < MAX_RETRIES then Some(now + Backoff(st.attempts + 1)) else None)
  }

  predicate Due(st: RetryState, now: Time) {
    st.attempts < MAX_RETRIES && st.nextRetryAt.Some? && st.nextRetryAt.value <= now
  }

  /** An active source is due when its last success is older than its refresh interval. */
  predicate AutoDue(r: Record, intervalMinutes: int, now: Time) {
    var last := if r.lastSuccessAt.Some? then r.lastSuccessAt else r.updatedAt;
    intervalMinutes > 0 && last.Some? && now - last.value >= (intervalMinutes * 60) as real
  }

  predicate StartsState(known: Option<RetryState>, code: string) {
    known.None? || known.value.signature != code
  }

  /** The state known for this error code, or a new one. */
  function StateFor(known: Option<RetryState>, code: string, r: Record, now: Time): RetryState {
    if StartsState(known, code) then NewState(code, r, now) else known.value
  }

  /** A failing source: keep or start its retry state, and retry if one is due and the queue takes it. */
  function TickFailing(e: Entry, known: Option<RetryState>, code: string, now: Time, free: bool): Ticked
    requires e.record.Some?
  {
    var st := StateFor(known, code, e.record.value, now);
    var e1 := if StartsState(known, code) then Write(e, st) else e;
    if Due(st, now) && free then Ticked(Write(e1, AfterRetry(st, now)), Retry(code)) else Ticked(e1, Nothing)
  }

  /** The record shows a failure worth retrying. */
  predicate Failing(r: Record) {
    RetryableStatus(Normal(r.status)) && RetryableCode(Normal(r.errorCode))
  }

  /** One source of a tick; `free` says that it is neither queued nor in flight. */
  function TickSource(e: Entry, intervalMinutes: int, now: Time, free: bool): Ticked {
    if e.record.None? then Ticked(Clear(e), Nothing)
    else
      var r := e.record.value;
      var known := Read(r, e.remembered, now);
      var e1 := e.(remembered := known);
      var status := Normal(r.status);
      if status == "active" then
        var e2 := if known.Some? && SucceededSince(r, known.value) then Clear(e1) else e1;
        Ticked(e2, if AutoDue(r, intervalMinutes, now) && free then Auto else Nothing)
      else if Failing(r) then
        TickFailing(e1, known, Normal(r.errorCode), now, free)
      else
        Ticked(if known.Some? then Clear(e1) else e1, Nothing)
  }

  // ---------------------------------------------------------------- episodes

  /** One run of failures: when it began and when its retries were enqueued. */
  datatype Episode = Episode(signature: string, firstFailedAt: Time, retries: seq<Time>)

  /** At most three retries: the first a minute after the failure, the second 3 and the third 10 minutes after the one before. */
  ghost predicate WithinBudget(ep: Episode) {
    && |ep.retries| <= 3
    && (|ep.retries| > 0 ==> ep.retries[0] >= ep.firstFailedAt + 60.0)
    && (|ep.retries| > 1 ==> ep.retries[1] >= ep.retries[0] + 180.0)
    && (|ep.retries| > 2 ==> ep.retries[2] >= ep.retries[1] + 600.0)
  }

  /** What happens to one source: ticks, writes by fetches and other components, and restarts of the scheduler. */
  datatype Event =
    | Tick(intervalMinutes: int, now: Time, free: bool)
    | SetState(write: StateWrite, now: Time)
    | Upsert(data: string, now: Time)
    | SetError(message: string, now: Time)
    | Delete
    | Restart

  /** A source with its current episode and the ones that ended. */
  datatype World = World(entry: Entry, current: Option<Episode>, ended: seq<Episode>)

  const Begin := World(Entry(None, None), None, [])

  /** The retry state a tick would find. */
  ghost function Effective(e: Entry, now: Time): Option<RetryState> {
    if e.record.Some? then Read(e.record.value, e.remembered, now) else e.remembered
  }

  function NextEntry(e: Entry, v: Event): Entry {
    match v
    case Tick(intervalMinutes, now, free) => TickSource(e, intervalMinutes, now, free).entry
    case SetState(write, now) =>
      var r := if e.record.Some? then e.record.value else NoRecord;
      e.(record := Some(WithState(r, write, now)))
    case Upsert(data, now) => e.(record := Some(Upserted(data, now).record))
    case SetError(message, now) => e.(record := Some(Errored(message, now).record))
    case Delete => e.(record := None)
    case Restart => e.(remembered := None)
  }

  /** The retry state an event starts, if it starts one. */
  ghost function Started(e: Entry, v: Event): Option<RetryState> {
    if !v.Tick? || e.record.None? then None
    else
      var r := e.record.value;
      var known := Read(r, e.remembered, v.now);
      if Failing(r) && StartsState(known, Normal(r.errorCode)) then Some(NewState(Normal(r.errorCode), r, v.now))
      else None
  }

  /** An episode begins when a tick starts a retry state and ends when the state is gone or another one starts. */
  ghost function Next(w: World, v: Event): World {
    var e := NextEntry(w.entry, v);
    var started := Started(w.entry, v);
    var ended := if w.current.Some? && started.Some? then w.ended + [w.current.value] else w.ended;
    var episode := if started.Some? then Some(Episode(started.value.signature, started.value.firstFailedAt, [])) else w.current;
    var retried := v.Tick? && TickSource(w.entry, v.intervalMinutes, v.now, v.free).decision.Retry?;
    var current := if retried && episode.Some? then Some(episode.value.(retries := episode.value.retries + [v.now])) else episode;
    if current.Some? && Effective(e, 0.0).None? then World(e, None, ended + [current.value])
    else World(e, current, ended)
  }

  // ---------------------------------------------------------------- the budget

  /** The state says how far the episode has come. */
  ghost predicate Tracks(st: RetryState, ep: Episode) {
    && st.signature == ep.signature && st.firstFailedAt == ep.firstFailedAt
    && st.attempts == |ep.retries|
    && (0 < st.attempts < MAX_RETRIES ==> st.nextRetryAt == Some(ep.retries[st.attempts - 1] + Backoff(st.attempts)))
    && (st.attempts == 0 ==> st.nextRetryAt == Some(ep.firstFailedAt + Backoff(0)))
  }

  /** Record and memory hold the same written state, or one of them holds it alone. */
  ghost predicate Agrees(e: Entry) {
    && (e.record.Some? && e.record.value.retryMetadata.Some? ==>
         exists st :: Written(st) && e.record.value.retryMetadata == Some(ToMetadata(st)) &&
           (e.remembered.Some? ==> e.remembered == Some(st)))
    && (e.remembered.Some? ==> Written(e.remembered.value))
  }

  ghost predicate Valid(w: World) {
    && Agrees(w.entry)
    && (forall i :: 0 <= i < |w.ended| ==> WithinBudget(w.ended[i]))
    && (w.current.Some? ==> WithinBudget(w.current.value))
    && match Effective(w.entry, 0.0) {
         case None => w.current == None
         case Some(st) => w.current.Some? && Tracks(st, w.current.value)
       }
  }

  /** The state found does not depend on the clock. */
  lemma EffectiveIsWritten(e: Entry, now: Time)
    requires Agrees(e)
    ensures Effective(e, now) == Effective(e, 0.0)
    ensures Effective(e, now).Some? ==> Written(Effective(e, now).value)
  {
    if e.record.Some? && e.record.value.retryMetadata.Some? {
      var st :| Written(st) && e.record.value.retryMetadata == Some(ToMetadata(st));
      ReadOfWritten(e.record.value, st, e.remembered, now);
      ReadOfWritten(e.record.value, st, e.remembered, 0.0);
    }
  }

  lemma WriteAgrees(e: Entry, st: RetryState)
    requires e.record.Some? && Written(st)
    ensures Agrees(Write(e, st)) && Effective(Write(e, st), 0.0) == Some(st)
  {
    assert Write(e, st).record.value.retryMetadata == Some(ToMetadata(st));
    ReadOfWritten(Write(e, st).record.value, st, Some(st), 0.0);
  }

  lemma NewStateIsWritten(errorCode: Option<string>, r: Record, now: Time)
    requires RetryableCode(Normal(errorCode))
    ensures Written(NewState(Normal(errorCode), r, now))
  {
    NormalTwice(errorCode);
  }

  lemma RetryWithinBudget(st: RetryState, ep: Episode, now: Time)
    requires Written(st) && Tracks(st, ep) && WithinBudget(ep) && Due(st, now)
    ensures var ep' := ep.(retries := ep.retries + [now]);
      WithinBudget(ep') && Tracks(AfterRetry(st, now), ep') && Written(AfterRetry(st, now))
  {
    hide Normal;
  }

  // ---------------------------------------------------------------- every event keeps the budget

  /** The entry a tick works on once it has read the state: nothing is lost by remembering it. */
  lemma ReadingAgrees(e: Entry, now: Time)
    requires Agrees(e) && e.record.Some?
    ensures var e1 := e.(remembered := Read(e.record.value, e.remembered, now));
      Agrees(e1) && Effective(e1, 0.0) == Effective(e, 0.0) == e1.remembered
  {
    EffectiveIsWritten(e, now);
    var e1 := e.(remembered := Read(e.record.value, e.remembered, now));
    if e.record.value.retryMetadata.Some? {
      var st :| Written(st) && e.record.value.retryMetadata == Some(ToMetadata(st));
      ReadOfWritten(e.record.value, st, e.remembered, now);
      ReadOfWritten(e.record.value, st, e1.remembered, 0.0);
    }
    hide Normal, Written;
  }

  lemma ClearForgets(e: Entry)
    ensures Agrees(Clear(e)) && Effective(Clear(e), 0.0) == None
  {
  }

  /** The episode that goes on, or the new one, before this tick's retry. */
  ghost function EpisodeFor(known: Option<RetryState>, code: string, st: RetryState, ep: Option<Episode>): Episode
    requires !StartsState(known, code) ==> ep.Some?
  {
    if StartsState(known, code) then Episode(st.signature, st.firstFailedAt, []) else ep.value
  }

  lemma StateForTracks(known: Option<RetryState>, errorCode: Option<string>, r: Record, now: Time, ep: Option<Episode>)
    requires RetryableCode(Normal(errorCode))
    requires known.Some? ==> Written(known.value) && ep.Some? && Tracks(known.value, ep.value) && WithinBudget(ep.value)
    ensures var code := Normal(errorCode); var st := StateFor(known, code, r, now);
      Written(st) && Tracks(st, EpisodeFor(known, code, st, ep)) && WithinBudget(EpisodeFor(known, code, st, ep))
  {
    hide Normal, RetryableCode, Written;
    NewStateIsWritten(errorCode, r, now);
  }

  /** A tick on a failing source: the state after it, and the episode that state belongs to. */
  lemma FailingTick(e: Entry, known: Option<RetryState>, errorCode: Option<string>, now: Time, free: bool, ep: Option<Episode>)
    requires e.record.Some? && Agrees(e) && Effective(e, 0.0) == known
    requires RetryableCode(Normal(errorCode))
    requires known.Some? ==> Written(known.value) && ep.Some? && Tracks(known.value, ep.value) && WithinBudget(ep.value)
    ensures var code := Normal(errorCode); var t := TickFailing(e, known, code, now, free);
      var ep1 := EpisodeFor(known, code, StateFor(known, code, e.record.value, now), ep);
      var ep2 := if t.decision.Retry? then ep1.(retries := ep1.retries + [now]) else ep1;
      && Agrees(t.entry) && Effective(t.entry, 0.0).Some?
      && Tracks(Effective(t.entry, 0.0).value, ep2) && WithinBudget(ep2)
  {
    var code := Normal(errorCode);
    var st := StateFor(known, code, e.record.value, now);
    var ep1 := EpisodeFor(known, code, st, ep);
    var e1 := if StartsState(known, code) then Write(e, st) else e;
    StateForTracks(known, errorCode, e.record.value, now, ep);
    WriteAgrees(e, st);
    assert !StartsState(known, code) ==> st == known.value;
    if Due(st, now) && free {
      RetryWithinBudget(st, ep1, now);
      WriteAgrees(e1, AfterRetry(st, now));
    }
    hide Normal, RetryableCode, WithinBudget, Agrees, Effective, Tracks, Written, StateFor, EpisodeFor,
      AfterRetry, Due, StartsState;
  }

  /** A write to the record by others leaves the state, or removes the recorded copy of it. */
  lemma RecordWriteAgrees(e: Entry, r: Record)
    requires Agrees(e)
    requires r.retryMetadata.None? || (e.record.Some? && r.retryMetadata == e.record.value.retryMetadata)
    ensures Agrees(e.(record := Some(r)))
    ensures Effective(e.(record := Some(r)), 0.0) == if r.retryMetadata.None? then e.remembered else Effective(e, 0.0)
  {
    hide Written, Normal, ToMetadata;
  }

  lemma EventKeepsBudget(w: World, v: Event)
    requires Valid(w)
    ensures Valid(Next(w, v))
  {
    if v.Tick? {
      TickKeepsBudget(w, v);
    } else {
      OtherEntryAgrees(w.entry, v);
      hide *;
      OtherEventKeepsBudget(w, v);
    }
  }

  lemma OtherEntryAgrees(e: Entry, v: Event)
    requires Agrees(e) && !v.Tick?
    ensures Agrees(NextEntry(e, v))
    ensures Effective(NextEntry(e, v), 0.0) == None || Effective(NextEntry(e, v), 0.0) == Effective(e, 0.0)
  {
    hide Written, Normal;
    match v {
      case SetState(write, now) =>
        RecordWriteAgrees(e, WithState(if e.record.Some? then e.record.value else NoRecord, write, now));
      case Upsert(data, now) =>
        RecordWriteAgrees(e, Upserted(data, now).record);
      case SetError(message, now) =>
        RecordWriteAgrees(e, Errored(message, now).record);
      case Delete =>
      case Restart =>
    }
    if e.remembered.Some? {
      RememberedIsEffective(e);
    }
  }

  lemma RememberedIsEffective(e: Entry)
    requires Agrees(e) && e.remembered.Some?
    ensures Effective(e, 0.0) == e.remembered
  {
    if e.record.Some? && e.record.value.retryMetadata.Some? {
      var st :| Written(st) && e.record.value.retryMetadata == Some(ToMetadata(st)) && e.remembered == Some(st);
      ReadOfWritten(e.record.value, st, e.remembered, 0.0);
    }
  }

  /** An event that is no tick starts and retries nothing: the state stays what it was, or is gone. */
  lemma OtherEventKeepsBudget(w: World, v: Event)
    requires Valid(w) && !v.Tick?
    requires Agrees(NextEntry(w.entry, v))
    requires Effective(NextEntry(w.entry, v), 0.0) == None || Effective(NextEntry(w.entry, v), 0.0) == Effective(w.entry, 0.0)
    ensures Valid(Next(w, v))
  {
    hide Agrees, Effective, NextEntry, WithinBudget, Tracks;
  }

  lemma TickKeepsBudget(w: World, v: Event)
    requires Valid(w) && v.Tick?
    ensures Valid(Next(w, v))
  {
    hide *;
    if w.entry.record.None? {
      EmptyTickKeepsBudget(w, v);
    } else if Failing(w.entry.record.value) {
      FailingTickKeepsBudget(w, v);
    } else {
      QuietTickKeepsBudget(w, v);
    }
  }

  lemma EmptyTickKeepsBudget(w: World, v: Event)
    requires Valid(w) && v.Tick? && w.entry.record.None?
    ensures Valid(Next(w, v))
  {
    hide Agrees, Effective, WithinBudget, Tracks, Normal, Clear, Read, Failing;
    ClearForgets(w.entry);
  }

  lemma FailingTickKeepsBudget(w: World, v: Event)
    requires Valid(w) && v.Tick? && w.entry.record.Some? && Failing(w.entry.record.value)
    ensures Valid(Next(w, v))
  {
    hide Agrees, Effective, WithinBudget, Tracks, Normal, Read, AutoDue, SucceededSince, Written, Failing,
      RetryableStatus, RetryableCode, StateFor, StartsState;
    var e := w.entry;
    var r := e.record.value;
    var known := Read(r, e.remembered, v.now);
    var e1 := e.(remembered := known);
    FailingIsNotActive(r);
    ReadingAgrees(e, v.now);
    EffectiveIsWritten(e, v.now);
    FailingTick(e1, known, r.errorCode, v.now, v.free, w.current);
    NewStateStarts(known, Normal(r.errorCode), r, v.now);
    TickOfFailing(e, v);
  }

  lemma NewStateStarts(known: Option<RetryState>, code: string, r: Record, now: Time)
    ensures StartsState(known, code) ==> StateFor(known, code, r, now) == NewState(code, r, now)
    ensures known.None? ==> StartsState(known, code)
  {
  }

  lemma TickOfFailing(e: Entry, v: Event)
    requires v.Tick? && e.record.Some? && Failing(e.record.value)
    ensures var r := e.record.value; var known := Read(r, e.remembered, v.now);
      TickSource(e, v.intervalMinutes, v.now, v.free) ==
      TickFailing(e.(remembered := known), known, Normal(r.errorCode), v.now, v.free)
  {
    FailingIsNotActive(e.record.value);
    hide Normal, TickFailing, Read;
  }

  /** A tick that sees no failure starts and retries nothing; it keeps the state or clears it. */
  lemma QuietTickKeepsBudget(w: World, v: Event)
    requires Valid(w) && v.Tick? && w.entry.record.Some? && !Failing(w.entry.record.value)
    ensures Valid(Next(w, v))
  {
    hide Agrees, Effective, WithinBudget, Tracks, Normal, Read, AutoDue, SucceededSince, Written, Failing, Clear;
    var e := w.entry;
    var e1 := e.(remembered := Read(e.record.value, e.remembered, v.now));
    ReadingAgrees(e, v.now);
    ClearForgets(e1);
  }

  lemma FailingIsNotActive(r: Record)
    ensures Failing(r) ==> Normal(r.status) != "active" && RetryableCode(Normal(r.errorCode))
  {
    hide Normal;
  }

  // ---------------------------------------------------------------- runs

  ghost function After(events: seq<Event>): World {
    if events == [] then Begin else Next(After(events[..|events| - 1]), events[|events| - 1])
  }

  /** Every episode of every run, ended or not, stays within the budget, however often the scheduler restarts. */
  lemma {:induction false} RetryBudget(events: seq<Event>)
    ensures Valid(After(events))
  {
    if events != [] {
      RetryBudget(events[..|events| - 1]);
      EventKeepsBudget(After(events[..|events| - 1]), events[|events| - 1]);
    }
  }

  lemma OnlyFailingRetries(e: Entry, v: Event)
    requires v.Tick? && TickSource(e, v.intervalMinutes, v.now, v.free).decision.Retry?
    ensures e.record.Some? && Failing(e.record.value)
  {
    hide Normal, Failing, TickFailing, Read, AutoDue, SucceededSince;
  }

  /** No retry escapes the count: the one a tick decides on is the last of the episode it leaves. */
  lemma RetriesAreCounted(w: World, v: Event)
    requires Valid(w) && v.Tick? && TickSource(w.entry, v.intervalMinutes, v.now, v.free).decision.Retry?
    ensures var ep := Next(w, v).current;
      ep.Some? && ep.value.retries != [] && ep.value.retries[|ep.value.retries| - 1] == v.now
  {
    hide Valid, Failing, Effective, TickSource, Read, Started, NewState;
    OnlyFailingRetries(w.entry, v);
    FailingLeavesState(w, v);
  }

  lemma FailingLeavesState(w: World, v: Event)
    requires Valid(w) && v.Tick? && w.entry.record.Some? && Failing(w.entry.record.value)
    ensures Effective(NextEntry(w.entry, v), 0.0).Some?
    ensures w.current.Some? || Started(w.entry, v).Some?
  {
    hide Agrees, Effective, WithinBudget, Tracks, Normal, Read, Written, Failing,
      RetryableStatus, RetryableCode, StateFor, StartsState;
    var e := w.entry;
    var r := e.record.value;
    var known := Read(r, e.remembered, v.now);
    FailingIsNotActive(r);
    ReadingAgrees(e, v.now);
    EffectiveIsWritten(e, v.now);
    FailingTick(e.(remembered := known), known, r.errorCode, v.now, v.free, w.current);
    NewStateStarts(known, Normal(r.errorCode), r, v.now);
    TickOfFailing(e, v);
  }

  // ---------------------------------------------------------------- when an episode ends

  /** What keeps an episode going: for ticks, what they see; for the rest, that a copy of the state is left. */
  predicate KeepsEpisode(e: Entry, ep: Episode, v: Event) {
    match v
    case Tick(_, _, _) =>
      && e.record.Some?
      && if Failing(e.record.value) then Normal(e.record.value.errorCode) == ep.signature
         else Normal(e.record.value.status) == "active" &&
              (e.record.value.lastSuccessAt.Some? ==> e.record.value.lastSuccessAt.value <= ep.firstFailedAt)
    case SetState(_, _) => true
    case Restart => e.record.Some? && e.record.value.retryMetadata.Some?
    case _ => e.remembered.Some?
  }

  ghost predicate GoesOn(w: World, v: Event) {
    Next(w, v).current.Some? && Next(w, v).ended == w.ended
  }

  /**
   An episode goes on exactly as long as ticks see its failure, or an active source without a
   newer success. In particular a restart keeps it, and so does every state write by itself;
   a tick that sees any other status, such as a refresh still under way, ends it.
   */
  lemma EpisodeGoesOn(w: World, v: Event)
    requires Valid(w) && w.current.Some?
    ensures GoesOn(w, v) <==> KeepsEpisode(w.entry, w.current.value, v)
  {
    var e := w.entry;
    EffectiveIsWritten(e, 0.0);
    if v.Tick? && e.record.Some? {
      EffectiveIsWritten(e, v.now);
      if Failing(e.record.value) {
        FailingLeavesState(w, v);
        hide *;
        FailingGoesOn(w, v);
      } else {
        hide *;
        QuietGoesOn(w, v);
      }
    } else {
      hide *;
      OtherGoesOn(w, v);
    }
  }

  lemma FailingGoesOn(w: World, v: Event)
    requires Valid(w) && w.current.Some? && v.Tick? && w.entry.record.Some? && Failing(w.entry.record.value)
    ensures GoesOn(w, v) <==> KeepsEpisode(w.entry, w.current.value, v)
  {
    hide Normal, Agrees, Failing, WithinBudget, Written, NextEntry, Effective, Read, TickSource;
    EffectiveIsRead(w.entry, v.now);
    FailingLeavesState(w, v);
  }

  lemma EffectiveIsRead(e: Entry, now: Time)
    requires Agrees(e) && e.record.Some?
    ensures Read(e.record.value, e.remembered, now) == Effective(e, 0.0)
  {
    hide Agrees, Read;
    EffectiveIsWritten(e, now);
  }

  lemma QuietGoesOn(w: World, v: Event)
    requires Valid(w) && w.current.Some? && v.Tick? && w.entry.record.Some? && !Failing(w.entry.record.value)
    ensures GoesOn(w, v) <==> KeepsEpisode(w.entry, w.current.value, v)
  {
    hide Normal, Agrees, Failing, WithinBudget, Written, Effective, Read, Clear, AutoDue;
    var e := w.entry;
    var e1 := e.(remembered := Read(e.record.value, e.remembered, v.now));
    EffectiveIsRead(e, v.now);
    ReadingAgrees(e, v.now);
    ClearForgets(e1);
  }

  lemma OtherGoesOn(w: World, v: Event)
    requires Valid(w) && w.current.Some? && (v.Tick? ==> w.entry.record.None?)
    ensures GoesOn(w, v) <==> KeepsEpisode(w.entry, w.current.value, v)
  {
    hide Agrees, Effective, WithinBudget, Tracks, Normal, Failing, NextEntry, Written, Read;
    OtherEntryKeeps(w.entry, v);
    assert v.Tick? ==> Started(w.entry, v).None?;
  }

  /** Without a tick that sees a record, the state is left exactly if a copy of it is left. */
  lemma OtherEntryKeeps(e: Entry, v: Event)
    requires Agrees(e) && Effective(e, 0.0).Some? && (v.Tick? ==> e.record.None?)
    ensures Effective(NextEntry(e, v), 0.0).Some? <==>
      match v {
        case Tick(_, _, _) => false
        case SetState(_, _) => true
        case Restart => e.record.Some? && e.record.value.retryMetadata.Some?
        case _ => e.remembered.Some?
      }
  {
    hide Written, Normal;
    match v {
      case SetState(write, now) =>
        RecordWriteAgrees(e, WithState(if e.record.Some? then e.record.value else NoRecord, write, now));
      case Upsert(data, now) =>
        RecordWriteAgrees(e, Upserted(data, now).record);
      case SetError(message, now) =>
        RecordWriteAgrees(e, Errored(message, now).record);
      case Delete =>
      case Restart =>
        RestartKeeps(e);
      case Tick(_, _, _) =>
        ClearForgets(e);
    }
  }

  lemma RestartKeeps(e: Entry)
    requires Agrees(e)
    ensures Effective(e.(remembered := None), 0.0) ==
      if e.record.Some? && e.record.value.retryMetadata.Some? then Effective(e, 0.0) else None
  {
    if e.record.Some? && e.record.value.retryMetadata.Some? {
      var st :| Written(st) && e.record.value.retryMetadata == Some(ToMetadata(st));
      ReadOfWritten(e.record.value, st, e.remembered, 0.0);
      ReadOfWritten(e.record.value, st, None, 0.0);
    }
    hide Written;
  }

  // ---------------------------------------------------------------- a whole stretch of one episode

  ghost function RunFrom(w: World, events: seq<Event>): World
    decreases |events|
  {
    if events == [] then w else RunFrom(Next(w, events[0]), events[1..])
  }

  /** Every event on the way keeps the episode. */
  ghost predicate KeepsThroughout(w: World, events: seq<Event>)
    decreases |events|
  {
    && w.current.Some?
    && (events == [] ||
        (KeepsEpisode(w.entry, w.current.value, events[0]) && KeepsThroughout(Next(w, events[0]), events[1..])))
  }

  /** The same episode, with more retries or as many. */
  ghost predicate Extends(ep: Episode, later: Episode) {
    later.signature == ep.signature && later.firstFailedAt == ep.firstFailedAt && ep.retries <= later.retries
  }

  /** An event that does not end the episode leaves it the same one. */
  lemma GoingOnExtends(w: World, v: Event)
    requires w.current.Some?
    ensures |w.ended| <= |Next(w, v).ended|
    ensures GoesOn(w, v) ==> Extends(w.current.value, Next(w, v).current.value)
    ensures !GoesOn(w, v) ==> |w.ended| < |Next(w, v).ended|
  {
    hide NextEntry, Started, Effective, TickSource;
  }

  lemma EndedGrows(w: World, v: Event)
    ensures |w.ended| <= |Next(w, v).ended|
  {
    hide NextEntry, Started, Effective, TickSource;
  }

  lemma {:induction false} RunEndedGrows(w: World, events: seq<Event>)
    ensures |w.ended| <= |RunFrom(w, events).ended|
    decreases |events|
  {
    if events != [] {
      hide Next;
      EndedGrows(w, events[0]);
      RunEndedGrows(Next(w, events[0]), events[1..]);
    }
  }

  /** Over any run, the episode has not ended exactly if every event on the way kept it. */
  lemma {:induction false} EpisodeGoesOnThroughout(w: World, events: seq<Event>)
    requires Valid(w) && w.current.Some?
    ensures |RunFrom(w, events).ended| == |w.ended| <==> KeepsThroughout(w, events)
    decreases |events|
  {
    if events != [] {
      hide Next, Valid, KeepsEpisode, GoesOn;
      var w' := Next(w, events[0]);
      EventKeepsBudget(w, events[0]);
      EpisodeGoesOn(w, events[0]);
      GoingOnExtends(w, events[0]);
      RunEndedGrows(w', events[1..]);
      if GoesOn(w, events[0]) {
        StillCurrent(w, events[0]);
        EpisodeGoesOnThroughout(w', events[1..]);
      }
    }
  }

  lemma StillCurrent(w: World, v: Event)
    requires GoesOn(w, v)
    ensures Next(w, v).current.Some? && Next(w, v).ended == w.ended
  {
  }

  /**
   As long as the episode goes on it is one and the same: its retries only extend, and all of
   them together are at most three, spaced 60, 180 and 600 seconds at least, across restarts too.
   */
  lemma {:induction false} BudgetThroughout(w: World, events: seq<Event>)
    requires Valid(w) && KeepsThroughout(w, events)
    ensures var w' := RunFrom(w, events);
      && w'.current.Some? && w'.ended == w.ended
      && Extends(w.current.value, w'.current.value) && WithinBudget(w'.current.value)
    decreases |events|
  {
    if events != [] {
      hide Next, Valid, KeepsEpisode, GoesOn, WithinBudget;
      EventKeepsBudget(w, events[0]);
      EpisodeGoesOn(w, events[0]);
      GoingOnExtends(w, events[0]);
      StillCurrent(w, events[0]);
      BudgetThroughout(Next(w, events[0]), events[1..]);
    } else {
      hide Next, KeepsEpisode;
    }
  }

  // ---------------------------------------------------------------- a run whose backoff starts over

  /** A write of a failure that is worth retrying. */
  ghost predicate WritesFailure(write: StateWrite) {
    RetryableStatus(Normal(Some(write.status))) && write.errorCode.Some? && RetryableCode(Normal(write.errorCode))
  }

  /** A write of a refresh under way, or of anything else that is neither a failure nor active. */
  ghost predicate WritesUnderWay(write: StateWrite) {
    Normal(Some(write.status)) != "active" && !RetryableStatus(Normal(Some(write.status)))
  }

  const NetworkTimeout := StateWrite("error", None, None, None, Some("runtime.network_timeout"))

  const Refreshing := StateWrite("refreshing", None, None, None, None)

  lemma PlainIsNormal(s: string)
    requires s != "" && forall i :: 0 <= i < |s| ==> 'a' <= s[i] <= 'z' || s[i] == '.' || s[i] == '_'
    ensures Normal(Some(s)) == s
  {
    TrimOfTrimmed(s, TemplateSyntax.IsSpace);
    assert Lower(s) == s;
  }

  /** The writes of a time-out and of a refresh are of these kinds. */
  lemma WritesOfARefresh()
    ensures WritesFailure(NetworkTimeout) && WritesUnderWay(Refreshing)
  {
    hide Normal;
    PlainIsNormal("error");
    PlainIsNormal("runtime.network_timeout");
    PlainIsNormal("refreshing");
  }

  /** A failing record without a retry state: the tick a minute after the failure starts an episode and retries at once. */
  lemma FirstTick(w: World, t: Time)
    requires Valid(w) && w.current == None && w.entry.record.Some? && Failing(w.entry.record.value)
    requires w.entry.record.value.updatedAt == Some(t)
    ensures var w' := Next(w, Tick(0, t + 60.0, true));
      w'.ended == w.ended && w'.current == Some(Episode(Normal(w.entry.record.value.errorCode), t, [t + 60.0]))
  {
    hide Normal, Agrees, Failing, WithinBudget, Written, Tracks, Effective, Read;
    var tick := Tick(0, t + 60.0, true);
    EffectiveIsRead(w.entry, t + 60.0);
    FailingLeavesState(w, tick);
    TickOfFailing(w.entry, tick);
    assert [] + [t + 60.0] == [t + 60.0];
  }

  /** The record after a failure was written. */
  lemma FailureRecord(r: Record, write: StateWrite, t: Time)
    requires WritesFailure(write)
    ensures var r' := WithState(r, write, t);
      Failing(r') && r'.updatedAt == Some(t) && Normal(r'.errorCode) == Normal(write.errorCode)
  {
    hide Normal, RetryableStatus, RetryableCode;
  }

  /** The record while a refresh is under way: no failure, and not active. */
  lemma RefreshRecord(r: Record, write: StateWrite, t: Time)
    requires WritesUnderWay(write)
    ensures var r' := WithState(r, write, t);
      !Failing(r') && Normal(r'.status) != "active"
  {
    hide Normal, RetryableStatus, RetryableCode;
  }

  /** A state write starts and ends nothing. */
  lemma StateWritten(w: World, write: StateWrite, t: Time)
    requires Valid(w)
    ensures var w' := Next(w, SetState(write, t));
      && Valid(w') && w'.current == w.current && w'.ended == w.ended
      && w'.entry.record == Some(WithState(if w.entry.record.Some? then w.entry.record.value else NoRecord, write, t))
  {
    var v := SetState(write, t);
    EventKeepsBudget(w, v);
    if w.current.Some? {
      EpisodeGoesOn(w, v);
    }
    hide Valid, Effective, WithState;
  }

  /** A tick that finds the refresh still under way forgets the retry state. */
  lemma RefreshSeen(w: World, now: Time)
    requires Valid(w) && w.current.Some? && w.entry.record.Some?
    requires !Failing(w.entry.record.value) && Normal(w.entry.record.value.status) != "active"
    ensures var w' := Next(w, Tick(0, now, true));
      Valid(w') && w'.current == None && w'.ended == w.ended + [w.current.value]
  {
    hide Normal, Valid, Effective, Failing, TickSource, Started;
    var tick := Tick(0, now, true);
    EventKeepsBudget(w, tick);
    EpisodeGoesOn(w, tick);
    NoStart(w.entry, tick);
  }

  lemma NoStart(e: Entry, v: Event)
    requires v.Tick? && e.record.Some? && !Failing(e.record.value)
    ensures Started(e, v) == None && !TickSource(e, v.intervalMinutes, v.now, v.free).decision.Retry?
  {
    hide Normal, Failing, Read, AutoDue;
  }

  /**
   A run whose backoff starts over, whatever the failure. The source never succeeds; its first
   retry is picked up and waits to run, a tick sees it refreshing, it fails again. The next
   retry comes 75 seconds after the first, not 180: the budget holds for each episode, not for
   the failure as a whole.
   */
  lemma BackoffStartsOver(failure: StateWrite, underWay: StateWrite)
    requires WritesFailure(failure) && WritesUnderWay(underWay)
    ensures var code := Normal(failure.errorCode);
      var w := After([
        SetState(failure, 0.0), Tick(0, 60.0, true),
        SetState(underWay, 61.0), Tick(0, 70.0, true),
        SetState(failure, 75.0), Tick(0, 135.0, true)]);
      w.ended == [Episode(code, 0.0, [60.0])] && w.current == Some(Episode(code, 75.0, [135.0]))
  {
    hide Next, Valid, After, Failing, Normal, WritesFailure, WritesUnderWay, WithState, Effective, Agrees;
    var fail0, tick0 := SetState(failure, 0.0), Tick(0, 60.0, true);
    var refresh, seen := SetState(underWay, 61.0), Tick(0, 70.0, true);
    var fail1, tick1 := SetState(failure, 75.0), Tick(0, 135.0, true);
    var w1 := Next(Begin, fail0);
    var w2 := Next(w1, tick0);
    var w3 := Next(w2, refresh);
    var w4 := Next(w3, seen);
    var w5 := Next(w4, fail1);
    SixSteps(fail0, tick0, refresh, seen, fail1, tick1);
    BeginIsValid();
    StateWritten(Begin, failure, 0.0);
    FailureRecord(NoRecord, failure, 0.0);
    FirstTick(w1, 0.0);
    EventKeepsBudget(w1, tick0);
    TickKeepsRecord(w1, tick0);
    StateWritten(w2, underWay, 61.0);
    RefreshRecord(w2.entry.record.value, underWay, 61.0);
    RefreshSeen(w3, 70.0);
    TickKeepsRecord(w3, seen);
    StateWritten(w4, failure, 75.0);
    FailureRecord(w4.entry.record.value, failure, 75.0);
    FirstTick(w5, 75.0);
  }

  lemma TickKeepsRecord(w: World, v: Event)
    requires v.Tick? && w.entry.record.Some?
    ensures Next(w, v).entry.record.Some?
  {
    hide Normal, Read, AutoDue, SucceededSince, Failing, Started, Effective;
  }

  lemma BeginIsValid()
    ensures After([]) == Begin && Valid(Begin)
  {
    RetryBudget([]);
  }

  lemma AfterOneMore(events: seq<Event>, v: Event)
    ensures After(events + [v]) == Next(After(events), v)
  {
    hide Next;
    assert (events + [v])[..|events + [v]| - 1] == events;
  }

  lemma SixSteps(a: Event, b: Event, c: Event, d: Event, e: Event, f: Event)
    ensures After([a, b, c, d, e, f]) == Next(Next(Next(Next(Next(Next(Begin, a), b), c), d), e), f)
  {
    BeginIsValid();
    hide *;
    AfterOneMore([], a);
    AfterOneMore([a], b);
    AfterOneMore([a, b], c);
    AfterOneMore([a, b, c], d);
    AfterOneMore([a, b, c, d], e);
    AfterOneMore([a, b, c, d, e], f);
    assert [] + [a] == [a] && [a] + [b] == [a, b] && [a, b] + [c] == [a, b, c];
    assert [a, b, c] + [d] == [a, b, c, d] && [a, b, c, d] + [e] == [a, b, c, d, e];
    assert [a, b, c, d, e] + [f] == [a, b, c, d, e, f];
  }
}
