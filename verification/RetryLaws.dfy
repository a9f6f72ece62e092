/**
 When a tick retries or refreshes a source, told by the episode, the clock and the words in the
 record; and a run in which all three retries happen, as early as they may.
 */
module RetryLaws {
  import opened Wrappers
  import opened Text
  import opened RuntimeTable
  import opened RetryPolicy
  import TemplateSyntax
  import TemplateShapes

  /** The text is this word, white space around it and capital letters aside; no text is the empty word. */
  ghost predicate Told(text: Option<string>, word: string) {
    match text
    case None => word == ""
    case Some(s) => exists core :: TemplateShapes.Padded(s, core) && Lower(core) == word
  }

  lemma ToldExactly(text: Option<string>, word: string)
    ensures Normal(text) == word <==> Told(text, word)
  {
    if text.Some? {
      hide Trim, TemplateShapes.Padded;
      var s := text.value;
      TemplateShapes.PaddedExactly(s, Trim(s, TemplateSyntax.IsSpace));
      forall core | TemplateShapes.Padded(s, core) ensures core == Trim(s, TemplateSyntax.IsSpace) {
        TemplateShapes.PaddedExactly(s, core);
      }
    }
  }

  /** The record tells of a failure that is worth retrying, with this error code. */
  ghost predicate FailsWith(r: Record, code: string) {
    && (Told(r.status, "error") || Told(r.status, "suspended"))
    && (code == "runtime.network_timeout" || code == "runtime.retry_required") && Told(r.errorCode, code)
  }

  lemma FailsExactly(r: Record, code: string)
    ensures FailsWith(r, code) <==> Failing(r) && Normal(r.errorCode) == code
  {
    hide Normal, Told;
    ToldExactly(r.status, "error");
    ToldExactly(r.status, "suspended");
    ToldExactly(r.errorCode, code);
  }

  // ---------------------------------------------------------------- retries

  /** The next retry of the episode is due: 60 s after the failure, 180 s after the first retry, 600 s after the second. */
  ghost predicate DueIn(ep: Episode, now: Time) {
    || (|ep.retries| == 0 && now >= ep.firstFailedAt + 60.0)
    || (|ep.retries| == 1 && now >= ep.retries[0] + 180.0)
    || (|ep.retries| == 2 && now >= ep.retries[1] + 600.0)
  }

  /** The episode a tick on this failure works on: the current one if it has the code, else a new one. */
  ghost function EpisodeOf(w: World, r: Record, code: string, now: Time): Episode {
    if w.current.Some? && w.current.value.signature == code then w.current.value
    else Episode(code, if r.updatedAt.Some? then r.updatedAt.value else now, [])
  }

  lemma DueOfTracked(st: RetryState, ep: Episode, now: Time)
    requires Written(st) && Tracks(st, ep)
    ensures Due(st, now) <==> DueIn(ep, now)
  {
    hide Normal;
  }

  lemma DueOfNew(code: string, r: Record, now: Time)
    ensures Due(NewState(code, r, now), now) <==>
      DueIn(Episode(code, if r.updatedAt.Some? then r.updatedAt.value else now, []), now)
  {
  }

  /** What a tick starts from: the state found belongs to the current episode. */
  lemma StateOfEpisode(w: World, r: Record, code: string, now: Time)
    requires Valid(w) && w.entry.record == Some(r)
    ensures var known := Read(r, w.entry.remembered, now);
      && (known.Some? <==> w.current.Some?)
      && (known.Some? ==> Written(known.value) && Tracks(known.value, w.current.value))
      && (StartsState(known, code) <==> !(w.current.Some? && w.current.value.signature == code))
  {
    hide Normal, Agrees, WithinBudget, Read;
    EffectiveIsRead(w.entry, now);
    EffectiveIsWritten(w.entry, now);
    hide Effective, Written;
  }

  /**
   A failing source is retried exactly if it is neither queued nor in flight and the next retry
   of its episode is due; nothing else is decided for it.
   */
  lemma RetryExactly(w: World, r: Record, code: string, intervalMinutes: int, now: Time, free: bool)
    requires Valid(w) && w.entry.record == Some(r) && FailsWith(r, code)
    ensures TickSource(w.entry, intervalMinutes, now, free).decision ==
      if free && DueIn(EpisodeOf(w, r, code, now), now) then Retry(code) else Nothing
  {
    FailsExactly(r, code);
    StateOfEpisode(w, r, code, now);
    TickOfFailing(w.entry, Tick(intervalMinutes, now, free));
    hide Valid, Read, Normal, Failing, FailsWith, TickSource, Written, Tracks, Due, DueIn, Write, AfterRetry;
    var known := Read(r, w.entry.remembered, now);
    DueOfNew(code, r, now);
    if known.Some? {
      DueOfTracked(known.value, w.current.value, now);
    }
    hide NewState;
  }

  /** And it leaves the episode it worked on, with this retry if it made one. */
  lemma EpisodeExactly(w: World, r: Record, code: string, intervalMinutes: int, now: Time, free: bool)
    requires Valid(w) && w.entry.record == Some(r) && FailsWith(r, code)
    ensures var ep := EpisodeOf(w, r, code, now);
      Next(w, Tick(intervalMinutes, now, free)).current ==
        Some(if free && DueIn(ep, now) then ep.(retries := ep.retries + [now]) else ep)
    ensures Next(w, Tick(intervalMinutes, now, free)).ended ==
      if w.current.Some? && w.current.value.signature != code then w.ended + [w.current.value] else w.ended
  {
    hide *;
    var v := Tick(intervalMinutes, now, free);
    RetryExactly(w, r, code, intervalMinutes, now, free);
    FailsExactly(r, code);
    StateOfEpisode(w, r, code, now);
    FailingLeavesState(w, v);
    StartedExactly(w, r, code, v);
    NextOfTick(w, v);
    EpisodeUnfolds(w, r, code, now);
  }

  lemma EpisodeUnfolds(w: World, r: Record, code: string, now: Time)
    ensures EpisodeOf(w, r, code, now) ==
      if w.current.Some? && w.current.value.signature == code then w.current.value
      else Episode(code, NewState(code, r, now).firstFailedAt, [])
    ensures NewState(code, r, now).signature == code
  {
  }

  /** The state a tick starts, on a failure that the current episode does not cover. */
  lemma StartedExactly(w: World, r: Record, code: string, v: Event)
    requires v.Tick? && w.entry.record == Some(r) && Failing(r) && Normal(r.errorCode) == code
    ensures Started(w.entry, v) ==
      if StartsState(Read(r, w.entry.remembered, v.now), code) then Some(NewState(code, r, v.now)) else None
  {
    hide Normal, Failing, Read, NewState, StartsState;
  }

  /** The next world, when a retry state is left. */
  lemma NextOfTick(w: World, v: Event)
    requires v.Tick? && Effective(NextEntry(w.entry, v), 0.0).Some? && (w.current.Some? || Started(w.entry, v).Some?)
    ensures var started := Started(w.entry, v);
      var retried := TickSource(w.entry, v.intervalMinutes, v.now, v.free).decision.Retry?;
      var ep := if started.Some? then Episode(started.value.signature, started.value.firstFailedAt, []) else w.current.value;
      && Next(w, v).current == Some(if retried then ep.(retries := ep.retries + [v.now]) else ep)
      && Next(w, v).ended == if w.current.Some? && started.Some? then w.ended + [w.current.value] else w.ended
  {
    hide Started, TickSource, Effective, NextEntry;
  }

  // ---------------------------------------------------------------- automatic refreshes

  /** The last success, or if none is recorded the last write, is at least the interval ago. */
  ghost predicate Stale(r: Record, intervalMinutes: int, now: Time) {
    && intervalMinutes > 0
    && (exists last :: (r.lastSuccessAt == Some(last) || (r.lastSuccessAt == None && r.updatedAt == Some(last))) &&
         now - last >= intervalMinutes as real * 60.0)
  }

  lemma StaleExactly(r: Record, intervalMinutes: int, now: Time)
    ensures AutoDue(r, intervalMinutes, now) <==> Stale(r, intervalMinutes, now)
  {
    assert (intervalMinutes * 60) as real == intervalMinutes as real * 60.0;
  }

  /** A source that does not fail is refreshed exactly if it is active, free and stale; it is never retried. */
  lemma AutoExactly(e: Entry, intervalMinutes: int, now: Time, free: bool)
    requires e.record.Some? ==> forall code :: !FailsWith(e.record.value, code)
    ensures TickSource(e, intervalMinutes, now, free).decision ==
      if e.record.Some? && Told(e.record.value.status, "active") && free && Stale(e.record.value, intervalMinutes, now)
      then Auto else Nothing
  {
    if e.record.Some? {
      var r := e.record.value;
      FailsExactly(r, Normal(r.errorCode));
      ToldExactly(r.status, "active");
      StaleExactly(r, intervalMinutes, now);
      hide Normal, Failing, FailsWith, Told, AutoDue, Stale, Read, SucceededSince, Clear;
    }
  }

  // ---------------------------------------------------------------- all three retries

  /** A failure with this code, and the episode it belongs to. */
  ghost predicate Failed(w: World, code: string, ep: Episode) {
    && Valid(w) && w.entry.record.Some? && FailsWith(w.entry.record.value, code)
    && w.current == Some(ep) && ep.signature == code && w.ended == []
  }

  lemma FailsAgain(w: World, failure: StateWrite, code: string, ep: Episode, t: Time)
    requires Valid(w) && w.current == Some(ep) && ep.signature == code && w.ended == []
    requires WritesFailure(failure) && Normal(failure.errorCode) == code
    ensures Failed(Next(w, SetState(failure, t)), code, ep)
  {
    StateWritten(w, failure, t);
    var before := if w.entry.record.Some? then w.entry.record.value else NoRecord;
    FailureRecord(before, failure, t);
    FailsExactly(WithState(before, failure, t), code);
    hide *;
  }

  lemma RetriesAgain(w: World, code: string, ep: Episode, now: Time)
    requires Failed(w, code, ep) && DueIn(ep, now)
    ensures var w' := Next(w, Tick(0, now, true));
      Valid(w') && w'.current == Some(ep.(retries := ep.retries + [now])) && w'.ended == []
  {
    hide Valid, Next, FailsWith, DueIn;
    EventKeepsBudget(w, Tick(0, now, true));
    EpisodeExactly(w, w.entry.record.value, code, 0, now, true);
  }

  lemma FirstRetry(failure: StateWrite, code: string)
    requires WritesFailure(failure) && Normal(failure.errorCode) == code
    ensures var w := Next(Next(Begin, SetState(failure, 0.0)), Tick(0, 60.0, true));
      Valid(w) && w.current == Some(Episode(code, 0.0, [60.0])) && w.ended == []
  {
    hide Valid, Next, WritesFailure, Normal, WithState, Failing;
    var w := Next(Begin, SetState(failure, 0.0));
    BeginIsValid();
    StateWritten(Begin, failure, 0.0);
    FailureRecord(NoRecord, failure, 0.0);
    FirstTick(w, 0.0);
    EventKeepsBudget(w, Tick(0, 60.0, true));
  }

  lemma RunOfEight(a: Event, b: Event, c: Event, d: Event, e: Event, f: Event, g: Event, h: Event)
    ensures After([a, b, c, d, e, f, g, h]) == Next(Next(Next(Next(Next(Next(Next(Next(Begin, a), b), c), d), e), f), g), h)
  {
    hide *;
    SixSteps(a, b, c, d, e, f);
    AfterOneMore([a, b, c, d, e, f], g);
    AfterOneMore([a, b, c, d, e, f, g], h);
    assert [a, b, c, d, e, f] + [g] == [a, b, c, d, e, f, g];
    assert [a, b, c, d, e, f, g] + [h] == [a, b, c, d, e, f, g, h];
  }

  /** A source that keeps failing is retried at 60, 240 and 840 seconds, each as early as it may, and then no more. */
  lemma ThreeRetries(failure: StateWrite, late: Time)
    requires WritesFailure(failure) && late >= 900.0
    ensures var code := Normal(failure.errorCode);
      var w := After([
        SetState(failure, 0.0), Tick(0, 60.0, true), SetState(failure, 65.0), Tick(0, 240.0, true),
        SetState(failure, 245.0), Tick(0, 840.0, true), SetState(failure, 845.0), Tick(0, late, true)]);
      w.ended == [] && w.current == Some(Episode(code, 0.0, [60.0, 240.0, 840.0]))
  {
    var code := Normal(failure.errorCode);
    hide Valid, Next, After, WritesFailure, Normal, Failed, FailsWith;
    RunOfEight(
      SetState(failure, 0.0), Tick(0, 60.0, true), SetState(failure, 65.0), Tick(0, 240.0, true),
      SetState(failure, 245.0), Tick(0, 840.0, true), SetState(failure, 845.0), Tick(0, late, true));
    var w2 := Next(Next(Begin, SetState(failure, 0.0)), Tick(0, 60.0, true));
    FirstRetry(failure, code);
    var ep1 := Episode(code, 0.0, [60.0]);
    FailsAgain(w2, failure, code, ep1, 65.0);
    var w3 := Next(w2, SetState(failure, 65.0));
    RetriesAgain(w3, code, ep1, 240.0);
    var ep2 := Episode(code, 0.0, [60.0, 240.0]);
    assert [60.0] + [240.0] == [60.0, 240.0];
    var w4 := Next(w3, Tick(0, 240.0, true));
    FailsAgain(w4, failure, code, ep2, 245.0);
    var w5 := Next(w4, SetState(failure, 245.0));
    RetriesAgain(w5, code, ep2, 840.0);
    var ep3 := Episode(code, 0.0, [60.0, 240.0, 840.0]);
    assert [60.0, 240.0] + [840.0] == [60.0, 240.0, 840.0];
    var w6 := Next(w5, Tick(0, 840.0, true));
    FailsAgain(w6, failure, code, ep3, 845.0);
    NoFourth(Next(w6, SetState(failure, 845.0)), code, ep3, late);
  }

  lemma NoFourth(w: World, code: string, ep: Episode, now: Time)
    requires Failed(w, code, ep) && |ep.retries| == 3
    ensures var w' := Next(w, Tick(0, now, true)); w'.current == Some(ep) && w'.ended == []
  {
    hide Valid, Next, FailsWith, DueIn;
    EpisodeExactly(w, w.entry.record.value, code, 0, now, true);
    NotDueAfterThree(ep, now);
  }

  lemma NotDueAfterThree(ep: Episode, now: Time)
    requires |ep.retries| == 3
    ensures !DueIn(ep, now)
  {
  }
}
