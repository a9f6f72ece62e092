/**
 The refresh scheduler: one tick over all sources, a queue without duplicates, and workers
 that take sources from it. Every method is what runs between two await points, so whatever
 a method keeps holds at every await point of any interleaving.
 */
module RefreshScheduler {
  import opened Wrappers
  import opened RuntimeTable
  import opened RetryPolicy

  /** Where a worker coroutine is suspended. */
  datatype Worker = Waiting | Refreshing(id: string) | Ended

  /** A stored source, with the refresh interval in effect for it. */
  datatype Source = Source(id: string, intervalMinutes: int)

  datatype Job = Job(id: string, reason: string)

  function ReasonOf(d: Decision): string
    requires !d.Nothing?
  {
    if d.Auto? then "auto" else "retry:" + d.code
  }

  /** The retry-related state of one source. */
  function EntryOf(rows: Table, remembered: map<string, RetryState>, id: string): Entry {
    Entry(if id in rows then Some(rows[id].record) else None, if id in remembered then Some(remembered[id]) else None)
  }

  /** Only this source's entry may differ. */
  ghost predicate SameBut(
    rows: Table, remembered: map<string, RetryState>, rows': Table, remembered': map<string, RetryState>, id: string)
  {
    rows - {id} == rows' - {id} && remembered - {id} == remembered' - {id}
  }

  lemma SameButSelf(rows: Table, remembered: map<string, RetryState>, id: string)
    ensures SameBut(rows, remembered, rows, remembered, id)
  {
  }

  lemma SameButAgain(
    rows: Table, remembered: map<string, RetryState>, rows': Table, remembered': map<string, RetryState>,
    rows'': Table, remembered'': map<string, RetryState>, id: string)
    requires SameBut(rows, remembered, rows', remembered', id) && SameBut(rows', remembered', rows'', remembered'', id)
    ensures SameBut(rows, remembered, rows'', remembered'', id)
  {
  }

  lemma OtherEntries(
    rows: Table, remembered: map<string, RetryState>, rows': Table, remembered': map<string, RetryState>, id: string, k: string)
    requires SameBut(rows, remembered, rows', remembered', id) && k != id
    ensures EntryOf(rows, remembered, k) == EntryOf(rows', remembered', k)
  {
    assert k in rows - {id} <==> k in rows;
    assert k in rows' - {id} <==> k in rows';
    assert k in remembered - {id} <==> k in remembered;
    assert k in remembered' - {id} <==> k in remembered';
  }

  ghost predicate DistinctIds(sources: seq<Source>) {
    forall i, j :: 0 <= i < j < |sources| ==> sources[i].id != sources[j].id
  }

  /** A source's share of a tick that began with these tables; `busy` are the sources queued or in flight. */
  ghost function Share(source: Source, rows: Table, remembered: map<string, RetryState>, busy: set<string>, now: Time): Ticked {
    TickSource(EntryOf(rows, remembered, source.id), source.intervalMinutes, now, source.id !in busy)
  }

  /** The jobs a tick adds, in the order of the sources. */
  ghost function JobsOf(
    sources: seq<Source>, rows: Table, remembered: map<string, RetryState>, busy: set<string>, now: Time): seq<Job>
  {
    if sources == [] then []
    else
      var last := sources[|sources| - 1];
      var d := Share(last, rows, remembered, busy, now).decision;
      JobsOf(sources[..|sources| - 1], rows, remembered, busy, now) +
      if d.Nothing? then [] else [Job(last.id, ReasonOf(d))]
  }

  lemma JobsOfNext(sources: seq<Source>, i: nat, rows: Table, remembered: map<string, RetryState>, busy: set<string>, now: Time)
    requires i < |sources|
    ensures var d := Share(sources[i], rows, remembered, busy, now).decision;
      JobsOf(sources[..i + 1], rows, remembered, busy, now) ==
      JobsOf(sources[..i], rows, remembered, busy, now) + if d.Nothing? then [] else [Job(sources[i].id, ReasonOf(d))]
  {
    hide Share;
    assert sources[..i + 1][..i] == sources[..i];
  }

  ghost function IdsOf(queue: seq<Job>): set<string> {
    set i | 0 <= i < |queue| :: queue[i].id
  }

  ghost predicate DistinctJobs(queue: seq<Job>) {
    forall i, j :: 0 <= i < j < |queue| ==> queue[i].id != queue[j].id
  }

  /** The sources being refreshed. */
  ghost function BusyIds(workers: seq<Worker>): set<string> {
    set w | 0 <= w < |workers| && workers[w].Refreshing? :: workers[w].id
  }

  /** No two workers refresh the same source. */
  ghost predicate DistinctBusy(workers: seq<Worker>) {
    forall v, w :: 0 <= v < w < |workers| && workers[v].Refreshing? && workers[w].Refreshing? ==>
      workers[v].id != workers[w].id
  }

  lemma JobAdded(queue: seq<Job>, job: Job)
    requires DistinctJobs(queue) && job.id !in IdsOf(queue)
    ensures DistinctJobs(queue + [job]) && IdsOf(queue + [job]) == IdsOf(queue) + {job.id}
  {
    var after := queue + [job];
    assert forall i :: 0 <= i < |queue| ==> after[i] == queue[i];
    assert after[|queue|] == job;
  }

  lemma JobTaken(queue: seq<Job>)
    requires DistinctJobs(queue) && queue != []
    ensures queue[0].id in IdsOf(queue)
    ensures DistinctJobs(queue[1..]) && IdsOf(queue[1..]) == IdsOf(queue) - {queue[0].id}
  {
    var after := queue[1..];
    assert forall i :: 0 <= i < |after| ==> after[i] == queue[i + 1];
    forall i | 1 <= i < |queue| ensures queue[i].id in IdsOf(after) {
      assert after[i - 1] == queue[i];
    }
  }

  lemma WorkerTook(workers: seq<Worker>, w: nat, id: string)
    requires w < |workers| && workers[w].Waiting? && DistinctBusy(workers) && id !in BusyIds(workers)
    ensures DistinctBusy(workers[w := Refreshing(id)])
    ensures BusyIds(workers[w := Refreshing(id)]) == BusyIds(workers) + {id}
  {
    var after := workers[w := Refreshing(id)];
    assert after[w].Refreshing? && after[w].id == id;
    assert forall v :: 0 <= v < |workers| && v != w ==> after[v] == workers[v];
    forall v | 0 <= v < |workers| && workers[v].Refreshing? ensures workers[v].id in BusyIds(after) {
      assert after[v] == workers[v];
    }
  }

  lemma WorkerReleased(workers: seq<Worker>, w: nat, idle: Worker)
    requires w < |workers| && !idle.Refreshing? && DistinctBusy(workers)
    ensures DistinctBusy(workers[w := idle])
    ensures workers[w].Refreshing? ==> workers[w].id in BusyIds(workers)
    ensures BusyIds(workers[w := idle]) == BusyIds(workers) - if workers[w].Refreshing? then {workers[w].id} else {}
  {
    var after := workers[w := idle];
    assert forall v :: 0 <= v < |workers| && v != w ==> after[v] == workers[v];
    forall v | 0 <= v < |workers| && v != w && workers[v].Refreshing? ensures workers[v].id in BusyIds(after) {
      assert after[v] == workers[v];
    }
  }

  class Scheduler {
    const data: RuntimeRepository
    var queue: seq<Job>
    /** The unfinished-task counter of the queue object. */
    var unfinished: int
    var queuedIds: set<string>
    var inflightIds: set<string>
    var retryStates: map<string, RetryState>
    var started: bool
    var workers: seq<Worker>

    /** What holds at every await point. */
    ghost predicate Valid()
      reads this
    {
      && DistinctJobs(queue) && queuedIds == IdsOf(queue)
      && DistinctBusy(workers) && inflightIds == BusyIds(workers)
      && queuedIds !! inflightIds
      && unfinished == |queue| + |inflightIds|
    }

    /** What holds besides when neither `start` nor `stop` is under way: workers exist only after a start. */
    ghost predicate Settled()
      reads this
    {
      !started ==> workers == []
    }

    /** Nothing queued, in flight, remembered or unfinished. */
    ghost predicate AtRest()
      reads this
    {
      queue == [] && queuedIds == {} && inflightIds == {} && retryStates == map[] && unfinished == 0
    }

    constructor (data: RuntimeRepository)
      ensures Valid() && Settled() && AtRest() && this.data == data && !started
    {
      this.data := data;
      queue, unfinished, queuedIds, inflightIds := [], 0, {}, {};
      retryStates, started, workers := map[], false, [];
    }

    /** The queue object refuses to count below zero; here it never has to. */
    method TaskDone()
      requires unfinished > 0
      modifies this`unfinished
      ensures unfinished == old(unfinished) - 1
    {
      unfinished := unfinished - 1;
    }

    /** Starting again changes nothing. */
    method Start(n: nat)
      requires Valid() && Settled()
      modifies this`workers, this`started
      ensures Valid() && Settled() && started
      ensures workers == if old(started) then old(workers) else seq(n, _ => Waiting)
    {
      if started {
        return;
      }
      started := true;
      workers := seq(n, _ => Waiting);
    }

    /** A source goes into the queue unless it is there or being refreshed already. */
    method Enqueue(id: string, reason: string) returns (added: bool)
      requires Valid()
      modifies this`queue, this`queuedIds, this`unfinished
      ensures Valid()
      ensures added == (id !in old(queuedIds) + old(inflightIds))
      ensures queue == if added then old(queue) + [Job(id, reason)] else old(queue)
      ensures queuedIds == old(queuedIds) + if added then {id} else {}
    {
      hide DistinctJobs, IdsOf, DistinctBusy, BusyIds;
      if id in queuedIds || id in inflightIds {
        return false;
      }
      JobAdded(queue, Job(id, reason));
      queuedIds := queuedIds + {id};
      queue := queue + [Job(id, reason)];
      unfinished := unfinished + 1;
      return true;
    }

    /** A waiting worker gets a job. It always starts the refresh: the job's source is never in flight already. */
    method TakeJob(w: nat) returns (job: Job)
      requires Valid() && w < |workers| && workers[w].Waiting? && queue != []
      modifies this
      ensures Valid()
      ensures [job] + queue == old(queue) && retryStates == old(retryStates) && started == old(started)
      ensures queuedIds == old(queuedIds) - {job.id} && inflightIds == old(inflightIds) + {job.id}
      ensures job.id !in old(inflightIds)
      ensures workers == old(workers)[w := Refreshing(job.id)]
    {
      hide DistinctJobs, IdsOf, DistinctBusy, BusyIds;
      JobTaken(queue);
      job := queue[0];
      WorkerTook(workers, w, job.id);
      queue := queue[1..];
      queuedIds := queuedIds - {job.id};
      if job.id in inflightIds {
        assert false;
      } else {
        inflightIds := inflightIds + {job.id};
        workers := workers[w := Refreshing(job.id)];
      }
    }

    /** The refresh ended, normally or not. */
    method FinishJob(w: nat)
      requires Valid() && w < |workers| && workers[w].Refreshing?
      modifies this
      ensures Valid()
      ensures queue == old(queue) && queuedIds == old(queuedIds) && retryStates == old(retryStates)
      ensures started == old(started)
      ensures inflightIds == old(inflightIds) - {old(workers[w].id)}
      ensures workers == old(workers)[w := Waiting]
    {
      hide DistinctJobs, IdsOf, DistinctBusy, BusyIds;
      var id := workers[w].id;
      WorkerReleased(workers, w, Waiting);
      assert |inflightIds - {id}| == |inflightIds| - 1;
      inflightIds := inflightIds - {id};
      TaskDone();
      workers := workers[w := Waiting];
    }

    /** Cancelling a worker: one that is refreshing still runs its cleanup. */
    method CancelWorker(w: nat)
      requires Valid() && w < |workers|
      modifies this
      ensures Valid()
      ensures queue == old(queue) && queuedIds == old(queuedIds) && retryStates == old(retryStates)
      ensures started == old(started)
      ensures inflightIds == old(inflightIds) - if old(workers[w]).Refreshing? then {old(workers[w].id)} else {}
      ensures workers == old(workers)[w := Ended]
    {
      hide DistinctJobs, IdsOf, DistinctBusy, BusyIds;
      WorkerReleased(workers, w, Ended);
      if workers[w].Refreshing? {
        assert |inflightIds - {workers[w].id}| == |inflightIds| - 1;
        inflightIds := inflightIds - {workers[w].id};
        TaskDone();
      }
      workers := workers[w := Ended];
    }

    /** Stop after all workers have ended: everything is forgotten, and every queued job is accounted for. */
    method FinishStop()
      requires Valid() && forall w :: 0 <= w < |workers| ==> workers[w].Ended?
      modifies this
      ensures Valid() && AtRest() && workers == [] && started == old(started)
    {
      assert inflightIds == {};
      workers := [];
      queuedIds, inflightIds, retryStates := {}, {}, map[];
      while queue != []
        invariant unfinished == |queue| && started == old(started)
        invariant workers == [] && queuedIds == {} && inflightIds == {} && retryStates == map[]
        decreases |queue|
      {
        queue := queue[1..];
        TaskDone();
      }
    }

    /**
     Stop. A started scheduler cancels every worker and forgets everything; one that was not
     started is left as it is. So it ends at rest exactly if it was started, or at rest already.
     */
    method Stop()
      requires Valid() && Settled()
      modifies this
      ensures Valid() && Settled() && !started
      ensures old(started) ==> AtRest() && workers == []
      ensures !old(started) ==>
        && queue == old(queue) && queuedIds == old(queuedIds) && inflightIds == old(inflightIds)
        && retryStates == old(retryStates) && unfinished == old(unfinished) && workers == old(workers)
      ensures AtRest() <==> old(started) || old(AtRest())
    {
      if !started {
        return;
      }
      started := false;
      var w := 0;
      while w < |workers|
        invariant Valid() && 0 <= w <= |workers| && !started
        invariant forall v :: 0 <= v < w ==> workers[v].Ended?
      {
        CancelWorker(w);
        w := w + 1;
      }
      FinishStop();
    }

    // -------------------------------------------------------------- the tick

    /** The retry-related state of one source. */
    ghost function Entry(id: string): RetryPolicy.Entry
      reads this, data
    {
      EntryOf(data.rows, retryStates, id)
    }

    method WriteRetryState(id: string, st: RetryState, now: Time)
      modifies this`retryStates, data
      ensures Entry(id) == Write(old(Entry(id)), st)
      ensures SameBut(old(data.rows), old(retryStates), data.rows, retryStates, id)
    {
      retryStates := retryStates[id := st];
      data.SetRetryMetadata(id, Some(ToMetadata(st)), now);
    }

    method ClearRetryState(id: string, now: Time)
      modifies this`retryStates, data
      ensures Entry(id) == Clear(old(Entry(id)))
      ensures SameBut(old(data.rows), old(retryStates), data.rows, retryStates, id)
    {
      retryStates := retryStates - {id};
      data.SetRetryMetadata(id, None, now);
    }

    method ReadRetryState(id: string, record: Record, now: Time) returns (st: Option<RetryState>)
      requires Entry(id).record == Some(record)
      modifies this`retryStates
      ensures st == Read(record, old(Entry(id)).remembered, now)
      ensures Entry(id) == old(Entry(id)).(remembered := st)
      ensures SameBut(old(data.rows), old(retryStates), data.rows, retryStates, id)
    {
      hide Normal;
      var remembered := if id in retryStates then Some(retryStates[id]) else None;
      st := Read(record, remembered, now);
      if st.Some? {
        retryStates := retryStates[id := st.value];
      }
    }

    /** What a source's share of a tick does: its entry, and at most one job for it. */
    twostate predicate Did(id: string, t: Ticked)
      reads this, data
    {
      && Entry(id) == t.entry
      && queue == old(queue) + (if t.decision.Nothing? then [] else [Job(id, ReasonOf(t.decision))])
      && queuedIds == old(queuedIds) + (if t.decision.Nothing? then {} else {id})
      && inflightIds == old(inflightIds) && workers == old(workers) && started == old(started)
      && SameBut(old(data.rows), old(retryStates), data.rows, retryStates, id)
    }

    /** The state for this error code; a new one is written down at once. */
    method StartRetryState(id: string, record: Record, known: Option<RetryState>, code: string, now: Time)
      returns (st: RetryState)
      requires Entry(id).record == Some(record)
      modifies this`retryStates, data
      ensures st == StateFor(known, code, record, now)
      ensures Entry(id) == if StartsState(known, code) then Write(old(Entry(id)), st) else old(Entry(id))
      ensures SameBut(old(data.rows), old(retryStates), data.rows, retryStates, id)
    {
      hide Write, NewState, EntryOf;
      if known.None? || known.value.signature != code {
        st := NewState(code, record, now);
        WriteRetryState(id, st, now);
      } else {
        st := known.value;
      }
    }

    /** Enqueue a retry if one is due, and count it if the queue took it. */
    method RetryIfDue(id: string, st: RetryState, code: string, now: Time)
      requires Valid()
      modifies this, data
      ensures Valid()
      ensures var retried := Due(st, now) && id !in old(queuedIds) + old(inflightIds);
        Did(id, if retried then Ticked(Write(old(Entry(id)), AfterRetry(st, now)), Retry(code))
                else Ticked(old(Entry(id)), Nothing))
    {
      hide DistinctJobs, IdsOf, DistinctBusy, BusyIds, Write, AfterRetry, Due, EntryOf, SameBut;
      SameButSelf(data.rows, retryStates, id);
      if Due(st, now) {
        var enqueued := Enqueue(id, "retry:" + code);
        if enqueued {
          WriteRetryState(id, AfterRetry(st, now), now);
        }
      }
    }

    /** The failing branch of the tick: start a state if none is known for this code, then retry if due. */
    method TickFailingSource(id: string, record: Record, known: Option<RetryState>, code: string, now: Time)
      requires Valid() && Entry(id).record == Some(record)
      modifies this, data
      ensures Valid()
      ensures Did(id, TickFailing(old(Entry(id)), known, code, now, id !in old(queuedIds) + old(inflightIds)))
    {
      hide DistinctJobs, IdsOf, DistinctBusy, BusyIds, Write, AfterRetry, Due, EntryOf, StateFor, StartsState, SameBut;
      ghost var rows, remembered := data.rows, retryStates;
      var st := StartRetryState(id, record, known, code, now);
      ghost var rows', remembered' := data.rows, retryStates;
      RetryIfDue(id, st, code, now);
      SameButAgain(rows, remembered, rows', remembered', data.rows, retryStates, id);
    }

    /** The active branch: forget a state the source has outlived, then refresh if it is time. */
    method TickActiveSource(source: Source, record: Record, known: Option<RetryState>, now: Time)
      requires Valid()
      modifies this, data
      ensures Valid()
      ensures var e := old(Entry(source.id));
        Did(source.id, Ticked(
          if known.Some? && SucceededSince(record, known.value) then Clear(e) else e,
          if AutoDue(record, source.intervalMinutes, now) && source.id !in old(queuedIds) + old(inflightIds)
          then Auto else Nothing))
    {
      hide DistinctJobs, IdsOf, DistinctBusy, BusyIds, Clear, EntryOf, AutoDue, SucceededSince, SameBut, ReasonOf;
      SameButSelf(data.rows, retryStates, source.id);
      if known.Some? && SucceededSince(record, known.value) {
        ClearRetryState(source.id, now);
      }
      ghost var entry := Entry(source.id);
      var due := AutoDue(record, source.intervalMinutes, now);
      RefreshIfDue(source.id, due);
      assert Did(source.id, Ticked(entry, if due && source.id !in old(queuedIds) + old(inflightIds) then Auto else Nothing));
    }

    method RefreshIfDue(id: string, due: bool)
      requires Valid()
      modifies this`queue, this`queuedIds, this`unfinished
      ensures Valid()
      ensures var added := due && id !in old(queuedIds) + old(inflightIds);
        && queue == old(queue) + (if added then [Job(id, ReasonOf(Auto))] else [])
        && queuedIds == old(queuedIds) + (if added then {id} else {})
    {
      hide DistinctJobs, IdsOf, DistinctBusy, BusyIds;
      if due {
        var enqueued := Enqueue(id, "auto");
      }
    }

    /** One source of the tick. */
    method TickOneSource(source: Source, now: Time)
      requires Valid()
      modifies this, data
      ensures Valid()
      ensures Did(source.id, TickSource(old(Entry(source.id)), source.intervalMinutes, now,
                                        source.id !in old(queuedIds) + old(inflightIds)))
    {
      hide DistinctJobs, IdsOf, DistinctBusy, BusyIds, Clear, AutoDue, SucceededSince, Normal, Failing, TickFailing, Read,
        SameBut, ReasonOf;
      var id := source.id;
      if id !in data.rows {
        ClearRetryState(id, now);
        return;
      }
      ghost var rows, remembered := data.rows, retryStates;
      var record := data.rows[id].record;
      var status := Normal(record.status);
      var known := ReadRetryState(id, record, now);
      ghost var rows', remembered' := data.rows, retryStates;
      SameButSelf(rows', remembered', id);
      if status == "active" {
        TickActiveSource(source, record, known, now);
      } else if Failing(record) {
        TickFailingSource(id, record, known, Normal(record.errorCode), now);
      } else if known.Some? {
        ClearRetryState(id, now);
      }
      SameButAgain(rows, remembered, rows', remembered', data.rows, retryStates, id);
    }

    /** The tick: every source gets its share, independently of the others. */
    method TickOnce(sources: seq<Source>, now: Time)
      requires Valid() && DistinctIds(sources)
      modifies this, data
      ensures Valid() && workers == old(workers) && inflightIds == old(inflightIds) && started == old(started)
      ensures forall s :: s in sources ==>
        Entry(s.id) == Share(s, old(data.rows), old(retryStates), old(queuedIds) + old(inflightIds), now).entry
      ensures forall k :: (forall s :: s in sources ==> s.id != k) ==> Entry(k) == old(EntryOf(data.rows, retryStates, k))
      ensures queue == old(queue) + JobsOf(sources, old(data.rows), old(retryStates), old(queuedIds) + old(inflightIds), now)
    {
      hide DistinctJobs, IdsOf, DistinctBusy, BusyIds, Share, EntryOf, JobsOf;
      ghost var start := Snapshot(data.rows, retryStates, queuedIds + inflightIds, queue);
      NoJobs(data.rows, retryStates, queuedIds + inflightIds, now);
      var i := 0;
      while i < |sources|
        invariant 0 <= i <= |sources|
        invariant Valid() && workers == old(workers) && inflightIds == old(inflightIds) && started == old(started)
        invariant TickedSoFar(sources, i, start, now)
      {
        TickNext(sources, i, start, now);
        i := i + 1;
      }
      assert sources[..i] == sources;
    }

    /** The sources before `i` have had their share, the others are as at the start. */
    ghost predicate TickedSoFar(sources: seq<Source>, i: nat, start: Snapshot, now: Time)
      requires i <= |sources|
      reads this, data
    {
      && queue == start.queue + JobsOf(sources[..i], start.rows, start.remembered, start.busy, now)
      && (forall j :: i <= j < |sources| ==> (sources[j].id in queuedIds + inflightIds <==> sources[j].id in start.busy))
      && (forall j :: 0 <= j < i ==>
           Entry(sources[j].id) == Share(sources[j], start.rows, start.remembered, start.busy, now).entry)
      && (forall k :: (forall j :: 0 <= j < i ==> sources[j].id != k) ==> Entry(k) == EntryOf(start.rows, start.remembered, k))
    }

    method TickNext(sources: seq<Source>, i: nat, ghost start: Snapshot, now: Time)
      requires Valid() && DistinctIds(sources) && i < |sources| && TickedSoFar(sources, i, start, now)
      modifies this, data
      ensures Valid() && workers == old(workers) && inflightIds == old(inflightIds) && started == old(started)
      ensures TickedSoFar(sources, i + 1, start, now)
    {
      hide DistinctJobs, IdsOf, DistinctBusy, BusyIds, TickSource, EntryOf, JobsOf, SameBut;
      ghost var rows, remembered := data.rows, retryStates;
      ghost var id := sources[i].id;
      JobsOfNext(sources, i, start.rows, start.remembered, start.busy, now);
      assert Entry(id) == EntryOf(start.rows, start.remembered, id);
      TickOneSource(sources[i], now);
      forall k | k != id ensures EntryOf(rows, remembered, k) == Entry(k) {
        OtherEntries(rows, remembered, data.rows, retryStates, id, k);
      }
    }
  }

  lemma IdOfOne(job: Job)
    ensures IdsOf([job]) == {job.id}
  {
    assert [job][0] == job;
  }

  /** The jobs of a tick over one source that is due. */
  lemma OneJob(source: Source, rows: Table, now: Time)
    requires !Share(source, rows, map[], {}, now).decision.Nothing?
    ensures JobsOf([source], rows, map[], {}, now) == [Job(source.id, ReasonOf(Share(source, rows, map[], {}, now).decision))]
  {
    hide Share;
    assert [source][..0] == [];
    NoJobs(rows, map[], {}, now);
  }

  /**
   Why `Stop` speaks of started schedulers only. A single tick may be run by hand without a
   start; whatever source is due then, its job is still queued and unfinished after the stop.
   */
  method TickThenStop(data: RuntimeRepository, source: Source, now: Time) returns (s: Scheduler)
    requires !Share(source, data.rows, map[], {}, now).decision.Nothing?
    modifies data
    ensures fresh(s) && s.Valid() && !s.started
    ensures s.queue == [Job(source.id, ReasonOf(Share(source, old(data.rows), map[], {}, now).decision))]
    ensures s.queuedIds == {source.id} && s.unfinished == 1
  {
    hide Share, JobsOf, EntryOf, IdsOf, ReasonOf;
    s := new Scheduler(data);
    OneJob(source, data.rows, now);
    IdOfOne(Job(source.id, ReasonOf(Share(source, data.rows, map[], {}, now).decision)));
    s.TickOnce([source], now);
    s.Stop();
  }

  /** What a tick starts from. */
  datatype Snapshot = Snapshot(rows: Table, remembered: map<string, RetryState>, busy: set<string>, queue: seq<Job>)

  lemma NoJobs(rows: Table, remembered: map<string, RetryState>, busy: set<string>, now: Time)
    ensures JobsOf([], rows, remembered, busy, now) == []
  {
  }
}
