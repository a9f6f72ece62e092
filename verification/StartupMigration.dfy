/**
 The startup migration of the JSON files into tables. A run may be cut off before or after
 any committed write; running again must end where one uninterrupted run would have ended.
 */
module StartupMigration {
  import opened Wrappers
  import opened Text
  import TemplateSyntax

  type Time = real

  /** A file that parses to records, or does not; one bad record spoils the file. */
  datatype File<T> = Malformed | Records(records: seq<T>)

  // ---------------------------------------------------------------- runtime records

  /** A record of data.json; entries that are missing or of the wrong type are None. */
  datatype Entry = Entry(sourceId: Option<string>, data: Option<string>, updatedAt: Option<Time>, lastSuccessAt: Option<Time>)

  datatype RuntimeRow = RuntimeRow(record: Entry, updatedAt: Time, lastSuccessAt: Option<Time>)

  /** The id a record is stored under; empty if it has none. */
  function IdOf(e: Entry): string {
    if e.sourceId.Some? then Trim(e.sourceId.value, TemplateSyntax.IsSpace) else ""
  }

  /** A record made complete: its id trimmed, its times filled in. */
  function Completed(e: Entry, now: Time): Entry {
    var updatedAt := if e.updatedAt.Some? then e.updatedAt.value else now;
    Entry(Some(IdOf(e)), e.data, Some(updatedAt),
          if e.lastSuccessAt.Some? then e.lastSuccessAt
          else if e.data.Some? then Some(updatedAt) else None)
  }

  function RowOf(e: Entry, now: Time): RuntimeRow {
    RuntimeRow(e, if e.updatedAt.Some? then e.updatedAt.value else now, e.lastSuccessAt)
  }

  function CompletedAll(entries: seq<Entry>, now: Time): seq<Entry> {
    seq(|entries|, i requires 0 <= i < |entries| => Completed(entries[i], now))
  }

  // ---------------------------------------------------------------- batches of upserts

  /** A batch of (id, row) pairs; records without id are skipped before. */
  type Batch<R> = seq<(string, R)>

  /** The table after a batch: the last row of an id wins. */
  function UpsertAll<R>(rows: map<string, R>, batch: Batch<R>): map<string, R> {
    if batch == [] then rows
    else
      var (id, row) := batch[|batch| - 1];
      UpsertAll(rows, batch[..|batch| - 1])[id := row]
  }

  function Ids<R>(batch: Batch<R>): set<string> {
    set i | 0 <= i < |batch| :: batch[i].0
  }

  /** The ids of a batch in the order they first appear. */
  function UniqueIds<R>(batch: Batch<R>): (ids: seq<string>)
    ensures forall i, j :: 0 <= i < j < |ids| ==> ids[i] != ids[j]
    ensures (set i | 0 <= i < |ids| :: ids[i]) == Ids(batch)
  {
    if batch == [] then []
    else
      var before := UniqueIds(batch[..|batch| - 1]);
      var id := batch[|batch| - 1].0;
      assert Ids(batch) == Ids(batch[..|batch| - 1]) + {id};
      assert id in before <==> id in Ids(batch[..|batch| - 1]) by {
        assert id in before <==> id in (set i | 0 <= i < |before| :: before[i]);
      }
      if id in before then before
      else
        var all := before + [id];
        assert (set i | 0 <= i < |all| :: all[i]) == (set i | 0 <= i < |before| :: before[i]) + {id} by {
          assert all[|before|] == id;
          assert forall i :: 0 <= i < |before| ==> all[i] == before[i];
        }
        all
  }

  lemma {:induction false} UpsertKeys<R>(rows: map<string, R>, batch: Batch<R>)
    ensures UpsertAll(rows, batch).Keys == rows.Keys + Ids(batch)
  {
    if batch != [] {
      var init := batch[..|batch| - 1];
      UpsertKeys(rows, init);
      assert Ids(batch) == Ids(init) + {batch[|batch| - 1].0};
    }
  }

  /** What a batch writes depends on the batch alone, and what it does not name stays. */
  lemma {:induction false} UpsertOther<R>(rows: map<string, R>, other: map<string, R>, batch: Batch<R>, id: string)
    ensures id in Ids(batch) ==> id in UpsertAll(rows, batch) && id in UpsertAll(other, batch)
    ensures id in Ids(batch) ==> UpsertAll(rows, batch)[id] == UpsertAll(other, batch)[id]
    ensures id !in Ids(batch) && id in rows ==> id in UpsertAll(rows, batch) && UpsertAll(rows, batch)[id] == rows[id]
    ensures id !in Ids(batch) && id !in rows ==> id !in UpsertAll(rows, batch)
  {
    if batch != [] {
      var init := batch[..|batch| - 1];
      UpsertOther(rows, other, init, id);
      assert Ids(batch) == Ids(init) + {batch[|batch| - 1].0};
    }
  }

  /** Writing over an earlier attempt with the same ids leaves no trace of it. */
  lemma UpsertTwice<R>(rows: map<string, R>, first: Batch<R>, second: Batch<R>)
    requires Ids(first) == Ids(second)
    ensures UpsertAll(UpsertAll(rows, first), second) == UpsertAll(rows, second)
  {
    var a, b := UpsertAll(UpsertAll(rows, first), second), UpsertAll(rows, second);
    UpsertKeys(rows, first);
    UpsertKeys(UpsertAll(rows, first), second);
    UpsertKeys(rows, second);
    forall id | id in a ensures a[id] == b[id] {
      UpsertOther(UpsertAll(rows, first), rows, second, id);
      UpsertOther(rows, rows, first, id);
      UpsertOther(rows, rows, second, id);
    }
  }

  /** How many of the listed ids have a row: what the validation query counts. */
  function CountRows<R>(rows: map<string, R>, ids: seq<string>): nat {
    |set id | id in ids && id in rows|
  }

  lemma {:induction false} CountOfDistinct(ids: seq<string>)
    requires forall i, j :: 0 <= i < j < |ids| ==> ids[i] != ids[j]
    ensures |set id | id in ids| == |ids|
  {
    if ids != [] {
      var init, last := ids[..|ids| - 1], ids[|ids| - 1];
      CountOfDistinct(init);
      assert (set id | id in ids) == (set id | id in init) + {last};
      assert last !in init;
    }
  }

  /** Validation after a batch never fails, however often an id is repeated in it. */
  lemma ValidationPasses<R>(rows: map<string, R>, batch: Batch<R>)
    ensures CountRows(UpsertAll(rows, batch), UniqueIds(batch)) == |UniqueIds(batch)|
  {
    var ids := UniqueIds(batch);
    UpsertKeys(rows, batch);
    CountOfDistinct(ids);
    forall id | id in ids ensures id in UpsertAll(rows, batch) {
      assert id in (set i | 0 <= i < |ids| :: ids[i]);
    }
    assert (set id | id in ids && id in UpsertAll(rows, batch)) == (set id | id in ids);
  }

  // ---------------------------------------------------------------- the batches of each file

  function RuntimeBatch(entries: seq<Entry>, now: Time): Batch<RuntimeRow> {
    if entries == [] then []
    else
      var before := RuntimeBatch(entries[..|entries| - 1], now);
      var e := entries[|entries| - 1];
      if IdOf(e) == "" then before else before + [(IdOf(e), RowOf(e, now))]
  }

  /** A stored source or view: its payload, and when it was written. */
  datatype Resource = Resource(id: string, payload: string)

  datatype StoredRow = StoredRow(payload: string, updatedAt: Time)

  function ResourceBatch(resources: seq<Resource>, now: Time): (batch: Batch<StoredRow>)
    ensures |batch| == |resources|
    ensures forall i :: 0 <= i < |resources| ==> batch[i] == (resources[i].id, StoredRow(resources[i].payload, now))
  {
    seq(|resources|, i requires 0 <= i < |resources| => (resources[i].id, StoredRow(resources[i].payload, now)))
  }

  lemma ResourceIds(resources: seq<Resource>, a: Time, b: Time)
    ensures Ids(ResourceBatch(resources, a)) == Ids(ResourceBatch(resources, b))
  {
    forall id ensures id in Ids(ResourceBatch(resources, a)) <==> id in Ids(ResourceBatch(resources, b)) {
      assert forall i :: 0 <= i < |resources| ==> ResourceBatch(resources, a)[i].0 == ResourceBatch(resources, b)[i].0;
    }
  }

  lemma CompletedId(e: Entry, now: Time)
    ensures IdOf(Completed(e, now)) == IdOf(e)
  {
    if e.sourceId.Some? {
      TrimOfTrimmed(IdOf(e), TemplateSyntax.IsSpace);
    }
  }

  function IdsOfEntries(entries: seq<Entry>): set<string> {
    set i | 0 <= i < |entries| && IdOf(entries[i]) != "" :: IdOf(entries[i])
  }

  lemma {:induction false} RuntimeIds(entries: seq<Entry>, now: Time)
    ensures Ids(RuntimeBatch(entries, now)) == IdsOfEntries(entries)
  {
    hide IdOf;
    if entries != [] {
      var init, e := entries[..|entries| - 1], entries[|entries| - 1];
      RuntimeIds(init, now);
      var before := RuntimeBatch(init, now);
      assert IdsOfEntries(entries) == IdsOfEntries(init) + if IdOf(e) == "" then {} else {IdOf(e)};
      if IdOf(e) != "" {
        var all := before + [(IdOf(e), RowOf(e, now))];
        assert all[|before|].0 == IdOf(e);
        assert forall i :: 0 <= i < |before| ==> all[i] == before[i];
        assert Ids(all) == Ids(before) + {IdOf(e)};
      }
    }
  }

  lemma CompletedIds(entries: seq<Entry>, now: Time)
    ensures IdsOfEntries(CompletedAll(entries, now)) == IdsOfEntries(entries)
  {
    hide IdOf, Completed;
    forall i | 0 <= i < |entries| ensures IdOf(CompletedAll(entries, now)[i]) == IdOf(entries[i]) {
      CompletedId(entries[i], now);
    }
  }

  // ---------------------------------------------------------------- one file

  /** A file before migration, the same file marked as deprecated, and its table. */
  datatype Chunk<T, R> = Chunk(current: Option<File<T>>, deprecated: Option<File<T>>, rows: map<string, R>)

  type DataChunk = Chunk<Entry, RuntimeRow>

  type ResourceChunk = Chunk<Resource, StoredRow>

  /** A stage ends, raises an error, or is cut off by a crash. */
  datatype Status = Done | Failed | Dead

  /** `left` is the number of committed writes (transactions and renames) before the crash. */
  datatype Stage<T, R> = Stage(chunk: Chunk<T, R>, left: nat, status: Status)

  /** Upsert the batch, validate it, rename the file; a crash may come before either write. */
  function MigrateBatch<T, R>(c: Chunk<T, R>, batch: Batch<R>, left: nat): Stage<T, R>
    requires c.current.Some?
  {
    if left == 0 then Stage(c, 0, Dead)
    else
      var c1 := c.(rows := UpsertAll(c.rows, batch));
      if CountRows(c1.rows, UniqueIds(batch)) != |UniqueIds(batch)| then Stage(c1, left - 1, Failed)
      else if left == 1 then Stage(c1, 0, Dead)
      else Stage(Chunk(None, c.current, c1.rows), left - 2, Done)
  }

  function MigrateResources(c: ResourceChunk, now: Time, left: nat): Stage<Resource, StoredRow> {
    if c.current.None? || c.deprecated.Some? then Stage(c, left, Done)
    else match c.current.value {
      case Malformed => Stage(c, left, Failed)
      case Records(resources) => MigrateBatch(c, ResourceBatch(resources, now), left)
    }
  }

  predicate HasIds(entries: seq<Entry>) {
    forall i :: 0 <= i < |entries| ==> IdOf(entries[i]) != ""
  }

  /** The repair of an earlier migration: looked for among the sources that are stored, if any of them are in the file. */
  function RepairTargets(entries: seq<Entry>, stored: set<string>): set<string> {
    if IdsOfEntries(entries) * stored != {} then IdsOfEntries(entries) * stored else IdsOfEntries(entries)
  }

  function RepairData(c: DataChunk, stored: set<string>, now: Time, left: nat): Stage<Entry, RuntimeRow>
    requires c.deprecated.Some?
  {
    match c.deprecated.value
    case Malformed => Stage(c, left, Failed)
    case Records(entries) =>
      if RepairTargets(entries, stored) <= c.rows.Keys then Stage(c, left, Done)
      else if left == 0 then Stage(c, 0, Dead)
      else
        var batch := RuntimeBatch(entries, now);
        var c1 := c.(rows := UpsertAll(c.rows, batch));
        Stage(c1, left - 1, if CountRows(c1.rows, UniqueIds(batch)) != |UniqueIds(batch)| then Failed else Done)
  }

  function MigrateData(c: DataChunk, stored: set<string>, now: Time, left: nat): Stage<Entry, RuntimeRow> {
    if c.current.Some? then
      if c.deprecated.Some? then Stage(c, left, Done)
      else match c.current.value {
        case Malformed => Stage(c, left, Failed)
        case Records(entries) =>
          if !HasIds(entries) then Stage(c, left, Failed)
          else MigrateBatch(c, RuntimeBatch(CompletedAll(entries, now), now), left)
      }
    else if c.deprecated.Some? then RepairData(c, stored, now, left)
    else Stage(c, left, Done)
  }

  // ---------------------------------------------------------------- a whole run

  datatype Disk = Disk(data: DataChunk, sources: ResourceChunk, views: ResourceChunk)

  /** The clock, read once for each file. */
  datatype Clocks = Clocks(data: Time, sources: Time, views: Time)

  datatype Run = Run(disk: Disk, status: Status)

  /** The files in order; a run that fails or dies at one does not reach the next. */
  function Migrate(d: Disk, t: Clocks, left: nat): Run {
    var data := MigrateData(d.data, d.sources.rows.Keys, t.data, left);
    if data.status != Done then Run(d.(data := data.chunk), data.status)
    else
      var sources := MigrateResources(d.sources, t.sources, data.left);
      if sources.status != Done then Run(d.(data := data.chunk, sources := sources.chunk), sources.status)
      else
        var views := MigrateResources(d.views, t.views, sources.left);
        Run(Disk(data.chunk, sources.chunk, views.chunk), views.status)
  }

  /** Three files, two writes each: no crash. */
  const ALL_WRITES := 6

  function Complete(d: Disk, t: Clocks): Run {
    Migrate(d, t, ALL_WRITES)
  }

  // ---------------------------------------------------------------- resuming one file

  ghost predicate SameEnd<T, R>(a: Stage<T, R>, b: Stage<T, R>) {
    a.chunk == b.chunk && a.status == b.status
  }

  /** With both writes allowed a migration always succeeds, and it ends the same after an earlier try at the upsert. */
  lemma BatchResumes<T, R>(c: Chunk<T, R>, first: Batch<R>, second: Batch<R>, left: nat)
    requires c.current.Some? && left >= 2 && Ids(first) == Ids(second)
    ensures MigrateBatch(c, second, left) ==
      Stage(Chunk(None, c.current, UpsertAll(c.rows, second)), left - 2, Done)
    ensures MigrateBatch(c.(rows := UpsertAll(c.rows, first)), second, left) == MigrateBatch(c, second, left)
  {
    ValidationPasses(c.rows, second);
    ValidationPasses(UpsertAll(c.rows, first), second);
    UpsertTwice(c.rows, first, second);
  }

  /** After a crash anywhere in the stage, the next full stage ends as one full stage at the time of the last upsert. */
  lemma ResourcesResume(c: ResourceChunk, now: Time, left: nat, later: Time, enough: nat, plenty: nat) returns (at: Time)
    requires enough >= 2 && plenty >= 2
    ensures at == now || at == later
    ensures SameEnd(MigrateResources(MigrateResources(c, now, left).chunk, later, enough), MigrateResources(c, at, plenty))
    ensures MigrateResources(c, now, left).status == Done ==> at == now
    ensures MigrateResources(c, now, left).status == Done ==>
      SameEnd(MigrateResources(MigrateResources(c, now, left).chunk, later, enough), MigrateResources(c, now, left))
  {
    hide UpsertAll, UniqueIds, Ids, CountRows, ResourceBatch;
    var o := MigrateResources(c, now, left);
    at := if o.status == Done then now else later;
    if c.current.Some? && c.deprecated.None? && c.current.value.Records? {
      var resources := c.current.value.records;
      var a, b := ResourceBatch(resources, now), ResourceBatch(resources, later);
      ResourceIds(resources, now, later);
      ValidationPasses(c.rows, a);
      BatchResumes(c, a, b, enough);
      BatchResumes(c, b, a, plenty);
      BatchResumes(c, a, b, plenty);
    }
  }

  /** All ids of an earlier migration have rows, or there was none: then the repair has nothing to do. */
  ghost predicate Settled(c: DataChunk) {
    c.current.None? && c.deprecated.Some? && c.deprecated.value.Records? ==>
      IdsOfEntries(c.deprecated.value.records) <= c.rows.Keys
  }

  lemma RepairIsNoOp(c: DataChunk, stored: set<string>, now: Time, left: nat)
    requires Settled(c) && c.current.None?
    ensures MigrateData(c, stored, now, left).chunk == c && MigrateData(c, stored, now, left).left == left
    ensures MigrateData(c, stored, now, left).status ==
      if c.deprecated == Some(Malformed) then Failed else Done
  {
  }

  /** Migrating the file settles it: all its ids have rows. */
  lemma SettledByFile(c: DataChunk, stored: set<string>, now: Time, left: nat)
    requires c.current.Some?
    ensures Settled(MigrateData(c, stored, now, left).chunk)
  {
    hide UpsertAll, UniqueIds, Ids, CountRows, CompletedAll, RuntimeBatch, IdsOfEntries, HasIds, RepairData;
    if c.deprecated.None? && c.current.value.Records? {
      var entries := c.current.value.records;
      CompletedIds(entries, now);
      RuntimeIds(CompletedAll(entries, now), now);
      UpsertKeys(c.rows, RuntimeBatch(CompletedAll(entries, now), now));
    }
  }

  /** So does a repair that had something to do. */
  lemma SettledByRepair(c: DataChunk, stored: set<string>, now: Time, left: nat)
    requires c.current.None? && MigrateData(c, stored, now, left).chunk != c
    ensures Settled(MigrateData(c, stored, now, left).chunk)
  {
    hide UpsertAll, UniqueIds, Ids, CountRows, RuntimeBatch, IdsOfEntries, RepairTargets;
    var entries := c.deprecated.value.records;
    RuntimeIds(entries, now);
    UpsertKeys(c.rows, RuntimeBatch(entries, now));
  }

  /** Once settled, the data file stays settled: its repair is a no-op from then on. */
  lemma MigratedIsSettled(c: DataChunk, stored: set<string>, now: Time, left: nat)
    requires Settled(c) || c.current.Some?
    ensures Settled(MigrateData(c, stored, now, left).chunk)
  {
    hide *;
    if c.current.Some? {
      SettledByFile(c, stored, now, left);
    } else {
      RepairIsNoOp(c, stored, now, left);
    }
  }

  /** If the repair has nothing to do with these stored sources, it has nothing to do with those either. */
  ghost predicate NoLaterRepair(c: DataChunk, stored: set<string>, stored': set<string>) {
    c.current.None? && c.deprecated.Some? && c.deprecated.value.Records? ==>
      var entries := c.deprecated.value.records;
      RepairTargets(entries, stored) <= c.rows.Keys ==> RepairTargets(entries, stored') <= c.rows.Keys
  }

  lemma SettledNeedsNoRepair(c: DataChunk, stored: set<string>, stored': set<string>)
    requires Settled(c)
    ensures NoLaterRepair(c, stored, stored')
  {
    hide IdsOfEntries;
  }

  /** The repair of an earlier migration, resumed: it is done once, or not at all. */
  lemma RepairResumes(c: DataChunk, stored: set<string>, now: Time, left: nat, stored': set<string>, later: Time, enough: nat)
    requires c.current.None? && c.deprecated.Some? && c.deprecated.value.Records? && enough > 0
    requires NoLaterRepair(c, stored, stored')
    ensures var o := RepairData(c, stored, now, left);
      && (o.status == Done ==> SameEnd(MigrateData(o.chunk, stored', later, enough), o))
      && (o.status != Done ==> o == Stage(c, 0, Dead))
      && (o.status == Done ==> SameEnd(RepairData(c, stored, now, enough), o))
      && RepairData(c, stored, now, enough).status == Done
  {
    hide UpsertAll, UniqueIds, Ids, CountRows, RuntimeBatch, IdsOfEntries;
    var entries := c.deprecated.value.records;
    var batch := RuntimeBatch(entries, now);
    ValidationPasses(c.rows, batch);
    RuntimeIds(entries, now);
    UpsertKeys(c.rows, batch);
  }

  lemma DataResumes(
    c: DataChunk, stored: set<string>, now: Time, left: nat, stored': set<string>, later: Time, enough: nat, plenty: nat)
    returns (at: Time)
    requires NoLaterRepair(c, stored, stored') && enough >= 2 && plenty >= 2
    requires MigrateData(c, stored, now, left).status != Done ==> stored' == stored
    ensures at == now || at == later
    ensures SameEnd(
      MigrateData(MigrateData(c, stored, now, left).chunk, stored', later, enough), MigrateData(c, stored, at, plenty))
    ensures MigrateData(c, stored, now, left).status == Done ==> at == now
    ensures MigrateData(c, stored, now, left).status == Done ==>
      SameEnd(MigrateData(MigrateData(c, stored, now, left).chunk, stored', later, enough), MigrateData(c, stored, now, left))
  {
    at := if MigrateData(c, stored, now, left).status == Done then now else later;
    if c.current.Some? {
      hide *;
      FileResumes(c, stored, now, left, stored', later, enough, plenty);
    } else if c.deprecated.Some? && c.deprecated.value.Records? {
      RepairResumes(c, stored, now, left, stored', later, enough);
      RepairResumes(c, stored, now, left, stored', later, plenty);
      RepairResumes(c, stored, later, enough, stored, later, plenty);
      hide RepairData, NoLaterRepair;
    } else {
      hide RepairTargets;
    }
  }

  lemma FileResumes(
    c: DataChunk, stored: set<string>, now: Time, left: nat, stored': set<string>, later: Time, enough: nat, plenty: nat)
    requires c.current.Some? && enough >= 2 && plenty >= 2
    ensures var o := MigrateData(c, stored, now, left); var at := if o.status == Done then now else later;
      SameEnd(MigrateData(o.chunk, stored', later, enough), MigrateData(c, stored, at, plenty)) &&
      (o.status == Done ==> SameEnd(MigrateData(o.chunk, stored', later, enough), o))
  {
    hide UpsertAll, UniqueIds, Ids, CountRows, CompletedAll, RuntimeBatch, IdsOfEntries, HasIds, RepairData, Settled;
    var o := MigrateData(c, stored, now, left);
    if c.deprecated.None? && c.current.value.Records? {
      var entries := c.current.value.records;
      var a, b := RuntimeBatch(CompletedAll(entries, now), now), RuntimeBatch(CompletedAll(entries, later), later);
      CompletedIds(entries, now);
      CompletedIds(entries, later);
      RuntimeIds(CompletedAll(entries, now), now);
      RuntimeIds(CompletedAll(entries, later), later);
      ValidationPasses(c.rows, a);
      BatchResumes(c, a, b, enough);
      BatchResumes(c, b, a, plenty);
      BatchResumes(c, a, b, plenty);
      SettledByFile(c, stored, now, left);
      if o.status == Done {
        RepairIsNoOp(o.chunk, stored', later, enough);
      }
    }
  }

  // ---------------------------------------------------------------- resuming a run

  lemma StagesUseTwoWrites(c: ResourceChunk, now: Time, left: nat)
    requires left >= 2
    ensures var o := MigrateResources(c, now, left); o.status != Dead && o.left >= left - 2
  {
    hide UpsertAll, UniqueIds, CountRows, ResourceBatch;
  }

  lemma DataUsesTwoWrites(c: DataChunk, stored: set<string>, now: Time, left: nat)
    requires left >= 2
    ensures var o := MigrateData(c, stored, now, left); o.status != Dead && o.left >= left - 2
  {
    hide UpsertAll, UniqueIds, CountRows, CompletedAll, RuntimeBatch, IdsOfEntries, HasIds, RepairTargets;
  }

  /** The ids in the table once its file is migrated, if it is going to be. */
  ghost function StoredAfter(c: ResourceChunk): set<string> {
    c.rows.Keys + if c.current.Some? && c.deprecated.None? && c.current.value.Records?
      then (set i | 0 <= i < |c.current.value.records| :: c.current.value.records[i].id) else {}
  }

  lemma MigrationStores(c: ResourceChunk, now: Time, left: nat)
    ensures var o := MigrateResources(c, now, left);
      && StoredAfter(o.chunk) == StoredAfter(c)
      && o.chunk.rows.Keys in {c.rows.Keys, StoredAfter(c)}
      && (o.status == Done ==> o.chunk.rows.Keys == StoredAfter(c))
  {
    hide UpsertAll, UniqueIds, CountRows;
    if c.current.Some? && c.deprecated.None? && c.current.value.Records? {
      var resources := c.current.value.records;
      UpsertKeys(c.rows, ResourceBatch(resources, now));
      assert Ids(ResourceBatch(resources, now)) == set i | 0 <= i < |resources| :: resources[i].id;
    }
  }

  /**
   The sources still to be migrated give the repair of the data file nothing more to do. It can
   be checked before the run, from the files and tables as they are.
   */
  ghost predicate Steady(d: Disk) {
    NoLaterRepair(d.data, d.sources.rows.Keys, StoredAfter(d.sources))
  }

  lemma KeptOrSettled(c: DataChunk, stored: set<string>, now: Time, left: nat)
    ensures MigrateData(c, stored, now, left).chunk == c || Settled(MigrateData(c, stored, now, left).chunk)
  {
    hide *;
    if c.current.Some? {
      SettledByFile(c, stored, now, left);
    } else if MigrateData(c, stored, now, left).chunk != c {
      SettledByRepair(c, stored, now, left);
    }
  }

  lemma AttemptKeepsSteady(d: Disk, t: Clocks, left: nat)
    requires Steady(d)
    ensures Steady(Migrate(d, t, left).disk)
  {
    hide MigrateData, MigrateResources, Settled, NoLaterRepair, StoredAfter;
    var data := MigrateData(d.data, d.sources.rows.Keys, t.data, left);
    var r := Migrate(d, t, left).disk;
    KeptOrSettled(d.data, d.sources.rows.Keys, t.data, left);
    MigrationStores(d.sources, t.sources, data.left);
    if Settled(r.data) {
      SettledNeedsNoRepair(r.data, r.sources.rows.Keys, StoredAfter(r.sources));
    } else {
      SameNeedsNoRepair(r.data, StoredAfter(r.sources));
    }
  }

  lemma SameNeedsNoRepair(c: DataChunk, stored: set<string>)
    ensures NoLaterRepair(c, stored, stored)
  {
    hide RepairTargets;
  }

  /** One attempt that may die anywhere, then a full run: one full run would have ended the same. */
  lemma AttemptResumes(d: Disk, t: Clocks, left: nat, later: Clocks) returns (at: Clocks)
    requires Steady(d)
    ensures Complete(Migrate(d, t, left).disk, later) == Complete(d, at)
    ensures at.data in {t.data, later.data} && at.sources in {t.sources, later.sources} && at.views in {t.views, later.views}
  {
    hide MigrateData, MigrateResources, NoLaterRepair, StoredAfter;
    var r := Migrate(d, t, left);
    var stored, stored' := d.sources.rows.Keys, r.disk.sources.rows.Keys;
    var data := MigrateData(d.data, stored, t.data, left);
    MigrationStores(d.sources, t.sources, data.left);
    SameNeedsNoRepair(d.data, stored);
    var atData := DataResumes(d.data, stored, t.data, left, stored', later.data, ALL_WRITES, ALL_WRITES);
    var dataA := MigrateData(r.disk.data, stored', later.data, ALL_WRITES);
    var dataB := MigrateData(d.data, stored, atData, ALL_WRITES);
    DataUsesTwoWrites(r.disk.data, stored', later.data, ALL_WRITES);
    DataUsesTwoWrites(d.data, stored, atData, ALL_WRITES);
    var reached := data.status == Done;
    var sources := MigrateResources(d.sources, t.sources, data.left);
    var atSources, atViews := later.sources, later.views;
    if reached {
      atSources := ResourcesResume(d.sources, t.sources, data.left, later.sources, dataA.left, dataB.left);
      var sourcesA := MigrateResources(r.disk.sources, later.sources, dataA.left);
      var sourcesB := MigrateResources(d.sources, atSources, dataB.left);
      StagesUseTwoWrites(r.disk.sources, later.sources, dataA.left);
      StagesUseTwoWrites(d.sources, atSources, dataB.left);
      if sources.status == Done {
        atViews := ResourcesResume(d.views, t.views, sources.left, later.views, sourcesA.left, sourcesB.left);
      } else {
        LeftDoesNotMatter(d.views, later.views, sourcesA.left, sourcesB.left);
      }
    } else {
      LeftDoesNotMatter(d.sources, later.sources, dataA.left, dataB.left);
      StagesUseTwoWrites(d.sources, later.sources, dataA.left);
      StagesUseTwoWrites(d.sources, later.sources, dataB.left);
      LeftDoesNotMatter(d.views, later.views,
        MigrateResources(d.sources, later.sources, dataA.left).left, MigrateResources(d.sources, later.sources, dataB.left).left);
    }
    at := Clocks(atData, atSources, atViews);
  }

  lemma LeftDoesNotMatter(c: ResourceChunk, now: Time, a: nat, b: nat)
    requires a >= 2 && b >= 2
    ensures SameEnd(MigrateResources(c, now, a), MigrateResources(c, now, b))
  {
    hide UpsertAll, UniqueIds, CountRows, ResourceBatch;
  }

  /** An attempt: its clocks, and how many writes it gets to make. */
  datatype Attempt = Attempt(clocks: Clocks, left: nat)

  function Attempts(d: Disk, attempts: seq<Attempt>): Disk {
    if attempts == [] then d
    else
      var before := Attempts(d, attempts[..|attempts| - 1]);
      var a := attempts[|attempts| - 1];
      Migrate(before, a.clocks, a.left).disk
  }

  /** Each of the readings is one of `t` or of an attempt. */
  ghost predicate ReadDuring(at: Clocks, attempts: seq<Attempt>, t: Clocks) {
    && (at.data == t.data || exists i :: 0 <= i < |attempts| && at.data == attempts[i].clocks.data)
    && (at.sources == t.sources || exists i :: 0 <= i < |attempts| && at.sources == attempts[i].clocks.sources)
    && (at.views == t.views || exists i :: 0 <= i < |attempts| && at.views == attempts[i].clocks.views)
  }

  lemma ReadEarlier(at: Clocks, attempts: seq<Attempt>, middle: Clocks, t: Clocks)
    requires attempts != [] && ReadDuring(at, attempts[..|attempts| - 1], middle)
    requires var last := attempts[|attempts| - 1].clocks;
      && middle.data in {last.data, t.data} && middle.sources in {last.sources, t.sources}
      && middle.views in {last.views, t.views}
    ensures ReadDuring(at, attempts, t)
  {
    var init, last := attempts[..|attempts| - 1], attempts[|attempts| - 1];
    assert attempts[|attempts| - 1] == last;
    forall i | 0 <= i < |init| ensures init[i] == attempts[i] {}
  }

  /**
   Crashes leave no trace. After any number of attempts cut off anywhere, a full run ends, in
   every table, file and error, as one uninterrupted run would have, at clock readings that
   were read.
   */
  lemma {:induction false} CrashesLeaveNoTrace(d: Disk, attempts: seq<Attempt>, t: Clocks) returns (at: Clocks)
    requires Steady(d)
    ensures Steady(Attempts(d, attempts))
    ensures Complete(Attempts(d, attempts), t) == Complete(d, at)
    ensures ReadDuring(at, attempts, t)
    decreases |attempts|
  {
    hide Migrate, Complete, Steady;
    if attempts == [] {
      at := t;
    } else {
      hide ReadDuring;
      var init, a := attempts[..|attempts| - 1], attempts[|attempts| - 1];
      var ignored := CrashesLeaveNoTrace(d, init, t);
      AttemptKeepsSteady(Attempts(d, init), a.clocks, a.left);
      var middle := AttemptResumes(Attempts(d, init), a.clocks, a.left, t);
      at := CrashesLeaveNoTrace(d, init, middle);
      ReadEarlier(at, attempts, middle, t);
    }
  }

  // ---------------------------------------------------------------- clocks that do not matter

  ghost predicate StampedFile(f: Option<File<Entry>>) {
    f.Some? && f.value.Records? ==> forall i :: 0 <= i < |f.value.records| ==> f.value.records[i].updatedAt.Some?
  }

  /** Every record of data.json, migrated or not, carries the time it was updated. */
  ghost predicate Stamped(c: DataChunk) {
    StampedFile(c.current) && StampedFile(c.deprecated)
  }

  lemma {:induction false} StampedBatch(entries: seq<Entry>, a: Time, b: Time)
    requires forall i :: 0 <= i < |entries| ==> entries[i].updatedAt.Some?
    ensures CompletedAll(entries, a) == CompletedAll(entries, b)
    ensures RuntimeBatch(CompletedAll(entries, a), a) == RuntimeBatch(CompletedAll(entries, b), b)
  {
    hide IdOf, RuntimeBatch;
    assert CompletedAll(entries, a) == CompletedAll(entries, b);
    StampedRows(CompletedAll(entries, a), a, b);
  }

  lemma {:induction false} StampedRows(entries: seq<Entry>, a: Time, b: Time)
    requires forall i :: 0 <= i < |entries| ==> entries[i].updatedAt.Some?
    ensures RuntimeBatch(entries, a) == RuntimeBatch(entries, b)
  {
    hide IdOf;
    if entries != [] {
      StampedRows(entries[..|entries| - 1], a, b);
    }
  }

  /** The payloads of a table, without the times they were written. */
  function Payloads(rows: map<string, StoredRow>): map<string, string> {
    map id | id in rows :: rows[id].payload
  }

  lemma PayloadsOfNext(rows: map<string, StoredRow>, id: string, payload: string, now: Time)
    ensures Payloads(rows[id := StoredRow(payload, now)]) == Payloads(rows)[id := payload]
  {
  }

  lemma UpsertOfNext(rows: map<string, StoredRow>, resources: seq<Resource>, now: Time)
    requires resources != []
    ensures var last := resources[|resources| - 1];
      UpsertAll(rows, ResourceBatch(resources, now)) ==
      UpsertAll(rows, ResourceBatch(resources[..|resources| - 1], now))[last.id := StoredRow(last.payload, now)]
  {
    var batch := ResourceBatch(resources, now);
    assert batch[..|batch| - 1] == ResourceBatch(resources[..|resources| - 1], now);
  }

  lemma {:induction false} PayloadsOfBatch(rows: map<string, StoredRow>, resources: seq<Resource>, a: Time, b: Time)
    ensures Payloads(UpsertAll(rows, ResourceBatch(resources, a))) == Payloads(UpsertAll(rows, ResourceBatch(resources, b)))
  {
    if resources != [] {
      hide *;
      var init, last := resources[..|resources| - 1], resources[|resources| - 1];
      PayloadsOfBatch(rows, init, a, b);
      UpsertOfNext(rows, resources, a);
      UpsertOfNext(rows, resources, b);
      PayloadsOfNext(UpsertAll(rows, ResourceBatch(init, a)), last.id, last.payload, a);
      PayloadsOfNext(UpsertAll(rows, ResourceBatch(init, b)), last.id, last.payload, b);
    } else {
      assert ResourceBatch(resources, a) == ResourceBatch(resources, b);
    }
  }

  /** The same files and payloads, written at other times. */
  ghost predicate SameContent(c: ResourceChunk, e: ResourceChunk) {
    c.current == e.current && c.deprecated == e.deprecated && Payloads(c.rows) == Payloads(e.rows)
  }

  lemma BatchAtAnyTime(c: ResourceChunk, a: Batch<StoredRow>, b: Batch<StoredRow>, left: nat)
    requires c.current.Some? && Payloads(UpsertAll(c.rows, a)) == Payloads(UpsertAll(c.rows, b))
    ensures SameContent(MigrateBatch(c, a, left).chunk, MigrateBatch(c, b, left).chunk)
    ensures MigrateBatch(c, a, left).status == MigrateBatch(c, b, left).status
    ensures MigrateBatch(c, a, left).left == MigrateBatch(c, b, left).left
  {
    hide UpsertAll, UniqueIds, CountRows, Payloads;
    ValidationPasses(c.rows, a);
    ValidationPasses(c.rows, b);
  }

  lemma ResourcesAtAnyTime(c: ResourceChunk, a: Time, b: Time, left: nat)
    ensures SameContent(MigrateResources(c, a, left).chunk, MigrateResources(c, b, left).chunk)
    ensures MigrateResources(c, a, left).status == MigrateResources(c, b, left).status
    ensures MigrateResources(c, a, left).left == MigrateResources(c, b, left).left
  {
    hide UpsertAll, MigrateBatch, ResourceBatch, Payloads;
    if c.current.Some? && c.current.value.Records? {
      var resources := c.current.value.records;
      PayloadsOfBatch(c.rows, resources, a, b);
      BatchAtAnyTime(c, ResourceBatch(resources, a), ResourceBatch(resources, b), left);
    }
  }

  lemma DataAtAnyTime(c: DataChunk, stored: set<string>, a: Time, b: Time, left: nat)
    requires Stamped(c)
    ensures MigrateData(c, stored, a, left) == MigrateData(c, stored, b, left)
  {
    hide UpsertAll, UniqueIds, CountRows, CompletedAll, RuntimeBatch, IdsOfEntries, HasIds, RepairTargets;
    if c.current.None? {
      if c.deprecated.Some? && c.deprecated.value.Records? {
        StampedRows(c.deprecated.value.records, a, b);
      }
    } else if c.current.value.Records? {
      StampedBatch(c.current.value.records, a, b);
    }
  }

  ghost predicate SameTables(a: Disk, b: Disk) {
    a.data == b.data && SameContent(a.sources, b.sources) && SameContent(a.views, b.views)
  }

  lemma CompleteAtAnyTime(d: Disk, a: Clocks, b: Clocks)
    requires Stamped(d.data)
    ensures SameTables(Complete(d, a).disk, Complete(d, b).disk) && Complete(d, a).status == Complete(d, b).status
  {
    hide MigrateData, MigrateResources, Stamped;
    DataAtAnyTime(d.data, d.sources.rows.Keys, a.data, b.data, ALL_WRITES);
    var data := MigrateData(d.data, d.sources.rows.Keys, a.data, ALL_WRITES);
    ResourcesAtAnyTime(d.sources, a.sources, b.sources, data.left);
    ResourcesAtAnyTime(d.views, a.views, b.views, MigrateResources(d.sources, a.sources, data.left).left);
  }

  /**
   Crash idempotence. If the records of data.json are stamped, then after any crashes a full
   run gives the same runtime table, the same stored payloads, the same files and the same
   outcome as one uninterrupted run at any time.
   */
  lemma CrashIdempotent(d: Disk, attempts: seq<Attempt>, t: Clocks, once: Clocks)
    requires Stamped(d.data) && Steady(d)
    ensures SameTables(Complete(Attempts(d, attempts), t).disk, Complete(d, once).disk)
    ensures Complete(Attempts(d, attempts), t).status == Complete(d, once).status
  {
    hide Complete, Attempts, SameTables, Steady, Stamped;
    var at := CrashesLeaveNoTrace(d, attempts, t);
    CompleteAtAnyTime(d, at, once);
  }

  /** Every attempt was cut off before its end. */
  ghost predicate AllCutOff(d: Disk, attempts: seq<Attempt>) {
    forall i :: 0 <= i < |attempts| ==>
      Migrate(Attempts(d, attempts[..i]), attempts[i].clocks, attempts[i].left).status == Dead
  }

  /** However often the run is cut off, running to the end gives what one uninterrupted run gives. */
  ghost predicate Idempotent(d: Disk) {
    forall attempts, t, once :: AllCutOff(d, attempts) ==>
      && SameTables(Complete(Attempts(d, attempts), t).disk, Complete(d, once).disk)
      && Complete(Attempts(d, attempts), t).status == Complete(d, once).status
  }

  /** What an unsteady state is: a data file migrated before, whose repair has nothing to do now, but has later. */
  lemma UnsteadyMeans(d: Disk)
    requires !Steady(d)
    ensures var c, stored := d.data, d.sources.rows.Keys;
      && c.current.None? && c.deprecated.Some? && c.deprecated.value.Records?
      && RepairTargets(c.deprecated.value.records, stored) <= c.rows.Keys
      && !(RepairTargets(c.deprecated.value.records, StoredAfter(d.sources)) <= c.rows.Keys)
      && StoredAfter(d.sources) != stored
  {
    hide RepairTargets, StoredAfter;
  }

  /** With such targets the repair adds rows. */
  lemma LateRepair(c: DataChunk, after: set<string>, now: Time, left: nat)
    requires c.current.None? && c.deprecated.Some? && c.deprecated.value.Records? && left > 0
    requires !(RepairTargets(c.deprecated.value.records, after) <= c.rows.Keys)
    ensures MigrateData(c, after, now, left).chunk.rows.Keys != c.rows.Keys
  {
    hide UpsertAll, UniqueIds, Ids, CountRows, RuntimeBatch, IdsOfEntries, RepairTargets;
    var entries := c.deprecated.value.records;
    var batch := RuntimeBatch(entries, now);
    ValidationPasses(c.rows, batch);
    RuntimeIds(entries, now);
    UpsertKeys(c.rows, batch);
    TargetsAreIds(entries, after);
  }

  lemma NoRepairNow(c: DataChunk, stored: set<string>, now: Time, left: nat)
    requires c.current.None? && c.deprecated.Some? && c.deprecated.value.Records?
    requires RepairTargets(c.deprecated.value.records, stored) <= c.rows.Keys
    ensures MigrateData(c, stored, now, left) == Stage(c, left, Done)
  {
    hide RepairTargets;
  }

  /** The data part of a full run. */
  lemma DataOfComplete(d: Disk, t: Clocks)
    ensures Complete(d, t).disk.data == MigrateData(d.data, d.sources.rows.Keys, t.data, ALL_WRITES).chunk
  {
    hide MigrateData, MigrateResources;
  }

  /** An unsteady state and one crash, between the upsert of the sources and their rename: the data file is repaired after all. */
  lemma CrashDiffers(d: Disk, t: Clocks, again: Clocks)
    requires !Steady(d)
    ensures Migrate(d, t, 1).status == Dead
    ensures Complete(Migrate(d, t, 1).disk, again).disk.data.rows.Keys != Complete(d, t).disk.data.rows.Keys
  {
    hide MigrateData, MigrateResources, StoredAfter, RepairTargets, Steady, Complete;
    UnsteadyMeans(d);
    NoRepairNow(d.data, d.sources.rows.Keys, t.data, 1);
    NoRepairNow(d.data, d.sources.rows.Keys, t.data, ALL_WRITES);
    CutAfterUpsert(d.sources, t.sources);
    DataOfComplete(d, t);
    DataOfComplete(Migrate(d, t, 1).disk, again);
    LateRepair(d.data, StoredAfter(d.sources), again.data, ALL_WRITES);
  }

  lemma CutAfterUpsert(c: ResourceChunk, now: Time)
    requires StoredAfter(c) != c.rows.Keys
    ensures MigrateResources(c, now, 1).status == Dead
    ensures MigrateResources(c, now, 1).chunk.rows.Keys == StoredAfter(c)
  {
    hide UpsertAll, UniqueIds, CountRows;
    var resources := c.current.value.records;
    ValidationPasses(c.rows, ResourceBatch(resources, now));
    UpsertKeys(c.rows, ResourceBatch(resources, now));
    assert Ids(ResourceBatch(resources, now)) == set i | 0 <= i < |resources| :: resources[i].id;
  }

  /** Without any crash the repair comes too late for the run that brings it about: the next run makes it. */
  lemma UnsteadyDiffers(d: Disk, t: Clocks, again: Clocks)
    requires !Steady(d)
    ensures Complete(Complete(d, t).disk, again).disk.data.rows.Keys != Complete(d, t).disk.data.rows.Keys
  {
    hide MigrateData, MigrateResources, StoredAfter, RepairTargets, Steady;
    UnsteadyMeans(d);
    NoRepairNow(d.data, d.sources.rows.Keys, t.data, ALL_WRITES);
    MigrationStores(d.sources, t.sources, ALL_WRITES);
    SourcesAreReached(d.sources, t.sources, ALL_WRITES);
    DataOfComplete(d, t);
    DataOfComplete(Complete(d, t).disk, again);
    LateRepair(d.data, StoredAfter(d.sources), again.data, ALL_WRITES);
  }

  lemma SourcesAreReached(c: ResourceChunk, now: Time, left: nat)
    requires left >= 2 && StoredAfter(c) != c.rows.Keys
    ensures MigrateResources(c, now, left).status == Done
  {
    hide UpsertAll, UniqueIds, CountRows, ResourceBatch;
    ValidationPasses(c.rows, ResourceBatch(c.current.value.records, now));
  }

  lemma TargetsAreIds(entries: seq<Entry>, stored: set<string>)
    ensures RepairTargets(entries, stored) <= IdsOfEntries(entries)
  {
    hide IdsOfEntries;
  }

  lemma OneAttempt(d: Disk, a: Attempt)
    ensures Attempts(d, [a]) == Migrate(d, a.clocks, a.left).disk
    ensures AllCutOff(d, [a]) <==> Migrate(d, a.clocks, a.left).status == Dead
  {
    hide Migrate;
    assert [a][..0] == [];
    assert Attempts(d, []) == d;
  }

  /** Crash idempotence holds exactly for the states in which no repair is waiting for the sources. */
  lemma IdempotentExactly(d: Disk)
    requires Stamped(d.data)
    ensures Idempotent(d) <==> Steady(d)
  {
    hide Complete, Attempts, SameTables, Steady, Stamped, Migrate, AllCutOff;
    if Steady(d) {
      forall attempts, t, once | AllCutOff(d, attempts)
        ensures SameTables(Complete(Attempts(d, attempts), t).disk, Complete(d, once).disk)
        ensures Complete(Attempts(d, attempts), t).status == Complete(d, once).status
      {
        CrashIdempotent(d, attempts, t, once);
      }
    } else {
      var t := Clocks(0.0, 0.0, 0.0);
      CrashDiffers(d, t, t);
      OneAttempt(d, Attempt(t, 1));
      OtherTables(Complete(Attempts(d, [Attempt(t, 1)]), t).disk, Complete(d, t).disk);
    }
  }

  lemma OtherTables(a: Disk, b: Disk)
    requires a.data.rows.Keys != b.data.rows.Keys
    ensures !SameTables(a, b)
  {
  }

  /** Running again after a run that ended changes nothing, exactly for the same states. */
  lemma MigrateTwice(d: Disk, t: Clocks, again: Clocks)
    requires Complete(d, t).status == Done
    ensures Complete(Complete(d, t).disk, again) == Complete(d, t) <==> Steady(d)
  {
    hide Complete, Steady;
    if Steady(d) {
      SteadyTwice(d, t, again);
    } else {
      UnsteadyDiffers(d, t, again);
    }
  }

  lemma SteadyTwice(d: Disk, t: Clocks, again: Clocks)
    requires Steady(d) && Complete(d, t).status == Done
    ensures Complete(Complete(d, t).disk, again) == Complete(d, t)
  {
    hide MigrateData, MigrateResources, NoLaterRepair, StoredAfter;
    var r := Complete(d, t).disk;
    var data := MigrateData(d.data, d.sources.rows.Keys, t.data, ALL_WRITES);
    var sources := MigrateResources(d.sources, t.sources, data.left);
    MigrationStores(d.sources, t.sources, data.left);
    DataUsesTwoWrites(d.data, d.sources.rows.Keys, t.data, ALL_WRITES);
    DataUsesTwoWrites(r.data, r.sources.rows.Keys, again.data, ALL_WRITES);
    StagesUseTwoWrites(d.sources, t.sources, data.left);
    var dataA := MigrateData(r.data, r.sources.rows.Keys, again.data, ALL_WRITES);
    StagesUseTwoWrites(r.sources, again.sources, dataA.left);
    var x := DataResumes(
      d.data, d.sources.rows.Keys, t.data, ALL_WRITES, r.sources.rows.Keys, again.data, ALL_WRITES, ALL_WRITES);
    var y := ResourcesResume(d.sources, t.sources, data.left, again.sources, dataA.left, data.left);
    var z := ResourcesResume(d.views, t.views, sources.left, again.views,
      MigrateResources(r.sources, again.sources, dataA.left).left, sources.left);
  }
}
