/**
 What a migration leaves in each table and file, row by row: which record wins, what it says
 afterwards, and what a crash leaves half done.
 */
module MigrationLaws {
  import opened Wrappers
  import opened StartupMigration
  import Text
  import TemplateShapes
  import TemplateSyntax

  // ---------------------------------------------------------------- ids

  /** The record's source id is this one, white space around it aside. */
  ghost predicate HasId(e: Entry, id: string) {
    id != "" && e.sourceId.Some? && TemplateShapes.Padded(e.sourceId.value, id)
  }

  /** The record has no source id, or a blank one. */
  ghost predicate Nameless(e: Entry) {
    e.sourceId == None || TemplateShapes.Padded(e.sourceId.value, "")
  }

  lemma IdExactly(e: Entry, id: string)
    ensures HasId(e, id) <==> id != "" && IdOf(e) == id
    ensures Nameless(e) <==> IdOf(e) == ""
  {
    hide Text.Trim, TemplateShapes.Padded;
    if e.sourceId.Some? {
      TemplateShapes.PaddedExactly(e.sourceId.value, id);
      TemplateShapes.PaddedExactly(e.sourceId.value, "");
    }
  }

  /** The last record with this id. */
  ghost predicate LastWith(entries: seq<Entry>, id: string, i: nat) {
    i < |entries| && HasId(entries[i], id) && forall j :: i < j < |entries| ==> !HasId(entries[j], id)
  }

  ghost predicate NoneWith(entries: seq<Entry>, id: string) {
    forall i :: 0 <= i < |entries| ==> !HasId(entries[i], id)
  }

  lemma BatchNext(entries: seq<Entry>, now: Time)
    requires entries != []
    ensures var init, e := entries[..|entries| - 1], entries[|entries| - 1];
      RuntimeBatch(entries, now) == RuntimeBatch(init, now) + if IdOf(e) == "" then [] else [(IdOf(e), RowOf(e, now))]
  {
    hide IdOf, RowOf;
    assert RuntimeBatch(entries[..|entries| - 1], now) + [] == RuntimeBatch(entries[..|entries| - 1], now);
  }

  lemma UpsertNext<R>(rows: map<string, R>, batch: Batch<R>, id: string, row: R)
    ensures UpsertAll(rows, batch + [(id, row)]) == UpsertAll(rows, batch)[id := row]
  {
    var all := batch + [(id, row)];
    assert all[..|all| - 1] == batch;
  }

  /** The rows after one more record. */
  lemma RowsNext(rows: map<string, RuntimeRow>, entries: seq<Entry>, now: Time)
    requires entries != []
    ensures var init, e := entries[..|entries| - 1], entries[|entries| - 1];
      var before := UpsertAll(rows, RuntimeBatch(init, now));
      UpsertAll(rows, RuntimeBatch(entries, now)) == if IdOf(e) == "" then before else before[IdOf(e) := RowOf(e, now)]
  {
    hide IdOf, RowOf, UpsertAll, RuntimeBatch;
    var init, e := entries[..|entries| - 1], entries[|entries| - 1];
    BatchNext(entries, now);
    UpsertNext(rows, RuntimeBatch(init, now), IdOf(e), RowOf(e, now));
    assert RuntimeBatch(init, now) + [] == RuntimeBatch(init, now);
  }

  /** The last record of an id wins. */
  lemma {:induction false} RowWritten(rows: map<string, RuntimeRow>, entries: seq<Entry>, now: Time, id: string, i: nat)
    requires LastWith(entries, id, i)
    ensures var rows' := UpsertAll(rows, RuntimeBatch(entries, now)); id in rows' && rows'[id] == RowOf(entries[i], now)
    decreases |entries|
  {
    hide IdOf, RowOf, UpsertAll, RuntimeBatch, HasId;
    var init, e := entries[..|entries| - 1], entries[|entries| - 1];
    RowsNext(rows, entries, now);
    IdExactly(e, id);
    if i < |entries| - 1 {
      assert forall j :: 0 <= j < |init| ==> init[j] == entries[j];
      HasIdIsNoBlank(init[i], id);
      RowWritten(rows, init, now, id, i);
    } else {
      HasIdIsNoBlank(e, id);
    }
  }

  lemma HasIdIsNoBlank(e: Entry, id: string)
    requires HasId(e, id)
    ensures id != ""
  {
  }

  /** Rows of other ids stay. */
  lemma {:induction false} RowKept(rows: map<string, RuntimeRow>, entries: seq<Entry>, now: Time, id: string)
    requires NoneWith(entries, id)
    ensures var rows' := UpsertAll(rows, RuntimeBatch(entries, now));
      (id in rows' <==> id in rows) && (id in rows ==> rows'[id] == rows[id])
    decreases |entries|
  {
    hide IdOf, RowOf, UpsertAll, RuntimeBatch, HasId;
    if entries == [] {
      NoRows(rows, now);
    } else {
      var init, e := entries[..|entries| - 1], entries[|entries| - 1];
      RowsNext(rows, entries, now);
      IdExactly(e, id);
      assert NoneWith(init, id) by {
        assert forall j :: 0 <= j < |init| ==> init[j] == entries[j];
      }
      RowKept(rows, init, now, id);
    }
  }

  lemma NoRows(rows: map<string, RuntimeRow>, now: Time)
    ensures UpsertAll(rows, RuntimeBatch([], now)) == rows
  {
  }

  // ---------------------------------------------------------------- data.json

  ghost function TimeOr(time: Option<Time>, now: Time): Time {
    if time.Some? then time.value else now
  }

  /** The migrated row of a record: its id trimmed, its data as it was, its times completed, the columns likewise. */
  ghost predicate MigratedRow(row: RuntimeRow, e: Entry, id: string, now: Time) {
    var updated := TimeOr(e.updatedAt, now);
    var succeeded := if e.lastSuccessAt.Some? then e.lastSuccessAt else if e.data.Some? then Some(updated) else None;
    row == RuntimeRow(Entry(Some(id), e.data, Some(updated), succeeded), updated, succeeded)
  }

  /** Every row is that of the last record with its id, or as it was before. */
  ghost predicate DataWritten(rows: map<string, RuntimeRow>, rows': map<string, RuntimeRow>, entries: seq<Entry>, now: Time) {
    && (forall id: string, i: nat :: LastWith(entries, id, i) ==> id in rows' && MigratedRow(rows'[id], entries[i], id, now))
    && (forall id :: NoneWith(entries, id) ==> (id in rows' <==> id in rows) && (id in rows ==> rows'[id] == rows[id]))
  }

  lemma CompletedExactly(e: Entry, id: string, now: Time)
    requires HasId(e, id)
    ensures HasId(Completed(e, now), id) && MigratedRow(RowOf(Completed(e, now), now), e, id, now)
  {
    IdExactly(e, id);
    CompletedId(e, now);
    IdExactly(Completed(e, now), id);
    hide IdOf, TemplateShapes.Padded;
  }

  lemma CompletedSameId(e: Entry, id: string, now: Time)
    ensures HasId(Completed(e, now), id) <==> HasId(e, id)
  {
    hide IdOf, HasId, Completed;
    IdExactly(e, id);
    CompletedId(e, now);
    IdExactly(Completed(e, now), id);
  }

  lemma DataRows(rows: map<string, RuntimeRow>, entries: seq<Entry>, now: Time)
    ensures DataWritten(rows, UpsertAll(rows, RuntimeBatch(CompletedAll(entries, now), now)), entries, now)
  {
    hide UpsertAll, RuntimeBatch, HasId, MigratedRow, Completed, RowOf;
    var all := CompletedAll(entries, now);
    forall id, i | 0 <= i < |entries| ensures HasId(all[i], id) <==> HasId(entries[i], id) {
      CompletedSameId(entries[i], id, now);
    }
    forall id: string, i: nat | LastWith(entries, id, i)
      ensures id in UpsertAll(rows, RuntimeBatch(all, now))
      ensures MigratedRow(UpsertAll(rows, RuntimeBatch(all, now))[id], entries[i], id, now)
    {
      RowWritten(rows, all, now, id, i);
      CompletedExactly(entries[i], id, now);
    }
    forall id | NoneWith(entries, id)
      ensures id in UpsertAll(rows, RuntimeBatch(all, now)) <==> id in rows
      ensures id in rows ==> UpsertAll(rows, RuntimeBatch(all, now))[id] == rows[id]
    {
      RowKept(rows, all, now, id);
    }
  }

  /** A stage that gets as far as its writes allow: the rows with the first, the rename with the second. */
  ghost predicate GetsThrough<T, R>(c: Chunk<T, R>, o: Stage<T, R>, left: nat) {
    && (left == 0 ==> o == Stage(c, 0, Dead))
    && (left == 1 ==> o.status == Dead && o.left == 0 && o.chunk.current == c.current && o.chunk.deprecated == c.deprecated)
    && (left >= 2 ==> o.status == Done && o.left == left - 2 && o.chunk.current == None && o.chunk.deprecated == c.current)
  }

  lemma BatchGetsThrough<T, R>(c: Chunk<T, R>, batch: Batch<R>, left: nat)
    requires c.current.Some?
    ensures GetsThrough(c, MigrateBatch(c, batch, left), left)
    ensures left >= 1 ==> MigrateBatch(c, batch, left).chunk.rows == UpsertAll(c.rows, batch)
  {
    hide UpsertAll, UniqueIds, CountRows;
    ValidationPasses(c.rows, batch);
  }

  /** The migration of data.json: refused as a whole if a record has no id, else all its rows are written and it is renamed. */
  lemma DataFileExactly(c: DataChunk, entries: seq<Entry>, stored: set<string>, now: Time, left: nat)
    requires c.current == Some(Records(entries)) && c.deprecated == None
    ensures var o := MigrateData(c, stored, now, left);
      if exists i :: 0 <= i < |entries| && Nameless(entries[i]) then o == Stage(c, left, Failed)
      else GetsThrough(c, o, left) && (left >= 1 ==> DataWritten(c.rows, o.chunk.rows, entries, now))
  {
    hide UpsertAll, RuntimeBatch, CompletedAll, MigrateBatch, Nameless, IdOf, GetsThrough, DataWritten;
    forall i | 0 <= i < |entries| ensures Nameless(entries[i]) <==> IdOf(entries[i]) == "" {
      IdExactly(entries[i], "");
    }
    BatchGetsThrough(c, RuntimeBatch(CompletedAll(entries, now), now), left);
    DataRows(c.rows, entries, now);
  }

  /** A file that cannot be read fails the run; one that was migrated before is left alone. */
  lemma OtherFilesExactly(c: DataChunk, stored: set<string>, now: Time, left: nat)
    ensures c.current.Some? && c.deprecated.Some? ==> MigrateData(c, stored, now, left) == Stage(c, left, Done)
    ensures c.current == None && c.deprecated == None ==> MigrateData(c, stored, now, left) == Stage(c, left, Done)
    ensures c.current == Some(Malformed) && c.deprecated == None ==> MigrateData(c, stored, now, left) == Stage(c, left, Failed)
    ensures c.current == None && c.deprecated == Some(Malformed) ==> MigrateData(c, stored, now, left) == Stage(c, left, Failed)
  {
    hide UpsertAll, RuntimeBatch, CompletedAll, MigrateBatch, HasIds;
  }

  // ---------------------------------------------------------------- the repair

  /** A row that the repair looks for is missing: of a source that is stored, or of any if none of the file's is. */
  ghost predicate Lacks(c: DataChunk, entries: seq<Entry>, stored: set<string>) {
    exists id, i :: 0 <= i < |entries| && HasId(entries[i], id) && id !in c.rows && (id in stored || NoneStored(entries, stored))
  }

  ghost predicate NoneStored(entries: seq<Entry>, stored: set<string>) {
    forall id, i :: 0 <= i < |entries| && HasId(entries[i], id) ==> id !in stored
  }

  /** The repaired row of a record: the record as it is, the columns from its times. */
  ghost predicate RepairedRow(row: RuntimeRow, e: Entry, now: Time) {
    row == RuntimeRow(e, TimeOr(e.updatedAt, now), e.lastSuccessAt)
  }

  ghost predicate DataRepaired(rows: map<string, RuntimeRow>, rows': map<string, RuntimeRow>, entries: seq<Entry>, now: Time) {
    && (forall id: string, i: nat :: LastWith(entries, id, i) ==> id in rows' && RepairedRow(rows'[id], entries[i], now))
    && (forall id :: NoneWith(entries, id) ==> (id in rows' <==> id in rows) && (id in rows ==> rows'[id] == rows[id]))
  }

  lemma EntryIds(entries: seq<Entry>, id: string)
    ensures id in IdsOfEntries(entries) <==> exists i :: 0 <= i < |entries| && HasId(entries[i], id)
  {
    hide IdOf, HasId;
    forall i | 0 <= i < |entries| ensures HasId(entries[i], id) <==> id != "" && IdOf(entries[i]) == id {
      IdExactly(entries[i], id);
    }
  }

  lemma LacksExactly(c: DataChunk, entries: seq<Entry>, stored: set<string>)
    ensures RepairTargets(entries, stored) <= c.rows.Keys <==> !Lacks(c, entries, stored)
  {
    hide IdsOfEntries, HasId;
    var ids := IdsOfEntries(entries);
    forall id ensures id in ids <==> exists i :: 0 <= i < |entries| && HasId(entries[i], id) {
      EntryIds(entries, id);
    }
    assert NoneStored(entries, stored) <==> ids * stored == {} by {
      if ids * stored == {} {
        forall id, i | 0 <= i < |entries| && HasId(entries[i], id) ensures id !in stored {
          assert id in ids;
          assert id in stored ==> id in ids * stored;
        }
      }
    }
    if !(RepairTargets(entries, stored) <= c.rows.Keys) {
      var id :| id in RepairTargets(entries, stored) && id !in c.rows.Keys;
      var i :| 0 <= i < |entries| && HasId(entries[i], id);
    }
    if Lacks(c, entries, stored) {
      var id, i :| 0 <= i < |entries| && HasId(entries[i], id) && id !in c.rows && (id in stored || NoneStored(entries, stored));
      assert id in ids;
      assert id in RepairTargets(entries, stored);
    }
  }

  lemma RepairedRows(rows: map<string, RuntimeRow>, entries: seq<Entry>, now: Time)
    ensures DataRepaired(rows, UpsertAll(rows, RuntimeBatch(entries, now)), entries, now)
  {
    hide UpsertAll, RuntimeBatch, HasId;
    forall id: string, i: nat | LastWith(entries, id, i)
      ensures id in UpsertAll(rows, RuntimeBatch(entries, now))
      ensures RepairedRow(UpsertAll(rows, RuntimeBatch(entries, now))[id], entries[i], now)
    {
      RowWritten(rows, entries, now, id, i);
    }
    forall id | NoneWith(entries, id)
      ensures id in UpsertAll(rows, RuntimeBatch(entries, now)) <==> id in rows
      ensures id in rows ==> UpsertAll(rows, RuntimeBatch(entries, now))[id] == rows[id]
    {
      RowKept(rows, entries, now, id);
    }
  }

  /** The repair of a file migrated before: nothing if no row it looks for is missing, else all its records are written as they are. */
  lemma RepairExactly(c: DataChunk, entries: seq<Entry>, stored: set<string>, now: Time, left: nat)
    requires c.current == None && c.deprecated == Some(Records(entries))
    ensures var o := MigrateData(c, stored, now, left);
      && (!Lacks(c, entries, stored) ==> o == Stage(c, left, Done))
      && (Lacks(c, entries, stored) && left == 0 ==> o == Stage(c, 0, Dead))
      && (Lacks(c, entries, stored) && left >= 1 ==>
           (o.status == Done && o.left == left - 1 && o.chunk.current == None && o.chunk.deprecated == c.deprecated
            && DataRepaired(c.rows, o.chunk.rows, entries, now)))
  {
    hide UpsertAll, RuntimeBatch, RepairTargets, Lacks, UniqueIds, CountRows, DataRepaired;
    LacksExactly(c, entries, stored);
    ValidationPasses(c.rows, RuntimeBatch(entries, now));
    RepairedRows(c.rows, entries, now);
  }

  // ---------------------------------------------------------------- sources.json and views.json

  ghost predicate LastResource(resources: seq<Resource>, id: string, i: nat) {
    i < |resources| && resources[i].id == id && forall j :: i < j < |resources| ==> resources[j].id != id
  }

  ghost predicate NoResource(resources: seq<Resource>, id: string) {
    forall i :: 0 <= i < |resources| ==> resources[i].id != id
  }

  ghost predicate ResourcesWritten(
    rows: map<string, StoredRow>, rows': map<string, StoredRow>, resources: seq<Resource>, now: Time)
  {
    && (forall id: string, i: nat :: LastResource(resources, id, i) ==> id in rows' && rows'[id] == StoredRow(resources[i].payload, now))
    && (forall id :: NoResource(resources, id) ==> (id in rows' <==> id in rows) && (id in rows ==> rows'[id] == rows[id]))
  }

  lemma {:induction false} ResourceWritten(rows: map<string, StoredRow>, resources: seq<Resource>, now: Time, id: string, i: nat)
    requires LastResource(resources, id, i)
    ensures var rows' := UpsertAll(rows, ResourceBatch(resources, now));
      id in rows' && rows'[id] == StoredRow(resources[i].payload, now)
    decreases |resources|
  {
    hide UpsertAll, ResourceBatch;
    UpsertOfNext(rows, resources, now);
    if i < |resources| - 1 {
      ResourceWritten(rows, resources[..|resources| - 1], now, id, i);
    }
  }

  lemma {:induction false} ResourceKept(rows: map<string, StoredRow>, resources: seq<Resource>, now: Time, id: string)
    requires NoResource(resources, id)
    ensures var rows' := UpsertAll(rows, ResourceBatch(resources, now));
      (id in rows' <==> id in rows) && (id in rows ==> rows'[id] == rows[id])
    decreases |resources|
  {
    hide UpsertAll, ResourceBatch;
    if resources == [] {
      NoResources(rows, now);
    } else {
      UpsertOfNext(rows, resources, now);
      ResourceKept(rows, resources[..|resources| - 1], now, id);
    }
  }

  lemma NoResources(rows: map<string, StoredRow>, now: Time)
    ensures UpsertAll(rows, ResourceBatch([], now)) == rows
  {
  }

  /** The migration of sources or views: every payload is written, the last of an id winning, and the file is renamed. */
  lemma ResourceFileExactly(c: ResourceChunk, resources: seq<Resource>, now: Time, left: nat)
    requires c.current == Some(Records(resources)) && c.deprecated == None
    ensures var o := MigrateResources(c, now, left);
      GetsThrough(c, o, left) && (left >= 1 ==> ResourcesWritten(c.rows, o.chunk.rows, resources, now))
  {
    hide UpsertAll, ResourceBatch, MigrateBatch, GetsThrough;
    var batch := ResourceBatch(resources, now);
    BatchGetsThrough(c, batch, left);
    forall id: string, i: nat | LastResource(resources, id, i)
      ensures id in UpsertAll(c.rows, batch) && UpsertAll(c.rows, batch)[id] == StoredRow(resources[i].payload, now)
    {
      ResourceWritten(c.rows, resources, now, id, i);
    }
    forall id | NoResource(resources, id)
      ensures id in UpsertAll(c.rows, batch) <==> id in c.rows
      ensures id in c.rows ==> UpsertAll(c.rows, batch)[id] == c.rows[id]
    {
      ResourceKept(c.rows, resources, now, id);
    }
  }

  lemma OtherResourceFiles(c: ResourceChunk, now: Time, left: nat)
    ensures c.current == None || c.deprecated != None ==> MigrateResources(c, now, left) == Stage(c, left, Done)
    ensures c.current == Some(Malformed) && c.deprecated == None ==> MigrateResources(c, now, left) == Stage(c, left, Failed)
  {
    hide MigrateBatch;
  }

  // ---------------------------------------------------------------- the run


  /** The run takes data.json, sources.json and views.json in this order, and an error in one of them ends it there. */
  lemma RunExactly(d: Disk, t: Clocks)
    ensures var r := Complete(d, t);
      var data := MigrateData(d.data, d.sources.rows.Keys, t.data, 2);
      var sources := MigrateResources(d.sources, t.sources, 2);
      var views := MigrateResources(d.views, t.views, 2);
      && r.disk.data == data.chunk
      && (data.status == Failed ==> r == Run(Disk(data.chunk, d.sources, d.views), Failed))
      && (data.status != Failed ==> r.disk.sources == sources.chunk)
      && (data.status != Failed && sources.status == Failed ==> r == Run(Disk(data.chunk, sources.chunk, d.views), Failed))
      && (data.status != Failed && sources.status != Failed ==>
           r == Run(Disk(data.chunk, sources.chunk, views.chunk), views.status))
  {
    hide MigrateData, MigrateResources;
    var data := MigrateData(d.data, d.sources.rows.Keys, t.data, ALL_WRITES);
    DataUsesTwoWrites(d.data, d.sources.rows.Keys, t.data, ALL_WRITES);
    DataUsesTwoWrites(d.data, d.sources.rows.Keys, t.data, 2);
    DataLeftDoesNotMatter(d.data, d.sources.rows.Keys, t.data, ALL_WRITES, 2);
    var sources := MigrateResources(d.sources, t.sources, data.left);
    StagesUseTwoWrites(d.sources, t.sources, data.left);
    StagesUseTwoWrites(d.sources, t.sources, 2);
    LeftDoesNotMatter(d.sources, t.sources, data.left, 2);
    LeftDoesNotMatter(d.views, t.views, sources.left, 2);
  }

  lemma DataLeftDoesNotMatter(c: DataChunk, stored: set<string>, now: Time, a: nat, b: nat)
    requires a >= 2 && b >= 2
    ensures SameEnd(MigrateData(c, stored, now, a), MigrateData(c, stored, now, b))
  {
    hide UpsertAll, UniqueIds, CountRows, RuntimeBatch, CompletedAll, RepairTargets, HasIds;
  }
}
