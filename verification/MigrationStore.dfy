/** The migration as the program runs it: loops over records inside a transaction, then the renames. */
module MigrationStore {
  import opened Wrappers
  import opened StartupMigration
  import Text
  import TemplateSyntax

  class Store {
    var data: DataChunk
    var sources: ResourceChunk
    var views: ResourceChunk

    ghost function Model(): Disk
      reads this
    {
      Disk(data, sources, views)
    }

    constructor (d: Disk)
      ensures Model() == d
    {
      data, sources, views := d.data, d.sources, d.views;
    }

    /** The transaction over runtime records: each is written, ids are listed as they first appear. */
    method UpsertMigrationLatest(records: seq<Entry>, now: Time) returns (ids: seq<string>)
      modifies this`data
      ensures data == old(data).(rows := UpsertAll(old(data.rows), RuntimeBatch(records, now)))
      ensures ids == UniqueIds(RuntimeBatch(records, now))
    {
      hide IdOf, RowOf, Ids;
      ids := [];
      var seen: set<string> := {};
      var i := 0;
      while i < |records|
        invariant 0 <= i <= |records|
        invariant data == old(data).(rows := UpsertAll(old(data.rows), RuntimeBatch(records[..i], now)))
        invariant ids == UniqueIds(RuntimeBatch(records[..i], now))
        invariant forall id :: id in seen <==> id in ids
      {
        assert records[..i + 1][..i] == records[..i];
        var id := IdOf(records[i]);
        if id != "" {
          BatchGrows(old(data.rows), RuntimeBatch(records[..i], now), id, RowOf(records[i], now));
          data := data.(rows := data.rows[id := RowOf(records[i], now)]);
          if id !in seen {
            seen := seen + {id};
            ids := ids + [id];
          }
        }
        i := i + 1;
      }
      assert records[..i] == records;
    }

    method UpsertMigrationResources(c: ResourceChunk, resources: seq<Resource>, now: Time)
      returns (r: ResourceChunk, ids: seq<string>)
      ensures r == c.(rows := UpsertAll(c.rows, ResourceBatch(resources, now)))
      ensures ids == UniqueIds(ResourceBatch(resources, now))
    {
      hide Ids;
      r, ids := c, [];
      var seen: set<string> := {};
      var i := 0;
      while i < |resources|
        invariant 0 <= i <= |resources|
        invariant r == c.(rows := UpsertAll(c.rows, ResourceBatch(resources[..i], now)))
        invariant ids == UniqueIds(ResourceBatch(resources[..i], now))
        invariant forall id :: id in seen <==> id in ids
      {
        var resource := resources[i];
        var row := StoredRow(resource.payload, now);
        assert ResourceBatch(resources[..i + 1], now) == ResourceBatch(resources[..i], now) + [(resource.id, row)];
        BatchGrows(c.rows, ResourceBatch(resources[..i], now), resource.id, row);
        r := r.(rows := r.rows[resource.id := row]);
        if resource.id !in seen {
          seen := seen + {resource.id};
          ids := ids + [resource.id];
        }
        i := i + 1;
      }
      assert resources[..i] == resources;
    }

    method MigrateDataChunk(now: Time) returns (status: Status)
      modifies this`data
      ensures var o := MigrateData(old(data), sources.rows.Keys, now, ALL_WRITES); data == o.chunk && status == o.status
    {
      hide UpsertAll, UniqueIds, RuntimeBatch, CompletedAll, CountRows, IdOf, IdsOfEntries;
      if data.current.Some? {
        if data.deprecated.Some? {
          return Done;
        }
        if data.current.value.Malformed? {
          return Failed;
        }
        var entries := data.current.value.records;
        if !HasIds(entries) {
          return Failed;
        }
        var ids := UpsertMigrationLatest(CompletedAll(entries, now), now);
        if CountRows(data.rows, ids) != |ids| {
          return Failed;
        }
        data := data.(current := None, deprecated := data.current);
        return Done;
      }
      if data.deprecated.None? {
        return Done;
      }
      if data.deprecated.value.Malformed? {
        return Failed;
      }
      var entries := data.deprecated.value.records;
      if RepairTargets(entries, sources.rows.Keys) <= data.rows.Keys {
        return Done;
      }
      var ids := UpsertMigrationLatest(entries, now);
      status := if CountRows(data.rows, ids) != |ids| then Failed else Done;
    }

    method MigrateResourceChunk(c: ResourceChunk, now: Time) returns (r: ResourceChunk, status: Status)
      ensures var o := MigrateResources(c, now, ALL_WRITES); r == o.chunk && status == o.status
    {
      hide UpsertAll, UniqueIds, ResourceBatch, CountRows;
      if c.current.None? || c.deprecated.Some? {
        return c, Done;
      }
      if c.current.value.Malformed? {
        return c, Failed;
      }
      var ids;
      r, ids := UpsertMigrationResources(c, c.current.value.records, now);
      if CountRows(r.rows, ids) != |ids| {
        return r, Failed;
      }
      r := r.(current := None, deprecated := r.current);
      return r, Done;
    }

    /** An uninterrupted run over the three files. */
    method RunStartupMigration(t: Clocks) returns (status: Status)
      modifies this
      ensures Run(Model(), status) == Complete(old(Model()), t)
    {
      hide MigrateData, MigrateResources;
      DataUsesTwoWrites(data, sources.rows.Keys, t.data, ALL_WRITES);
      ghost var afterData := MigrateData(data, sources.rows.Keys, t.data, ALL_WRITES);
      LeftDoesNotMatter(sources, t.sources, afterData.left, ALL_WRITES);
      StagesUseTwoWrites(sources, t.sources, afterData.left);
      LeftDoesNotMatter(views, t.views, MigrateResources(sources, t.sources, afterData.left).left, ALL_WRITES);
      status := MigrateDataChunk(t.data);
      if status != Done {
        return;
      }
      sources, status := MigrateResourceChunk(sources, t.sources);
      if status != Done {
        return;
      }
      views, status := MigrateResourceChunk(views, t.views);
    }
  }

  /** One more record in a batch. */
  lemma BatchGrows<R>(rows: map<string, R>, batch: Batch<R>, id: string, row: R)
    ensures var all := batch + [(id, row)];
      UpsertAll(rows, all) == UpsertAll(rows, batch)[id := row] &&
      UniqueIds(all) == if id in UniqueIds(batch) then UniqueIds(batch) else UniqueIds(batch) + [id]
  {
    var all := batch + [(id, row)];
    assert all[..|all| - 1] == batch;
  }

  /** An id that trimming leaves as it is. */
  ghost predicate IsId(id: string) {
    id != "" && Text.Trimmed(id, TemplateSyntax.IsSpace)
  }

  /**
   A state that is not steady, for any two ids. The data file was migrated long ago and one of
   its sources has lost its row; the sources file still has to be migrated. A crash after the
   upsert of that file makes the repair of the next run look at more sources than the first did.
   */
  lemma RepairDependsOnCrash(a: string, b: string, now: Time)
    requires IsId(a) && IsId(b) && a != b
    ensures var entries := [Entry(Some(a), None, Some(now), None), Entry(Some(b), None, Some(now), None)];
      var rows: map<string, RuntimeRow> := map[b := RowOf(entries[1], now)];
      var d := Disk(
        Chunk(None, Some(Records(entries)), rows),
        Chunk(Some(Records([Resource(a, "")])), None, map[b := StoredRow("", now)]),
        Chunk(None, None, map[]));
      var t := Clocks(now, now, now);
      && a !in Complete(d, t).disk.data.rows
      && a in Complete(Attempts(d, [Attempt(t, 1)]), t).disk.data.rows
  {
    hide IdOf, UniqueIds, RowOf, MigrateData, MigrateResources, RuntimeBatch, ResourceBatch,
      UpsertAll, Complete, Attempts, Ids, IdsOfEntries, IsId;
    var entries := [Entry(Some(a), None, Some(now), None), Entry(Some(b), None, Some(now), None)];
    var rows: map<string, RuntimeRow> := map[b := RowOf(entries[1], now)];
    var data: DataChunk := Chunk(None, Some(Records(entries)), rows);
    var resources := [Resource(a, "")];
    var sources: ResourceChunk := Chunk(Some(Records(resources)), None, map[b := StoredRow("", now)]);
    var d := Disk(data, sources, Chunk(None, None, map[]));
    var t := Clocks(now, now, now);
    TwoIds(entries, a, b);
    OneId(resources, a, now);
    assert sources.rows.Keys == {b} && rows.Keys == {b} && a != b;
    assert {a, b} * {b} == {b} && b in {b};
    RepairSkipped(data, entries, {b}, {a, b}, now, 1);
    RepairSkipped(data, entries, {b}, {a, b}, now, ALL_WRITES);
    DataOfComplete(d, t);
    FirstAttempt(d, resources, t);
    var d1 := Attempts(d, [Attempt(t, 1)]);
    DataOfComplete(d1, t);
    assert d1.sources.rows.Keys == {a, b};
    RepairDone(data, entries, {a, b}, now, ALL_WRITES);
  }

  lemma TwoIds(entries: seq<Entry>, a: string, b: string)
    requires IsId(a) && IsId(b) && |entries| == 2 && entries[0].sourceId == Some(a) && entries[1].sourceId == Some(b)
    ensures IdsOfEntries(entries) == {a, b}
  {
    hide IdOf, Text.Trimmed;
    IdOfId(entries[0], a);
    IdOfId(entries[1], b);
    assert IdOf(entries[0]) in IdsOfEntries(entries) && IdOf(entries[1]) in IdsOfEntries(entries);
  }

  lemma OneId(resources: seq<Resource>, a: string, now: Time)
    requires |resources| == 1 && resources[0].id == a
    ensures Ids(ResourceBatch(resources, now)) == {a}
  {
    assert ResourceBatch(resources, now)[0].0 == a;
  }

  lemma RepairSkipped(c: DataChunk, entries: seq<Entry>, stored: set<string>, ids: set<string>, now: Time, left: nat)
    requires c.current.None? && c.deprecated == Some(Records(entries)) && IdsOfEntries(entries) == ids
    requires ids * stored != {} && ids * stored <= c.rows.Keys
    ensures MigrateData(c, stored, now, left) == Stage(c, left, Done)
  {
    hide IdsOfEntries;
  }

  lemma RepairDone(c: DataChunk, entries: seq<Entry>, ids: set<string>, now: Time, left: nat)
    requires c.current.None? && c.deprecated == Some(Records(entries)) && IdsOfEntries(entries) == ids
    requires !(ids <= c.rows.Keys) && left > 0
    ensures ids <= MigrateData(c, ids, now, left).chunk.rows.Keys
  {
    hide IdsOfEntries, UpsertAll, RuntimeBatch, UniqueIds, CountRows, Ids;
    RuntimeIds(entries, now);
    UpsertKeys(c.rows, RuntimeBatch(entries, now));
    assert ids * ids == ids;
  }

  lemma IdOfId(e: Entry, id: string)
    requires e.sourceId == Some(id) && IsId(id)
    ensures IdOf(e) == id
  {
    hide Text.Trim;
    Text.TrimOfTrimmed(id, TemplateSyntax.IsSpace);
  }

  /** With one write only the sources are written before the crash. */
  lemma FirstAttempt(d: Disk, resources: seq<Resource>, t: Clocks)
    requires d.sources.current == Some(Records(resources)) && d.sources.deprecated.None?
    requires MigrateData(d.data, d.sources.rows.Keys, t.data, 1) == Stage(d.data, 1, Done)
    ensures var d1 := Attempts(d, [Attempt(t, 1)]);
      && d1.data == d.data && d1.views == d.views
      && d1.sources.rows.Keys == d.sources.rows.Keys + Ids(ResourceBatch(resources, t.sources))
  {
    hide MigrateData, UniqueIds, CountRows;
    assert [Attempt(t, 1)][..0] == [];
    ValidationPasses(d.sources.rows, ResourceBatch(resources, t.sources));
    UpsertKeys(d.sources.rows, ResourceBatch(resources, t.sources));
  }
}
