/** The runtime_latest table: one record per source, and the writes of the runtime repository. */
module RuntimeTable {
  import opened Wrappers

  type Time = real

  /** Retry metadata as it is read back; a number that is missing or not a number is None. */
  datatype RetryMetadata = RetryMetadata(
    signature: string, attempts: int, firstFailedAt: Option<Time>, nextRetryAt: Option<Time>)

  /** A record's payload; None stands for an absent entry. */
  datatype Record = Record(
    status: Option<string>,
    message: Option<string>,
    interaction: Option<string>,
    data: Option<string>,
    error: Option<string>,
    errorCode: Option<string>,
    updatedAt: Option<Time>,
    lastSuccessAt: Option<Time>,
    retryMetadata: Option<RetryMetadata>)

  /** A row repeats two entries of its payload as columns. */
  datatype Row = Row(record: Record, updatedAt: Time, lastSuccessAt: Option<Time>)

  type Table = map<string, Row>

  const NoRecord := Record(None, None, None, None, None, None, None, None, None)

  /** What a state write brings along. */
  datatype StateWrite = StateWrite(
    status: string, message: Option<string>, interaction: Option<string>, error: Option<string>, errorCode: Option<string>)

  function Upserted(data: string, now: Time): Row {
    Row(NoRecord.(data := Some(data), updatedAt := Some(now), lastSuccessAt := Some(now)), now, Some(now))
  }

  function Errored(error: string, now: Time): Row {
    Row(NoRecord.(error := Some(error), updatedAt := Some(now)), now, None)
  }

  predicate KeepsErrorCode(status: string) {
    status == "error" || status == "suspended"
  }

  /** A state write keeps every entry it does not name; stale errors go when the status is no longer one. */
  function WithState(r: Record, w: StateWrite, now: Time): Record {
    r.(status := Some(w.status), message := w.message, interaction := w.interaction, updatedAt := Some(now),
       error := if w.error.Some? then w.error else if w.status == "error" then r.error else None,
       errorCode := if w.errorCode.Some? then w.errorCode else if KeepsErrorCode(w.status) then r.errorCode else None)
  }

  function StateSet(t: Table, id: string, w: StateWrite, now: Time): Table {
    var r := WithState(if id in t then t[id].record else NoRecord, w, now);
    t[id := Row(r, now, r.lastSuccessAt)]
  }

  /** Saving retry metadata keeps the record's own time; a source without a row has nowhere to save it. */
  function MetadataSet(t: Table, id: string, metadata: Option<RetryMetadata>, now: Time): Table {
    if id !in t then t
    else
      var r := t[id].record.(retryMetadata := metadata);
      t[id := Row(r, if r.updatedAt.Some? then r.updatedAt.value else now, r.lastSuccessAt)]
  }

  /** The row of another source is as it was. */
  ghost predicate OthersKept(t: Table, t': Table, id: string) {
    forall k :: k != id ==> (k in t' <==> k in t) && (k in t ==> t'[k] == t[k])
  }

  /** What a state write leaves, entry by entry. A source without a row starts from an empty record. */
  lemma StateExactly(t: Table, id: string, w: StateWrite, now: Time)
    ensures var t' := StateSet(t, id, w, now); var r := if id in t then t[id].record else NoRecord;
      && OthersKept(t, t', id) && id in t'
      && t'[id].record.status == Some(w.status) && t'[id].record.message == w.message
      && t'[id].record.interaction == w.interaction && t'[id].record.updatedAt == Some(now)
      && t'[id].record.data == r.data && t'[id].record.lastSuccessAt == r.lastSuccessAt
      && t'[id].record.retryMetadata == r.retryMetadata
      && t'[id].record.error == (if w.error != None then w.error else if w.status == "error" then r.error else None)
      && t'[id].record.errorCode ==
           (if w.errorCode != None then w.errorCode
            else if w.status == "error" || w.status == "suspended" then r.errorCode else None)
      && t'[id].updatedAt == now && t'[id].lastSuccessAt == r.lastSuccessAt
  {
  }

  /** What a success and an error leave: a record of their own, with nothing of the one before. */
  lemma OutcomesExactly(text: string, now: Time)
    ensures Upserted(text, now) ==
      Row(Record(None, None, None, Some(text), None, None, Some(now), Some(now), None), now, Some(now))
    ensures Errored(text, now) ==
      Row(Record(None, None, None, None, Some(text), None, Some(now), None, None), now, None)
  {
  }

  /** What saving or clearing retry metadata leaves: everything else, the record's time included. */
  lemma MetadataExactly(t: Table, id: string, metadata: Option<RetryMetadata>, now: Time)
    ensures var t' := MetadataSet(t, id, metadata, now);
      && OthersKept(t, t', id) && (id in t' <==> id in t)
      && (id in t ==> t'[id].record == t[id].record.(retryMetadata := metadata))
      && (id in t ==> t'[id].lastSuccessAt == t[id].record.lastSuccessAt)
      && (id in t ==> Some(t'[id].updatedAt) == if t[id].record.updatedAt != None then t[id].record.updatedAt else Some(now))
  {
  }

  /** The columns say what the payload says. */
  ghost predicate Mirrored(t: Table) {
    forall id :: id in t ==>
      t[id].record.updatedAt == Some(t[id].updatedAt) && t[id].record.lastSuccessAt == t[id].lastSuccessAt
  }

  class RuntimeRepository {
    var rows: Table

    constructor ()
      ensures rows == map[]
    {
      rows := map[];
    }

    method Upsert(id: string, data: string, now: Time)
      modifies this
      ensures rows == old(rows)[id := Upserted(data, now)]
      ensures old(Mirrored(rows)) ==> Mirrored(rows)
    {
      var record := NoRecord;
      record := record.(data := Some(data), updatedAt := Some(now), lastSuccessAt := Some(now));
      rows := rows[id := Row(record, now, Some(now))];
    }

    method SetError(id: string, error: string, now: Time)
      modifies this
      ensures rows == old(rows)[id := Errored(error, now)]
      ensures old(Mirrored(rows)) ==> Mirrored(rows)
    {
      rows := rows[id := Row(NoRecord.(error := Some(error), updatedAt := Some(now)), now, None)];
    }

    method SetState(id: string, w: StateWrite, now: Time)
      modifies this
      ensures rows == StateSet(old(rows), id, w, now)
      ensures old(Mirrored(rows)) ==> Mirrored(rows)
    {
      var record := if id in rows then rows[id].record else NoRecord;
      record := record.(status := Some(w.status), message := w.message, interaction := w.interaction, updatedAt := Some(now));
      if w.error.Some? {
        record := record.(error := w.error);
      } else if w.status != "error" {
        record := record.(error := None);
      }
      if w.errorCode.Some? {
        record := record.(errorCode := w.errorCode);
      } else if !KeepsErrorCode(w.status) {
        record := record.(errorCode := None);
      }
      rows := rows[id := Row(record, now, record.lastSuccessAt)];
    }

    method SetRetryMetadata(id: string, metadata: Option<RetryMetadata>, now: Time)
      modifies this
      ensures rows == MetadataSet(old(rows), id, metadata, now)
      ensures old(Mirrored(rows)) ==> Mirrored(rows)
    {
      if id !in rows {
        return;
      }
      var record := rows[id].record;
      record := record.(retryMetadata := metadata);
      var updatedAt := if record.updatedAt.Some? then record.updatedAt.value else now;
      rows := rows[id := Row(record, updatedAt, record.lastSuccessAt)];
    }
  }
}
