/** The IndexedDB cache of downloaded clients (public/js/backend.js, CacheManager): one
    object store whose key path is the record's fileName. */
module Cache {
  import opened Wrappers
  import opened Config

  /** A stored client, as saved after a successful download. */
  datatype CacheRecord = CacheRecord(
    fileName: string,
    clientVersionUID: string,
    clientCachedAt: int,
    clientPayload: Bytes)

  /** How a save ends. The put request can fail (RequestFailed), or succeed and then have its
      transaction fail to commit (CommitFailed): the promise has then already answered true. */
  datatype SaveOutcome = Stored | RequestFailed | CommitFailed

  /** The store's key-path invariant: every record sits under its own fileName. */
  predicate KeyedByFileName(records: map<string, CacheRecord>) {
    forall k :: k in records ==> records[k].fileName == k
  }

  /** What load(fileName) resolves to: the stored record, or nothing when it is missing or
      the database could not be opened or read. */
  function Lookup(records: map<string, CacheRecord>, fileName: string, ioOk: bool): (r: Option<CacheRecord>)
    requires KeyedByFileName(records)
    ensures r.Some? <==> ioOk && fileName in records
    ensures r.Some? ==> r.value == records[fileName] && r.value.fileName == fileName
  {
    if ioOk && fileName in records then Some(records[fileName]) else None
  }

  /** The store after save(record): the record replaces any earlier one under its fileName
      when the transaction commits, and nothing changes otherwise. */
  function AfterSave(records: map<string, CacheRecord>, record: CacheRecord, outcome: SaveOutcome): (r: map<string, CacheRecord>)
    requires KeyedByFileName(records)
    ensures KeyedByFileName(r)
    ensures outcome.Stored? ==> r.Keys == records.Keys + {record.fileName} && r[record.fileName] == record
    ensures forall k :: k in records && k != record.fileName ==> k in r && r[k] == records[k]
    ensures !outcome.Stored? ==> r == records
  {
    if outcome.Stored? then records[record.fileName := record] else records
  }

  /** A record read back right after a committed save is the record saved. */
  lemma SaveThenLoad(records: map<string, CacheRecord>, record: CacheRecord)
    requires KeyedByFileName(records)
    ensures Lookup(AfterSave(records, record, Stored), record.fileName, true) == Some(record)
  {
  }

  class CacheManager {
    var records: map<string, CacheRecord>

    ghost predicate Valid()
      reads this
    {
      KeyedByFileName(records)
    }

    constructor (records: map<string, CacheRecord>)
      requires KeyedByFileName(records)
      ensures Valid() && this.records == records
    {
      this.records := records;
    }

    /** load(fileName); ioOk is false when opening the database or the read transaction fails. */
    method Load(fileName: string, ioOk: bool) returns (r: Option<CacheRecord>)
      requires Valid()
      ensures r.Some? <==> ioOk && fileName in records
      ensures r.Some? ==> r.value == records[fileName] && r.value.fileName == fileName
    {
      if !ioOk {
        return None;
      }
      if fileName in records {
        r := Some(records[fileName]);
      } else {
        r := None;
      }
    }

    /** save(fileData): answers true once the put request succeeds, even if the transaction
        then fails to commit; the record is kept only when it commits. */
    method Save(record: CacheRecord, outcome: SaveOutcome) returns (ok: bool)
      requires Valid()
      modifies this
      ensures Valid()
      ensures ok <==> !outcome.RequestFailed?
      ensures records == AfterSave(old(records), record, outcome)
    {
      ok := !outcome.RequestFailed?;
      if outcome.Stored? {
        records := records[record.fileName := record];
      }
    }
  }
}
