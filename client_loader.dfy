/** The loader's decision procedure (public/js/backend.js, ClientLoader.run): launch the
    cached client, download a fresh one, or fall back to the cached copy on failure. */
module ClientLoader {
  import opened Wrappers
  import opened Config
  import opened WebStorage
  import opened Cache
  import opened Effects
  import opened Transfer
  import opened FailureTracker

  /** The boot configuration, window.__eaglercraftLoaderClient. A path that is not a string
      is None. */
  datatype LoaderClient = LoaderClient(
    container: string,
    name: string,
    file: string,
    cid: string,
    path: Option<string>,
    download: string,
    dlSize: int,
    gzip: bool)

  /** What the page's environment answers during one run. now0 is the clock while the cache
      is consulted, now1 the clock once the download has ended; net(i) ends the i-th request,
      decompress is gzip decoding, and confirm(i) is the answer to the i-th prompt. */
  datatype Env = Env(
    hasIndexedDb: bool,
    loadOk: bool,
    saveOutcome: SaveOutcome,
    now0: int,
    now1: int,
    net: nat -> XhrOutcome,
    decompress: Bytes -> Option<Bytes>,
    confirm: nat -> bool)

  const DIRECT_DOWNLOAD_FAILED: string := "Direct download failed!"
  const CLIENT_DOWNLOAD_FAILED: string := "Client download failed!"

  /** The identity tag of the client (clientCIDPath): the cid alone when the path is not a
      string or is empty, and cid/path otherwise. */
  function ClientCIDPath(cid: string, path: Option<string>): (tag: string)
    ensures path.None? || path.value == "" ==> tag == cid
    ensures path.Some? && path.value != "" ==>
      |tag| == |cid| + 1 + |path.value| && tag[..|cid|] == cid && tag[|cid|] == '/' &&
      tag[|cid| + 1..] == path.value
  {
    if path.None? || |path.value| == 0 then cid else cid + "/" + path.value
  }

  /** For one cid, the tag determines the path (a missing and an empty path count alike). */
  lemma ClientCIDPathInjective(cid: string, p1: Option<string>, p2: Option<string>)
    requires ClientCIDPath(cid, p1) == ClientCIDPath(cid, p2)
    ensures GetOrEmpty(p1) == GetOrEmpty(p2)
  {
  }

  /** The displayed age of a cached copy: how many whole days lie between cachedAt and now
      (rounded down, so a copy from the future has a negative age). */
  function DisplayAge(now: int, cachedAt: int): (days: int)
    ensures days * DAY_MS <= now - cachedAt < (days + 1) * DAY_MS
  {
    (now - cachedAt) / DAY_MS
  }

  datatype RunResult = RunResult(
    effects: seq<Effect>,
    records: map<string, CacheRecord>,
    items: map<string, string>)

  /** What run() does, given the boot configuration, the environment and the stored state. */
  function RunSpec(client: Option<LoaderClient>, env: Env,
                   records: map<string, CacheRecord>, available: bool, items: map<string, string>): RunResult
    requires KeyedByFileName(records)
  {
    if client.None? then RunResult([], records, items)
    else
      var c := client.value;
      if !env.hasIndexedDb then RunResult(DirectSpec(c, env), records, items)
      else
        var tag := ClientCIDPath(c.cid, c.path);
        var cached := Lookup(records, c.file, env.loadOk);
        if cached.None? then
          AfterDownload(c, env, tag, None, 0, 0, records, available, items, [CacheLoad(c.file)])
        else
          WithRecordSpec(c, env, tag, cached.value, records, available, items)
  }

  /** The part of run() after a cached record was loaded: after a recent failure the user is
      asked first; an accepted prompt or an up-to-date record launches the cached copy. */
  function WithRecordSpec(c: LoaderClient, env: Env, tag: string, record: CacheRecord,
                          records: map<string, CacheRecord>, available: bool,
                          items: map<string, string>): RunResult
    requires KeyedByFileName(records)
  {
    var age := DisplayAge(env.now0, record.clientCachedAt);
    var check := CheckFailure(available, items, tag, env.now0);
    var prompts := if check.failed then [Confirm(age, env.confirm(0))] else [];
    var before := [CacheLoad(c.file)] + prompts;
    if (check.failed && env.confirm(0)) || record.clientVersionUID == tag then
      RunResult(before + [Delay(LAUNCH_DELAY_CACHED_MS), Launch(record.clientPayload)], records, check.items)
    else
      AfterDownload(c, env, tag, Some(record), age, |prompts|, records, available, check.items, before)
  }

  /** The trace of run() when IndexedDB is missing: download, then launch or show the error;
      the cache and the failure flags are never consulted. */
  function DirectSpec(c: LoaderClient, env: Env): seq<Effect> {
    var d := DownloadSpec(c.download, c.gzip, env.net, env.decompress);
    d.effects + (if d.data.Some? then [Delay(LAUNCH_DELAY_MS), Launch(d.data.value)]
                 else [TerminalError(DIRECT_DOWNLOAD_FAILED)])
  }

  /** The part of run() from the download on; `before` is the trace so far and `prompted`
      the number of prompts already shown. */
  function AfterDownload(c: LoaderClient, env: Env, tag: string, cached: Option<CacheRecord>, age: int,
                         prompted: nat, records: map<string, CacheRecord>, available: bool,
                         items: map<string, string>, before: seq<Effect>): RunResult
    requires KeyedByFileName(records)
  {
    var d := DownloadSpec(c.download, c.gzip, env.net, env.decompress);
    if d.data.Some? then
      var record := CacheRecord(c.file, tag, env.now1, d.data.value);
      RunResult(before + d.effects + [CacheSave(record), Delay(LAUNCH_DELAY_MS), Launch(d.data.value)],
                AfterSave(records, record, env.saveOutcome), items)
    else if cached.Some? then
      var accepted := env.confirm(prompted);
      var finish := if accepted then [Delay(LAUNCH_DELAY_CACHED_MS), Launch(cached.value.clientPayload)]
                    else [TerminalError(CLIENT_DOWNLOAD_FAILED)];
      RunResult(before + d.effects + [SetFailed(tag), Confirm(age, accepted)] + finish,
                records, MarkFailed(available, items, tag, env.now1))
    else
      RunResult(before + d.effects + [TerminalError(CLIENT_DOWNLOAD_FAILED)], records, items)
  }

  class ClientLoader {
    var opts: Option<LoaderClient>
    const cache: CacheManager
    const storage: LocalStorage
    const transfer: Transfer

    constructor (cache: CacheManager, storage: LocalStorage, transfer: Transfer)
      ensures opts == None && this.cache == cache && this.storage == storage && this.transfer == transfer
    {
      opts := None;
      this.cache := cache;
      this.storage := storage;
      this.transfer := transfer;
    }

    /** run(): the trace it produces and the cache and localStorage it leaves. */
    method Run(client: Option<LoaderClient>, env: Env) returns (effects: seq<Effect>)
      requires cache.Valid()
      modifies this, cache, storage, transfer
      ensures cache.Valid()
      ensures var r := RunSpec(client, env, old(cache.records), old(storage.available), old(storage.items));
        effects == r.effects && cache.records == r.records && storage.items == r.items
      ensures storage.available == old(storage.available)
      ensures opts == (if client.Some? then client else old(opts))
    {
      if client.None? {
        return [];
      }
      var c := client.value;
      opts := client;

      if !env.hasIndexedDb {
        effects := RunDirect(c, env);
        return;
      }

      var tag := ClientCIDPath(c.cid, c.path);
      var cached := cache.Load(c.file, env.loadOk);
      if cached.None? {
        effects := DownloadAndLaunch(c, env, tag, None, 0, 0, [CacheLoad(c.file)]);
        return;
      }
      effects := RunWithRecord(c, env, tag, cached.value);
    }

    method RunWithRecord(c: LoaderClient, env: Env, tag: string, record: CacheRecord)
      returns (effects: seq<Effect>)
      requires cache.Valid()
      modifies cache, storage, transfer
      ensures cache.Valid()
      ensures var r := WithRecordSpec(c, env, tag, record, old(cache.records), old(storage.available),
                                      old(storage.items));
        effects == r.effects && cache.records == r.records && storage.items == r.items
      ensures storage.available == old(storage.available)
    {
      var age := DisplayAge(env.now0, record.clientCachedAt);
      ghost var spec := WithRecordSpec(c, env, tag, record, cache.records, storage.available, storage.items);
      ghost var check := CheckFailure(storage.available, storage.items, tag, env.now0);
      ghost var before := [CacheLoad(c.file)] + (if check.failed then [Confirm(age, env.confirm(0))] else []);
      var launched, prompted;
      launched, effects, prompted := OfferCached(c, env, tag, record, age);
      if launched {
        assert spec == RunResult(effects, cache.records, storage.items);
      } else {
        assert effects == before;
        assert spec == AfterDownload(c, env, tag, Some(record), age, prompted, cache.records, old(storage.available),
                                     storage.items, before);
        effects := DownloadAndLaunch(c, env, tag, Some(record), age, prompted, effects);
      }
    }

    /** The part of run() that may launch the cached copy straight away: after a recent
        failure the user is asked first; an up-to-date copy is launched without asking. */
    method OfferCached(c: LoaderClient, env: Env, tag: string, record: CacheRecord, age: int)
      returns (launched: bool, effects: seq<Effect>, prompted: nat)
      modifies storage
      ensures var check := CheckFailure(old(storage.available), old(storage.items), tag, env.now0);
        var prompts := if check.failed then [Confirm(age, env.confirm(0))] else [];
        && launched == ((check.failed && env.confirm(0)) || record.clientVersionUID == tag)
        && effects == [CacheLoad(c.file)] + prompts +
             (if launched then [Delay(LAUNCH_DELAY_CACHED_MS), Launch(record.clientPayload)] else [])
        && prompted == |prompts|
        && storage.items == check.items
      ensures storage.available == old(storage.available)
    {
      effects := [CacheLoad(c.file)];
      prompted := 0;
      var hasFailed := HasDownloadFailed(storage, tag, env.now0);
      if hasFailed {
        hasFailed := env.confirm(prompted);
        effects := effects + [Confirm(age, hasFailed)];
        prompted := prompted + 1;
      }
      launched := hasFailed || record.clientVersionUID == tag;
      if launched {
        effects := effects + [Delay(LAUNCH_DELAY_CACHED_MS), Launch(record.clientPayload)];
      } else {
        assert effects + [] == effects;
      }
    }

    /** The branch of run() taken when IndexedDB is missing. */
    method RunDirect(c: LoaderClient, env: Env) returns (effects: seq<Effect>)
      modifies transfer
      ensures effects == DirectSpec(c, env)
    {
      var data, attempts := transfer.DownloadClient(c.download, c.gzip, env.net, env.decompress);
      effects := attempts;
      if data.Some? {
        effects := effects + [Delay(LAUNCH_DELAY_MS), Launch(data.value)];
      } else {
        effects := effects + [TerminalError(DIRECT_DOWNLOAD_FAILED)];
      }
    }

    /** The part of run() from the download on: save and launch a fresh client, or flag the
        failure and offer the cached copy, or show the error. */
    method DownloadAndLaunch(c: LoaderClient, env: Env, tag: string, cached: Option<CacheRecord>,
                             age: int, prompted: nat, before: seq<Effect>) returns (effects: seq<Effect>)
      requires cache.Valid()
      modifies cache, storage, transfer
      ensures cache.Valid()
      ensures var r := AfterDownload(c, env, tag, cached, age, prompted, old(cache.records),
                                     old(storage.available), old(storage.items), before);
        effects == r.effects && cache.records == r.records && storage.items == r.items
      ensures storage.available == old(storage.available)
    {
      ghost var spec := AfterDownload(c, env, tag, cached, age, prompted, cache.records, storage.available,
                                      storage.items, before);
      var data, attempts := transfer.DownloadClient(c.download, c.gzip, env.net, env.decompress);
      effects := before + attempts;
      if data.Some? {
        var record := CacheRecord(c.file, tag, env.now1, data.value);
        var saved := cache.Save(record, env.saveOutcome);
        effects := effects + [CacheSave(record), Delay(LAUNCH_DELAY_MS), Launch(data.value)];
        assert spec == RunResult(effects, cache.records, storage.items);
      } else if cached.Some? {
        SetDownloadFailed(storage, tag, env.now1);
        var accepted := env.confirm(prompted);
        var finish := if accepted then [Delay(LAUNCH_DELAY_CACHED_MS), Launch(cached.value.clientPayload)]
                      else [TerminalError(CLIENT_DOWNLOAD_FAILED)];
        effects := effects + [SetFailed(tag), Confirm(age, accepted)] + finish;
        assert spec == RunResult(effects, cache.records, storage.items);
      } else {
        effects := effects + [TerminalError(CLIENT_DOWNLOAD_FAILED)];
      }
    }
  }
}
