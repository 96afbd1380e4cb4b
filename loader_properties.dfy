/** What run() guarantees, stated over its specification RunSpec. */
module LoaderProperties {
  import opened Wrappers
  import opened Config
  import opened Cache
  import opened Effects
  import opened Transfer
  import opened FailureTracker
  import opened ClientLoader

  /** The condition under which run() launches the cached copy at once: a record exists and
      either its identity matches, or a failure flag is active and the user accepts. */
  predicate UsesCachedCopy(c: LoaderClient, env: Env, records: map<string, CacheRecord>,
                           available: bool, items: map<string, string>)
    requires KeyedByFileName(records)
  {
    var cached := Lookup(records, c.file, env.loadOk);
    var tag := ClientCIDPath(c.cid, c.path);
    cached.Some? &&
    ((available && FlagActive(items, tag, env.now0) && env.confirm(0)) || cached.value.clientVersionUID == tag)
  }

  lemma {:induction false} RequestCountPositive(s: seq<Effect>)
    requires RequestCount(s) > 0
    ensures !NoRequests(s)
  {
    if !s[|s| - 1].Request? {
      RequestCountPositive(s[..|s| - 1]);
      var i :| 0 <= i < |s| - 1 && s[..|s| - 1][i].Request?;
      assert s[i].Request?;
    }
  }

  /** A trace that contains a download contains a request. */
  lemma DownloadMakesRequest(before: seq<Effect>, c: LoaderClient, env: Env, after: seq<Effect>)
    ensures !NoRequests(before + DownloadSpec(c.download, c.gzip, env.net, env.decompress).effects + after)
  {
    var d := DownloadSpec(c.download, c.gzip, env.net, env.decompress);
    DownloadTrace(c.download, c.gzip, env.net, env.decompress);
    RequestCountPositive(d.effects);
    var i :| 0 <= i < |d.effects| && d.effects[i].Request?;
    assert (before + d.effects + after)[|before| + i] == d.effects[i];
  }

  /** When the cached copy is not launched at once, run() goes on to the download, with the
      cache read and any prompt already in the trace and the storage the flag check left. */
  lemma DownloadPath(c: LoaderClient, env: Env, records: map<string, CacheRecord>,
                     available: bool, items: map<string, string>)
    returns (cached: Option<CacheRecord>, age: int, prompted: nat, checked: map<string, string>,
             before: seq<Effect>)
    requires KeyedByFileName(records) && env.hasIndexedDb
    requires !UsesCachedCopy(c, env, records, available, items)
    ensures cached == Lookup(records, c.file, env.loadOk)
    ensures RunSpec(Some(c), env, records, available, items) ==
      AfterDownload(c, env, ClientCIDPath(c.cid, c.path), cached, age, prompted, records, available, checked, before)
    ensures cached.None? ==> before == [CacheLoad(c.file)] && prompted == 0 && checked == items
    ensures cached.Some? ==>
      var check := CheckFailure(available, items, ClientCIDPath(c.cid, c.path), env.now0);
      age == DisplayAge(env.now0, cached.value.clientCachedAt) && checked == check.items &&
      prompted == (if check.failed then 1 else 0) &&
      before == [CacheLoad(c.file)] + (if check.failed then [Confirm(age, false)] else [])
    ensures 1 <= |before| <= 2 && before[0] == CacheLoad(c.file) && (|before| == 2 ==> before[1].Confirm?)
  {
    var tag := ClientCIDPath(c.cid, c.path);
    cached := Lookup(records, c.file, env.loadOk);
    if cached.None? {
      age, prompted, checked, before := 0, 0, items, [CacheLoad(c.file)];
    } else {
      var check := CheckFailure(available, items, tag, env.now0);
      age := DisplayAge(env.now0, cached.value.clientCachedAt);
      var prompts := if check.failed then [Confirm(age, env.confirm(0))] else [];
      prompted, checked, before := |prompts|, check.items, [CacheLoad(c.file)] + prompts;
      assert RunSpec(Some(c), env, records, available, items) ==
             WithRecordSpec(c, env, tag, cached.value, records, available, items);
    }
  }

  /** Every path through the download makes at least one request. */
  lemma AfterDownloadMakesRequest(c: LoaderClient, env: Env, tag: string, cached: Option<CacheRecord>, age: int,
                                  prompted: nat, records: map<string, CacheRecord>, available: bool,
                                  items: map<string, string>, before: seq<Effect>)
    requires KeyedByFileName(records)
    ensures !NoRequests(AfterDownload(c, env, tag, cached, age, prompted, records, available, items, before).effects)
  {
    var r := AfterDownload(c, env, tag, cached, age, prompted, records, available, items, before);
    var d := DownloadSpec(c.download, c.gzip, env.net, env.decompress);
    var tail := r.effects[|before| + |d.effects|..];
    assert r.effects == before + d.effects + tail;
    DownloadMakesRequest(before, c, env, tail);
  }

  /** The cached payload is launched without any network request exactly when a record
      exists and either its identity tag matches or an active failure flag is confirmed;
      the cache is then left as it was. */
  lemma CachedLaunchIffNoDownload(c: LoaderClient, env: Env, records: map<string, CacheRecord>,
                                  available: bool, items: map<string, string>)
    requires KeyedByFileName(records) && env.hasIndexedDb
    ensures var r := RunSpec(Some(c), env, records, available, items);
      var cached := Lookup(records, c.file, env.loadOk);
      (NoRequests(r.effects) <==> UsesCachedCopy(c, env, records, available, items)) &&
      (UsesCachedCopy(c, env, records, available, items) ==>
         r.records == records &&
         r.effects[|r.effects| - 2..] == [Delay(LAUNCH_DELAY_CACHED_MS), Launch(cached.value.clientPayload)])
  {
    var tag := ClientCIDPath(c.cid, c.path);
    if UsesCachedCopy(c, env, records, available, items) {
      var cached := Lookup(records, c.file, env.loadOk);
      var check := CheckFailure(available, items, tag, env.now0);
      var age := DisplayAge(env.now0, cached.value.clientCachedAt);
      var before := [CacheLoad(c.file)] + (if check.failed then [Confirm(age, env.confirm(0))] else []);
      var launch := [Delay(LAUNCH_DELAY_CACHED_MS), Launch(cached.value.clientPayload)];
      assert RunSpec(Some(c), env, records, available, items) ==
             WithRecordSpec(c, env, tag, cached.value, records, available, items);
      assert WithRecordSpec(c, env, tag, cached.value, records, available, items) ==
             RunResult(before + launch, records, check.items);
      assert (before + launch)[|before + launch| - 2..] == launch;
    } else {
      var cached, age, prompted, checked, before := DownloadPath(c, env, records, available, items);
      AfterDownloadMakesRequest(c, env, tag, cached, age, prompted, records, available, checked, before);
    }
  }

  /** A record that matches the current identity and has no active failure flag is
      launched straight from the cache: the whole trace is the cache read, the longer
      launch delay and the launch (the check may still have removed an expired flag). */
  lemma FreshCacheHit(c: LoaderClient, env: Env, records: map<string, CacheRecord>,
                      available: bool, items: map<string, string>)
    requires KeyedByFileName(records) && env.hasIndexedDb && env.loadOk
    requires c.file in records && records[c.file].clientVersionUID == ClientCIDPath(c.cid, c.path)
    requires !(available && FlagActive(items, ClientCIDPath(c.cid, c.path), env.now0))
    ensures RunSpec(Some(c), env, records, available, items) ==
      RunResult([CacheLoad(c.file), Delay(LAUNCH_DELAY_CACHED_MS), Launch(records[c.file].clientPayload)],
                records, CheckFailure(available, items, ClientCIDPath(c.cid, c.path), env.now0).items)
  {
  }

  /** After a successful download, exactly one record is saved (the configured file name,
      the current identity tag, the clock after the download, the downloaded bytes), and the
      fresh bytes are then launched after the short delay. */
  lemma FreshDownloadSavesOnce(c: LoaderClient, env: Env, records: map<string, CacheRecord>,
                               available: bool, items: map<string, string>)
    requires KeyedByFileName(records) && env.hasIndexedDb
    requires !UsesCachedCopy(c, env, records, available, items)
    requires DownloadSpec(c.download, c.gzip, env.net, env.decompress).data.Some?
    ensures var r := RunSpec(Some(c), env, records, available, items);
      var data := DownloadSpec(c.download, c.gzip, env.net, env.decompress).data.value;
      var record := CacheRecord(c.file, ClientCIDPath(c.cid, c.path), env.now1, data);
      |r.effects| >= 3 &&
      r.effects[|r.effects| - 3..] == [CacheSave(record), Delay(LAUNCH_DELAY_MS), Launch(data)] &&
      (forall i :: 0 <= i < |r.effects| - 3 ==> !r.effects[i].CacheSave?) &&
      r.records == AfterSave(records, record, env.saveOutcome)
  {
    var tag := ClientCIDPath(c.cid, c.path);
    var cached, age, prompted, checked, before := DownloadPath(c, env, records, available, items);
    var r := AfterDownload(c, env, tag, cached, age, prompted, records, available, checked, before);
    var d := DownloadSpec(c.download, c.gzip, env.net, env.decompress);
    DownloadTrace(c.download, c.gzip, env.net, env.decompress);
    var record := CacheRecord(c.file, tag, env.now1, d.data.value);
    var last := [CacheSave(record), Delay(LAUNCH_DELAY_MS), Launch(d.data.value)];
    assert r.effects == (before + d.effects) + last;
    assert NoSaves(before);
    RetryTraceHasNoSaves(d.effects, c.download);
    NoSavesBeforeLast(before, d.effects, last);
  }

  predicate NoSaves(s: seq<Effect>) {
    forall i :: 0 <= i < |s| ==> !s[i].CacheSave?
  }

  lemma RetryTraceHasNoSaves(s: seq<Effect>, url: string)
    requires RetryTrace(s, url)
    ensures NoSaves(s)
  {
    forall i | 0 <= i < |s| ensures !s[i].CacheSave? {
      assert s[i] == Request(url) || s[i] == Delay(RETRY_DELAY_MS);
    }
  }

  lemma NoSavesBeforeLast(a: seq<Effect>, b: seq<Effect>, last: seq<Effect>)
    requires NoSaves(a) && NoSaves(b) && |last| == 3
    ensures var s := a + b + last;
      s[|s| - 3..] == last && forall i :: 0 <= i < |s| - 3 ==> !s[i].CacheSave?
  {
    var s := a + b + last;
    assert s[|s| - 3..] == last;
    forall i | 0 <= i < |s| - 3 ensures !s[i].CacheSave? {
      if i < |a| {
        assert s[i] == a[i];
      } else {
        assert s[i] == b[i - |a|];
      }
    }
  }

  lemma AfterDownloadIgnoresSaveOutcome(c: LoaderClient, env: Env, outcome: SaveOutcome, tag: string,
                                        cached: Option<CacheRecord>, age: int, prompted: nat,
                                        records: map<string, CacheRecord>, available: bool,
                                        items: map<string, string>, before: seq<Effect>)
    requires KeyedByFileName(records)
    ensures AfterDownload(c, env, tag, cached, age, prompted, records, available, items, before).effects ==
            AfterDownload(c, env.(saveOutcome := outcome), tag, cached, age, prompted, records, available, items,
                          before).effects
  {
  }

  lemma WithRecordIgnoresSaveOutcome(c: LoaderClient, env: Env, outcome: SaveOutcome, tag: string,
                                     record: CacheRecord, records: map<string, CacheRecord>, available: bool,
                                     items: map<string, string>)
    requires KeyedByFileName(records)
    ensures WithRecordSpec(c, env, tag, record, records, available, items).effects ==
            WithRecordSpec(c, env.(saveOutcome := outcome), tag, record, records, available, items).effects
  {
    var age := DisplayAge(env.now0, record.clientCachedAt);
    var check := CheckFailure(available, items, tag, env.now0);
    var prompts := if check.failed then [Confirm(age, env.confirm(0))] else [];
    AfterDownloadIgnoresSaveOutcome(c, env, outcome, tag, Some(record), age, |prompts|, records, available,
                                    check.items, [CacheLoad(c.file)] + prompts);
  }

  /** The launch does not depend on whether the save succeeded. */
  lemma LaunchIgnoresSaveOutcome(c: LoaderClient, env: Env, outcome: SaveOutcome,
                                 records: map<string, CacheRecord>, available: bool, items: map<string, string>)
    requires KeyedByFileName(records)
    ensures RunSpec(Some(c), env, records, available, items).effects ==
            RunSpec(Some(c), env.(saveOutcome := outcome), records, available, items).effects
  {
    var env' := env.(saveOutcome := outcome);
    if env.hasIndexedDb {
      var tag := ClientCIDPath(c.cid, c.path);
      var cached := Lookup(records, c.file, env.loadOk);
      if cached.None? {
        AfterDownloadIgnoresSaveOutcome(c, env, outcome, tag, None, 0, 0, records, available, items,
                                        [CacheLoad(c.file)]);
      } else {
        WithRecordIgnoresSaveOutcome(c, env, outcome, tag, cached.value, records, available, items);
      }
    } else {
      assert DirectSpec(c, env) == DirectSpec(c, env');
    }
  }

  /** A failed download with a cached record on hand records the failure for the current
      identity first, then asks; accepting launches the cached copy, declining ends with the
      error screen. At the clock of that write the flag reads as active. */
  lemma FailedDownloadWithRecord(c: LoaderClient, env: Env, records: map<string, CacheRecord>,
                                 available: bool, items: map<string, string>)
    requires KeyedByFileName(records) && env.hasIndexedDb && env.loadOk && c.file in records
    requires !UsesCachedCopy(c, env, records, available, items)
    requires DownloadSpec(c.download, c.gzip, env.net, env.decompress).data.None?
    ensures var r := RunSpec(Some(c), env, records, available, items);
      var tag := ClientCIDPath(c.cid, c.path);
      var check := CheckFailure(available, items, tag, env.now0);
      var age := DisplayAge(env.now0, records[c.file].clientCachedAt);
      var prompts := if check.failed then [Confirm(age, false)] else [];
      var accepted := env.confirm(|prompts|);
      var finish := if accepted then [Delay(LAUNCH_DELAY_CACHED_MS), Launch(records[c.file].clientPayload)]
                    else [TerminalError(CLIENT_DOWNLOAD_FAILED)];
      r.effects == [CacheLoad(c.file)] + prompts + FailedRounds(c.download, ATTEMPTS) +
                   [SetFailed(tag), Confirm(age, accepted)] + finish &&
      r.records == records &&
      r.items == MarkFailed(available, check.items, tag, env.now1) &&
      (available ==> CheckFailure(true, r.items, tag, env.now1).failed)
  {
    var tag := ClientCIDPath(c.cid, c.path);
    var check := CheckFailure(available, items, tag, env.now0);
    var cached, age, prompted, checked, before := DownloadPath(c, env, records, available, items);
    SetThenCheck(available, check.items, tag, env.now1, env.now1);
  }

  /** A failed download with no cached record shows the error at once: no flag is written
      and nothing is asked. */
  lemma FailedDownloadWithoutRecord(c: LoaderClient, env: Env, records: map<string, CacheRecord>,
                                    available: bool, items: map<string, string>)
    requires KeyedByFileName(records) && env.hasIndexedDb
    requires Lookup(records, c.file, env.loadOk).None?
    requires DownloadSpec(c.download, c.gzip, env.net, env.decompress).data.None?
    ensures RunSpec(Some(c), env, records, available, items) ==
      RunResult([CacheLoad(c.file)] + FailedRounds(c.download, ATTEMPTS) + [TerminalError(CLIENT_DOWNLOAD_FAILED)],
                records, items)
  {
  }

  /** Without IndexedDB there is no cache read, no save, no flag and no prompt: the
      download's bytes are launched or the direct-download error is shown. */
  lemma NoIndexedDbDirectOnly(c: LoaderClient, env: Env, records: map<string, CacheRecord>,
                              available: bool, items: map<string, string>)
    requires KeyedByFileName(records) && !env.hasIndexedDb
    ensures var r := RunSpec(Some(c), env, records, available, items);
      var d := DownloadSpec(c.download, c.gzip, env.net, env.decompress);
      r.records == records && r.items == items &&
      (forall i :: 0 <= i < |r.effects| ==> OnlyNetworkOrEnd(r.effects[i])) &&
      r.effects[|r.effects| - 1] ==
        (if d.data.Some? then Launch(d.data.value) else TerminalError(DIRECT_DOWNLOAD_FAILED))
  {
    assert RunSpec(Some(c), env, records, available, items) == RunResult(DirectSpec(c, env), records, items);
    DirectSpecShape(c, env);
  }

  /** Neither a cache access, a flag write nor a prompt. */
  predicate OnlyNetworkOrEnd(e: Effect) {
    !e.CacheLoad? && !e.CacheSave? && !e.SetFailed? && !e.Confirm?
  }

  lemma DirectSpecShape(c: LoaderClient, env: Env)
    ensures var e := DirectSpec(c, env);
      var d := DownloadSpec(c.download, c.gzip, env.net, env.decompress);
      |e| > 0 && (forall i :: 0 <= i < |e| ==> OnlyNetworkOrEnd(e[i])) &&
      e[|e| - 1] == (if d.data.Some? then Launch(d.data.value) else TerminalError(DIRECT_DOWNLOAD_FAILED))
  {
    var d := DownloadSpec(c.download, c.gzip, env.net, env.decompress);
    DownloadTrace(c.download, c.gzip, env.net, env.decompress);
    var finish := if d.data.Some? then [Delay(LAUNCH_DELAY_MS), Launch(d.data.value)]
                  else [TerminalError(DIRECT_DOWNLOAD_FAILED)];
    OnlyNetworkOrEndConcat(d.effects, c.download, finish);
  }

  lemma OnlyNetworkOrEndConcat(retries: seq<Effect>, url: string, finish: seq<Effect>)
    requires RetryTrace(retries, url) && |finish| > 0
    requires forall i :: 0 <= i < |finish| ==> OnlyNetworkOrEnd(finish[i])
    ensures forall i :: 0 <= i < |retries + finish| ==> OnlyNetworkOrEnd((retries + finish)[i])
  {
    var e := retries + finish;
    forall i | 0 <= i < |e| ensures OnlyNetworkOrEnd(e[i]) {
      if i < |retries| {
        assert e[i] == retries[i];
        assert retries[i] == Request(url) || retries[i] == Delay(RETRY_DELAY_MS);
      } else {
        assert e[i] == finish[i - |retries|];
      }
    }
  }

  predicate EndsOnce(effects: seq<Effect>) {
    |effects| > 0 && IsFinal(effects[|effects| - 1]) &&
    forall i :: 0 <= i < |effects| - 1 ==> !IsFinal(effects[i])
  }

  predicate NoFinal(effects: seq<Effect>) {
    forall i :: 0 <= i < |effects| ==> !IsFinal(effects[i])
  }

  lemma EndsOnceConcat(prefix: seq<Effect>, mid: seq<Effect>, finish: seq<Effect>)
    requires NoFinal(prefix) && NoFinal(mid) && EndsOnce(finish)
    ensures EndsOnce(prefix + mid + finish)
  {
    var s := prefix + mid + finish;
    forall i | 0 <= i < |s| - 1 ensures !IsFinal(s[i]) {
      if i < |prefix| {
        assert s[i] == prefix[i];
      } else if i < |prefix| + |mid| {
        assert s[i] == mid[i - |prefix|];
      } else {
        assert s[i] == finish[i - |prefix| - |mid|];
      }
    }
  }

  lemma DownloadHasNoFinal(c: LoaderClient, env: Env)
    ensures NoFinal(DownloadSpec(c.download, c.gzip, env.net, env.decompress).effects)
  {
    var d := DownloadSpec(c.download, c.gzip, env.net, env.decompress);
    DownloadTrace(c.download, c.gzip, env.net, env.decompress);
    forall i | 0 <= i < |d.effects| ensures !IsFinal(d.effects[i]) {
      assert d.effects[i] == Request(c.download) || d.effects[i] == Delay(RETRY_DELAY_MS);
    }
  }

  lemma EndsOnceAfter(prefix: seq<Effect>, c: LoaderClient, env: Env, finish: seq<Effect>)
    requires NoFinal(prefix)
    requires EndsOnce(finish)
    ensures EndsOnce(prefix + DownloadSpec(c.download, c.gzip, env.net, env.decompress).effects + finish)
  {
    DownloadHasNoFinal(c, env);
    EndsOnceConcat(prefix, DownloadSpec(c.download, c.gzip, env.net, env.decompress).effects, finish);
  }

  lemma AfterDownloadEndsOnce(c: LoaderClient, env: Env, tag: string, cached: Option<CacheRecord>, age: int,
                              prompted: nat, records: map<string, CacheRecord>, available: bool,
                              items: map<string, string>, before: seq<Effect>)
    requires KeyedByFileName(records)
    requires forall i :: 0 <= i < |before| ==> !IsFinal(before[i])
    ensures EndsOnce(AfterDownload(c, env, tag, cached, age, prompted, records, available, items, before).effects)
  {
    var d := DownloadSpec(c.download, c.gzip, env.net, env.decompress);
    if d.data.Some? {
      var record := CacheRecord(c.file, tag, env.now1, d.data.value);
      EndsOnceAfter(before, c, env, [CacheSave(record), Delay(LAUNCH_DELAY_MS), Launch(d.data.value)]);
    } else if cached.Some? {
      var accepted := env.confirm(prompted);
      var finish := if accepted then [Delay(LAUNCH_DELAY_CACHED_MS), Launch(cached.value.clientPayload)]
                    else [TerminalError(CLIENT_DOWNLOAD_FAILED)];
      var tail := [SetFailed(tag), Confirm(age, accepted)] + finish;
      EndsOnceAfter(before, c, env, tail);
      assert before + d.effects + [SetFailed(tag), Confirm(age, accepted)] + finish == before + d.effects + tail;
    } else {
      EndsOnceAfter(before, c, env, [TerminalError(CLIENT_DOWNLOAD_FAILED)]);
    }
  }

  lemma DirectEndsOnce(c: LoaderClient, env: Env)
    ensures EndsOnce(DirectSpec(c, env))
  {
    var d := DownloadSpec(c.download, c.gzip, env.net, env.decompress);
    var finish := if d.data.Some? then [Delay(LAUNCH_DELAY_MS), Launch(d.data.value)]
                  else [TerminalError(DIRECT_DOWNLOAD_FAILED)];
    EndsOnceAfter([], c, env, finish);
    assert [] + d.effects + finish == d.effects + finish;
  }

  lemma CachedLaunchEndsOnce(before: seq<Effect>, payload: Bytes)
    requires NoFinal(before)
    ensures EndsOnce(before + [Delay(LAUNCH_DELAY_CACHED_MS), Launch(payload)])
  {
    EndsOnceConcat(before, [], [Delay(LAUNCH_DELAY_CACHED_MS), Launch(payload)]);
    assert before + [] == before;
  }

  /** Every configured run ends in exactly one decision: its last step launches a client or
      shows the error screen, and no earlier step does either. */
  lemma RunEndsOnce(c: LoaderClient, env: Env, records: map<string, CacheRecord>,
                    available: bool, items: map<string, string>)
    requires KeyedByFileName(records)
    ensures EndsOnce(RunSpec(Some(c), env, records, available, items).effects)
  {
    if !env.hasIndexedDb {
      DirectEndsOnce(c, env);
    } else {
      var tag := ClientCIDPath(c.cid, c.path);
      var cached := Lookup(records, c.file, env.loadOk);
      if cached.None? {
        AfterDownloadEndsOnce(c, env, tag, None, 0, 0, records, available, items, [CacheLoad(c.file)]);
      } else {
        var check := CheckFailure(available, items, tag, env.now0);
        var age := DisplayAge(env.now0, cached.value.clientCachedAt);
        var prompts := if check.failed then [Confirm(age, env.confirm(0))] else [];
        var before := [CacheLoad(c.file)] + prompts;
        assert NoFinal(before);
        if (check.failed && env.confirm(0)) || cached.value.clientVersionUID == tag {
          CachedLaunchEndsOnce(before, cached.value.clientPayload);
        } else {
          AfterDownloadEndsOnce(c, env, tag, cached, age, |prompts|, records, available, check.items, before);
        }
      }
    }
  }

  lemma Positions(e: seq<Effect>, front: seq<Effect>, a: Effect, b: Effect, finish: seq<Effect>)
    requires e == front + [a, b] + finish && |front| >= 2
    ensures e[1] == front[1] && e[|front|] == a && e[|front| + 1] == b
  {
  }

  /** Declining the first prompt does not clear the stale record: when the download then
      fails too, the same cached copy is offered a second time, after the failure is flagged. */
  lemma DeclinedFallbackIsOfferedAgain(c: LoaderClient, env: Env, records: map<string, CacheRecord>,
                                       items: map<string, string>)
    requires KeyedByFileName(records) && env.hasIndexedDb && env.loadOk && c.file in records
    requires FlagActive(items, ClientCIDPath(c.cid, c.path), env.now0) && !env.confirm(0)
    requires records[c.file].clientVersionUID != ClientCIDPath(c.cid, c.path)
    requires DownloadSpec(c.download, c.gzip, env.net, env.decompress).data.None?
    ensures var r := RunSpec(Some(c), env, records, true, items);
      var age := DisplayAge(env.now0, records[c.file].clientCachedAt);
      exists i, j :: 0 <= i < j < |r.effects| &&
        r.effects[i] == Confirm(age, false) && r.effects[j] == Confirm(age, env.confirm(1)) &&
        r.effects[j - 1] == SetFailed(ClientCIDPath(c.cid, c.path))
    ensures var r := RunSpec(Some(c), env, records, true, items);
      r.records == records &&
      (env.confirm(1) ==> r.effects[|r.effects| - 1] == Launch(records[c.file].clientPayload))
  {
    var tag := ClientCIDPath(c.cid, c.path);
    var age := DisplayAge(env.now0, records[c.file].clientCachedAt);
    var check := CheckFailure(true, items, tag, env.now0);
    assert check.failed;
    var cached, age', prompted, checked, before := DownloadPath(c, env, records, true, items);
    assert before == [CacheLoad(c.file)] + [Confirm(age, false)];
    var a := AfterDownload(c, env, tag, cached, age, 1, records, true, checked, before);
    var d := DownloadSpec(c.download, c.gzip, env.net, env.decompress);
    var accepted := env.confirm(1);
    var finish := if accepted then [Delay(LAUNCH_DELAY_CACHED_MS), Launch(records[c.file].clientPayload)]
                  else [TerminalError(CLIENT_DOWNLOAD_FAILED)];
    assert a.effects == (before + d.effects) + [SetFailed(tag), Confirm(age, accepted)] + finish;
    Positions(a.effects, before + d.effects, SetFailed(tag), Confirm(age, accepted), finish);
  }

  /** Once a fresh download has been stored, the next run with the same configuration
      launches the stored bytes from the cache without any request, whatever the flag says. */
  lemma SavedDownloadIsUsedNextTime(c: LoaderClient, env: Env, env': Env, records: map<string, CacheRecord>,
                                    available: bool, items: map<string, string>)
    requires KeyedByFileName(records) && env.hasIndexedDb && env.saveOutcome.Stored?
    requires !UsesCachedCopy(c, env, records, available, items)
    requires DownloadSpec(c.download, c.gzip, env.net, env.decompress).data.Some?
    requires env'.hasIndexedDb && env'.loadOk
    ensures var r := RunSpec(Some(c), env, records, available, items);
      var r' := RunSpec(Some(c), env', r.records, available, r.items);
      var data := DownloadSpec(c.download, c.gzip, env.net, env.decompress).data.value;
      NoRequests(r'.effects) && r'.effects[|r'.effects| - 1] == Launch(data)
  {
    var r := RunSpec(Some(c), env, records, available, items);
    FreshDownloadSavesOnce(c, env, records, available, items);
    assert KeyedByFileName(r.records);
    assert UsesCachedCopy(c, env', r.records, available, r.items);
    CachedLaunchIffNoDownload(c, env', r.records, available, r.items);
  }
}
