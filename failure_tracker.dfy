/** The time-boxed "update failed" flag (public/js/backend.js, FailureTracker): one
    localStorage entry per identity tag, holding the failure time in epoch milliseconds
    as a decimal string. */
module FailureTracker {
  import opened Config
  import opened JsText
  import opened WebStorage

  /** The localStorage key of the flag for a tag. */
  function FailKey(tag: string): (key: string)
    ensures |key| == |DOWNLOAD_FAIL_PREFIX| + |tag| + 9
    ensures key[..|DOWNLOAD_FAIL_PREFIX|] == DOWNLOAD_FAIL_PREFIX
    ensures key[|DOWNLOAD_FAIL_PREFIX|..|DOWNLOAD_FAIL_PREFIX| + |tag|] == tag
    ensures key[|DOWNLOAD_FAIL_PREFIX| + |tag|..] == ".failedAt"
  {
    DOWNLOAD_FAIL_PREFIX + tag + ".failedAt"
  }

  /** Tags map to distinct keys, so flags of different identities never collide. */
  lemma FailKeyInjective(t1: string, t2: string)
    requires FailKey(t1) == FailKey(t2)
    ensures t1 == t2
  {
    var n := |DOWNLOAD_FAIL_PREFIX|;
    assert t1 == FailKey(t1)[n..n + |t1|];
    assert t2 == FailKey(t2)[n..n + |t2|];
  }

  /** A flag for tag is stored and was set less than six hours before now. */
  predicate FlagActive(items: map<string, string>, tag: string, now: int) {
    var key := FailKey(tag);
    key in items && items[key] != "" &&
    ParseInt(items[key]).Num? && now - ParseInt(items[key]).value < FAIL_TIMEOUT_MS
  }

  datatype FailureCheck = FailureCheck(failed: bool, items: map<string, string>)

  /** hasDownloadFailed(tag) at time now: the answer, and the storage afterwards. A flag that
      is present but expired (or unreadable as a number) is removed; an empty value counts
      as no flag; without storage the answer is false and nothing is touched. */
  function CheckFailure(available: bool, items: map<string, string>, tag: string, now: int): (c: FailureCheck)
    ensures c.failed <==> available && FlagActive(items, tag, now)
    ensures c.items.Keys <= items.Keys
    ensures forall k :: k in items && k != FailKey(tag) ==> k in c.items && c.items[k] == items[k]
    ensures available && FailKey(tag) in items && items[FailKey(tag)] != "" && !c.failed ==>
      FailKey(tag) !in c.items
    ensures !(available && FailKey(tag) in items && items[FailKey(tag)] != "" && !c.failed) ==>
      c.items == items
  {
    var key := FailKey(tag);
    if !available || key !in items || items[key] == "" then FailureCheck(false, items)
    else
      match ParseInt(items[key])
      case Num(failedAt) =>
        if now - failedAt < FAIL_TIMEOUT_MS then FailureCheck(true, items)
        else FailureCheck(false, items - {key})
      case NaN => FailureCheck(false, items - {key})
  }

  /** The storage after setDownloadFailed(tag) at time now. */
  function MarkFailed(available: bool, items: map<string, string>, tag: string, now: int): (r: map<string, string>)
    ensures available ==> r.Keys == items.Keys + {FailKey(tag)} && r[FailKey(tag)] == ToDecimal(now)
    ensures forall k :: k in items && k != FailKey(tag) ==> k in r && r[k] == items[k]
    ensures !available ==> r == items
  {
    if available then items[FailKey(tag) := ToDecimal(now)] else items
  }

  /** A flag set at time t is active for exactly the six hours that follow t: a check at t'
      answers true iff t' - t < FAIL_TIMEOUT_MS, and a check that answers false removes the flag.
      Without storage, setting does nothing and checking answers false. */
  lemma SetThenCheck(available: bool, items: map<string, string>, tag: string, t: int, t': int)
    ensures var c := CheckFailure(available, MarkFailed(available, items, tag, t), tag, t');
      (c.failed <==> available && t' - t < FAIL_TIMEOUT_MS) &&
      (available && !c.failed ==> FailKey(tag) !in c.items) &&
      (!available ==> c.items == items)
  {
    ParseIntRoundTrip(t);
  }

  /** In particular a check at the moment of setting answers true. */
  lemma SetThenCheckAtOnce(items: map<string, string>, tag: string, t: int)
    ensures CheckFailure(true, MarkFailed(true, items, tag, t), tag, t).failed
  {
    SetThenCheck(true, items, tag, t, t);
  }

  /** A check never touches the flags of other tags, and checking twice at the same time
      answers the same as checking once and leaves the same storage. */
  lemma CheckIsIdempotent(available: bool, items: map<string, string>, tag: string, now: int)
    ensures var c := CheckFailure(available, items, tag, now);
      CheckFailure(available, c.items, tag, now) == c
  {
  }

  /** hasDownloadFailed(cidPath), reading the clock value now. */
  method HasDownloadFailed(storage: LocalStorage, tag: string, now: int) returns (failed: bool)
    modifies storage
    ensures var c := CheckFailure(old(storage.available), old(storage.items), tag, now);
      failed == c.failed && storage.items == c.items
    ensures storage.available == old(storage.available)
  {
    if !storage.available {
      return false;
    }
    var key := FailKey(tag);
    if key in storage.items && storage.items[key] != "" {
      var failedAt := ParseInt(storage.items[key]);
      if failedAt.Num? && now - failedAt.value < FAIL_TIMEOUT_MS {
        return true;
      }
      storage.items := storage.items - {key};
      return false;
    }
    return false;
  }

  /** setDownloadFailed(cidPath), writing the clock value now. */
  method SetDownloadFailed(storage: LocalStorage, tag: string, now: int)
    modifies storage
    ensures storage.items == MarkFailed(old(storage.available), old(storage.items), tag, now)
    ensures storage.available == old(storage.available)
  {
    if !storage.available {
      return;
    }
    storage.items := storage.items[FailKey(tag) := ToDecimal(now)];
  }
}
