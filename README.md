# Hiracraft client loader and language menu, in Dafny

This project models two pieces of the Hiracraft Eaglercraft launcher site and proves properties
about them.

The first piece is the client loader of `public/js/backend.js`: how a page obtains, caches and
launches the game client. It reads the boot configuration `window.__eaglercraftLoaderClient`
and derives the client's identity tag (`clientCIDPath`). It then does one of the following:

- looks the client up in the IndexedDB cache (`CacheManager`);
- consults a six-hour "update failed" flag in `localStorage` (`FailureTracker`);
- downloads the client with a sequential retry loop (`FileDownloader`), possibly
  gzip-decompressed;
- saves the fresh client and launches it, or falls back to the cached copy after asking the
  user, or shows the error screen.

The second piece is the `LanguageManager` of `public/js/menu.js`:

- the remembered language index (`minecraftLang` in `localStorage`, read back with
  `parseInt`);
- the language button, which moves the index to `(index + 1) % n`;
- `updateTranslations`, which looks each `data-i18n` key up with the dotted-path
  `getNestedValue` and rewrites only the elements whose value is a non-empty string.

How the model is built:

- **State the source changes in place is held in classes.** `Cache.CacheManager` holds the
  object store as a map keyed by `fileName`. `WebStorage.LocalStorage` holds `localStorage`.
  `Transfer.Transfer` holds the in-flight request handle and the cancel button's state.
  `ClientLoader.ClientLoader` holds `state.opts`. `Languages.Document` and
  `Languages.LanguageManager` hold the page and the menu state.
- **Each state-changing method is proved equal to a pure specification function.** These are
  `RunSpec`, `WithRecordSpec`, `AfterDownload`, `DirectSpec`, `DownloadSpec`, `CheckFailure`,
  `MarkFailed`, `AfterSave`, `UpdateSpec`, `StoredIndex`, `SavedIndex` and `CycleIndex`. The
  properties the source promises are then proved as lemmas about those functions.
- **`run()` is described by an ordered trace of effects.** The trace records requests, delays,
  cache reads and writes, failure-flag writes, confirmation prompts with their answers, and the
  final launch or error screen. The cache and `localStorage` contents the run leaves behind are
  part of the result too.
- **The environment is a set of parameters.** One run's environment is the `ClientLoader.Env`
  value:
  - whether IndexedDB exists;
  - whether the cache read succeeds, and how the save ends;
  - two clock readings: `now0` while the cache is consulted, `now1` after the download;
  - the outcome of the i-th network request;
  - gzip decoding, as a function from bytes to optional bytes;
  - the answer to the i-th `confirm` prompt.
- **JavaScript semantics are written out where the code depends on them:**
  - `parseInt(s, 10)`: leading white space, sign, longest digit prefix, NaN;
  - `String(n)` and `index.toString()` for integers;
  - `String.prototype.split` on one character;
  - the truncating `%`;
  - optional chaining `?.[key]` on JSON values, including string and array indices and
    `length`;
  - truthiness.

Behaviours of the code that are easy to miss:

- **A declined prompt can still launch the cached copy.** When the cached record's identity
  tag matches and a failure flag is active, the user is asked first. Declining does not lead to
  a download: the matching identity still launches the cached copy
  (`public/js/backend.js:595`). `CachedLaunchIffNoDownload` states the condition as written.
- **Only status 200 counts as a successful download.** Other 2xx statuses count as failures
  (`public/js/backend.js:172`).
- **`save` can answer true for a record that was not stored.** It answers true as soon as the
  put request succeeds, even when the transaction then fails to commit. The record is then
  not in the store (`Cache.CacheManager.Save`).
- **Only IndexedDB decides the direct path.** A missing `localStorage` only disables the
  failure flag.

Two further behaviours of the code, proved as they are:

- **The download never uses the mirror URLs.** Every attempt requests `downloadUrl` itself.
  The mirror list only sets the retry budget of eight attempts.
- **A stored language preference that is not a number sticks.** `parseInt` gives NaN, and NaN
  is never replaced by a language again.

## Model

| member | source | states |
|---|---|---|
| Gateways.GatewayUrl | public/js/backend.js:46-50 | Pattern A is `https://<domain>/ipfs/<cid>/<path>` and pattern B is `https://<cid>.ipfs.<domain>/<path>`: every segment of the URL sits at its place, and the length is the sum of the parts |
| Gateways.GatewayList | public/js/backend.js:52-61 | There are exactly eight mirrors, each with a non-empty domain |
| Gateways.GatewayUrlInjectiveInPath | public/js/backend.js:46-50 | For a fixed mirror and cid, different paths give different URLs |
| ClientLoader.ClientCIDPath | public/js/backend.js:575-577 | The tag is the cid when the path is not a string or is empty; otherwise it is exactly cid, then `/`, then the path |
| ClientLoader.ClientCIDPathInjective | public/js/backend.js:575-577 | For one cid, equal tags mean equal paths, with a missing path and an empty path counting as the same |
| ClientLoader.DisplayAge | public/js/backend.js:583-585 | The displayed age is the number of whole days d with d·86400000 ≤ now − cachedAt < (d+1)·86400000 (the floor of the quotient) |
| FailureTracker.FailKey | public/js/backend.js:363-365 | The flag key is `_eagler_dl_`, then the tag, then `.failedAt`, each at its place |
| FailureTracker.FailKeyInjective | public/js/backend.js:391-393 | Different tags never share a flag key |
| FailureTracker.CheckFailure | public/js/backend.js:359-385 | The answer is true iff storage exists and a non-empty flag parses to a time less than 21600000 ms before now. A present flag that is expired or not a number is deleted. Nothing else changes, and without storage nothing is touched |
| FailureTracker.MarkFailed | public/js/backend.js:387-398 | With storage, the flag key is set to String(now) and every other entry is kept; without storage, nothing changes |
| FailureTracker.SetThenCheck | public/js/backend.js:359-398 | A flag set at t reads as active at t' iff t' − t < 6 h. A check that answers false removes the flag, and without storage the check is false |
| FailureTracker.SetThenCheckAtOnce | public/js/backend.js:387-398 | A check at the very time of setting answers true |
| FailureTracker.CheckIsIdempotent | public/js/backend.js:359-385 | Checking a second time at the same clock gives the same answer and the same storage |
| FailureTracker.HasDownloadFailed | public/js/backend.js:359-385 | The method's answer and the storage it leaves are those of CheckFailure |
| FailureTracker.SetDownloadFailed | public/js/backend.js:387-398 | The storage it leaves is that of MarkFailed |
| JsText.TrimStart | public/js/backend.js:368 | parseInt drops a prefix of the string and then starts at a non-white-space character |
| JsText.TrimStartDropsWhiteSpace | public/js/backend.js:368 | Every character parseInt skips is JavaScript white space or a line terminator |
| JsText.ParseIntOfDecimal | public/js/backend.js:368 | parseInt of String(n) followed by any text that does not start with a digit reads back n |
| JsText.ParseIntRoundTrip | public/js/backend.js:368-393 | parseInt(String(n), 10) == n for every integer n: the stored failure time reads back unchanged |
| JsText.ParseInt | public/js/backend.js:368 | parseInt(s, 10) is NaN iff no digit follows the leading white space and the optional sign; otherwise it has the sign's sign and the magnitude of the longest run of digits. The same call reads the language index at public/js/menu.js:173 |
| JsText.NatToDecimal | public/js/menu.js:182 | index.toString() is a non-empty run of digits with no leading zero, and "0" for zero |
| JsText.ToDecimal | public/js/backend.js:393 | String(n) is non-empty and starts with `-` iff n is negative |
| JsText.ArrayIndex | public/js/menu.js:190 | A property key indexes an array or a string iff it is a canonical decimal; the key is then String(index) |
| JsText.ArrayIndexOfDecimal | public/js/menu.js:190 | String(i) used as a key selects index i |
| JsText.Split | public/js/menu.js:189 | split('.') always yields at least one piece |
| JsText.SplitPartsLackSeparator | public/js/menu.js:189 | No piece of a split contains the separator |
| JsText.JoinSplit | public/js/menu.js:189 | Joining the pieces with the separator gives back the path |
| JsText.SplitWithoutSeparator | public/js/menu.js:189 | A path without a dot splits into itself alone |
| JsText.SplitAtSeparator | public/js/menu.js:189 | Splitting `a.b` splits a and b independently and concatenates the pieces |
| JsText.JsRemainder | public/js/menu.js:217 | For a positive divisor the remainder has the sign of the dividend, its magnitude is below the divisor, and it is congruent to the dividend |
| Cache.Lookup | public/js/backend.js:285-316 | load(fileName) gives a record iff the read succeeds and the name is stored, and it gives the record stored under that name |
| Cache.AfterSave | public/js/backend.js:318-350 | A committed put stores the record under its fileName and replaces any earlier one. Every other record is kept, and a failed save changes nothing. The store stays keyed by fileName |
| Cache.SaveThenLoad | public/js/backend.js:285-350 | A record read back right after a committed save is the saved record |
| Cache.CacheManager.Load | public/js/backend.js:285-316 | The method answers what Lookup describes |
| Cache.CacheManager.Save | public/js/backend.js:318-350 | The method answers true unless the put request fails, and leaves the store AfterSave describes |
| Transfer.ResponseData | public/js/backend.js:172-177 | download resolves to the body iff the status is 200 |
| Transfer.AttemptData | public/js/backend.js:217-240 | An attempt yields bytes iff the status is 200 and, with gzip on, decompression yields bytes. With gzip on those are the decompressed bytes, and with gzip off the raw body |
| Transfer.FirstSuccessFrom | public/js/backend.js:213-248 | The first attempt that yields bytes: every earlier attempt within the budget yields none |
| Transfer.FailedRounds | public/js/backend.js:213-248 | k failed iterations are k pairs of a request to the URL followed by the 1000 ms retry delay |
| Transfer.DownloadResultIsFirstSuccess | public/js/backend.js:210-251 | downloadClient returns bytes iff some attempt within the budget yields them. It then returns the first such attempt's bytes, after one request per attempt made |
| Transfer.DownloadTrace | public/js/backend.js:213-250 | The budget is 8. There are between 1 and 8 requests, all to the same downloadUrl, and every delay is the retry delay. When nothing is returned, all 8 attempts were made and the trace ends with a delay |
| Transfer.FailedRoundsAreRetryTrace | public/js/backend.js:213-248 | Every step of the retry loop's trace is a request to the URL or the retry delay |
| Transfer.Transfer.Download | public/js/backend.js:143-208 | The method resolves to ResponseData. Afterwards no request is in flight, and the cancel button is disabled after having been shown |
| Transfer.Transfer.DownloadClient | public/js/backend.js:210-251 | The loop's result and trace are those of DownloadSpec (first success, or nothing after the whole budget). Afterwards no request is in flight, and a cancel button is disabled after having been shown; without one, its fields are unchanged |
| ClientLoader.ClientLoader.Run | public/js/backend.js:536-640 | The trace, the cache and the localStorage that run() leaves are those of RunSpec, and opts becomes the boot configuration |
| ClientLoader.ClientLoader.RunWithRecord | public/js/backend.js:582-609 | With a cached record, the method does what WithRecordSpec describes |
| ClientLoader.ClientLoader.OfferCached | public/js/backend.js:587-603 | The method launches iff (the flag is active and the prompt is accepted) or the record's identity matches, with the cache read, the prompt when asked, and the longer delay before the launch |
| ClientLoader.ClientLoader.RunDirect | public/js/backend.js:560-573 | Without IndexedDB the trace is DirectSpec: the download, then the short delay and the launch, or the direct-download error |
| ClientLoader.ClientLoader.DownloadAndLaunch | public/js/backend.js:611-639 | From the download on, the method does what AfterDownload describes: save and launch, or flag, ask and fall back, or the error |
| LoaderProperties.DownloadPath | public/js/backend.js:579-611 | When the cached copy is not used at once, the run continues with the download, after exactly the cache read and at most one prompt |
| LoaderProperties.CachedLaunchIffNoDownload | public/js/backend.js:582-603 | A run makes no network request iff a record exists and either its identity matches or the flag is active and the user confirms. The cache is then unchanged and the run ends with the 1500 ms delay and the cached payload's launch |
| LoaderProperties.FreshCacheHit | public/js/backend.js:582-603 | A record with a matching identity and no active flag gives exactly: cache read, 1500 ms delay, launch of the cached payload |
| LoaderProperties.FreshDownloadSavesOnce | public/js/backend.js:611-623 | After a successful download, exactly one save happens, of `{file, tag, now, data}`. It is followed by the 500 ms delay and the launch of data, and the store becomes AfterSave of that record |
| LoaderProperties.AfterDownloadIgnoresSaveOutcome | public/js/backend.js:615-623 | The trace from the download on does not depend on how the save ends |
| LoaderProperties.WithRecordIgnoresSaveOutcome | public/js/backend.js:582-623 | The trace after a cache hit does not depend on how the save ends |
| LoaderProperties.LaunchIgnoresSaveOutcome | public/js/backend.js:611-623 | The whole trace of run(), launch included, is the same whatever the save's result |
| LoaderProperties.FailedDownloadWithRecord | public/js/backend.js:624-636 | With a record and a failed download, the trace is: cache read, any first prompt, the eight failed rounds, SetFailed(tag), then the prompt. Accepting launches the cached payload after 1500 ms and declining shows the error. The flag reads as active at the clock of its write |
| LoaderProperties.FailedDownloadWithoutRecord | public/js/backend.js:624-639 | Without a record, a failed download ends with the error: no flag is written and nothing is asked |
| LoaderProperties.NoIndexedDbDirectOnly | public/js/backend.js:560-573 | Without IndexedDB there is no cache read, save, flag or prompt, the stores are unchanged, and the run ends with the launch or the direct-download error |
| LoaderProperties.AfterDownloadMakesRequest | public/js/backend.js:611 | Every path through the download makes at least one request |
| LoaderProperties.AfterDownloadEndsOnce | public/js/backend.js:611-639 | From the download on, the trace ends with exactly one launch or error |
| LoaderProperties.DirectEndsOnce | public/js/backend.js:560-573 | The direct path ends with exactly one launch or error |
| LoaderProperties.RunEndsOnce | public/js/backend.js:536-640 | Every configured run ends with exactly one decision: its last step is a launch or the error screen, and no earlier step is |
| LoaderProperties.DeclinedFallbackIsOfferedAgain | public/js/backend.js:587-636 | Declining the first prompt and then failing the download leaves the cache as it was, and the prompt is shown a second time right after the failure flag is written; accepting it launches the same cached payload |
| LoaderProperties.SavedDownloadIsUsedNextTime | public/js/backend.js:579-620 | After a stored fresh download, the next run launches the stored bytes from the cache without any request |
| Translations.GetProperty | public/js/menu.js:190 | `?.[key]` gives undefined on null and undefined and on a number or a boolean. On an object it gives the property or undefined. On a string or an array, `length` is its length, a canonical index in range gives that character or element, and any other key gives undefined |
| Translations.Truthy | public/js/menu.js:196-207 | The falsy values are exactly undefined, null, false, 0 and the empty string; arrays and objects are truthy |
| Translations.Fold | public/js/menu.js:189-191 | Once a step is undefined, the lookup is undefined. A null gives undefined after any key, and one key is one property lookup |
| Translations.GetNestedValue | public/js/menu.js:188-192 | The lookup on null or undefined is undefined, and a path without a dot is one property lookup |
| Translations.FoldConcat | public/js/menu.js:189-191 | Reducing over a + b is reducing over a and then over b |
| Translations.NestedSingleSegment | public/js/menu.js:188-192 | A dot-free path is a direct property lookup |
| Translations.NestedCompose | public/js/menu.js:188-192 | getNestedValue(obj, "a.b") is getNestedValue(getNestedValue(obj, a), b) |
| Translations.NestedMissingStep | public/js/menu.js:188-192 | When an intermediate value is null or undefined, the rest of the path gives undefined |
| Translations.NestedDescends | public/js/menu.js:188-192 | In an object, "k.rest" descends into the child at k, and a missing child gives undefined |
| Languages.CycleIndex | public/js/menu.js:217 | (index + 1) % n is NaN iff the index is NaN or n is 0, and otherwise lies strictly between −n and n. For an index of at least −1 and n > 0 it lies in [0, n) |
| Languages.CyclesFrom | public/js/menu.js:216-219 | k presses from i in [0, n) give (i + k) mod n |
| Languages.CyclesReturnToStart | public/js/menu.js:216-219 | n presses return to the starting index |
| Languages.NaNIndexIsStuck | public/js/menu.js:173-196 | A NaN index stays NaN under every press, and updateTranslations then changes nothing |
| Languages.MissingPreferenceIsZero | public/js/menu.js:171-178 | Without usable storage, a stored entry or a non-empty one, the index is 0 |
| Languages.SavedIndexReadsBack | public/js/menu.js:171-186 | A saved index reads back as the same index |
| Languages.Retext | public/js/menu.js:203-210 | An element keeps its key. It either stays as it was, or takes the looked-up value when that is a non-empty string, and in that case it always takes it |
| Languages.UpdateGuards | public/js/menu.js:194-201 | With no language at the index, or no truthy table for its code, nothing changes: text, lang and stored index alike |
| Languages.UpdateSetsLangAndIndex | public/js/menu.js:212-213 | After an update that passes the guards, lang is the code. With storage the stored index reads back as the current one, and without storage the storage is unchanged |
| Languages.UpdateRetextsOnlyTranslated | public/js/menu.js:203-210 | The number and the keys of the elements never change. An element that changes had a non-empty string value and now shows exactly that string |
| Languages.UpdateIsIdempotent | public/js/menu.js:194-214 | A second update changes nothing more |
| Languages.LanguageManager.GetStoredLanguageIndex | public/js/menu.js:171-178 | The method returns StoredIndex, and 0 when storage is unusable or there is no entry |
| Languages.LanguageManager.SaveLanguageIndex | public/js/menu.js:180-186 | The storage it leaves is that of SavedIndex |
| Languages.LanguageManager.UpdateTranslations | public/js/menu.js:194-214 | The loop over the elements leaves the page and the storage that UpdateSpec describes |
| Languages.LanguageManager.CycleLanguage | public/js/menu.js:216-219 | The index becomes CycleIndex of the old one, and the page is then updated once |
| Languages.LanguageManager.Init | public/js/menu.js:221-235 | The tables are stored, the index comes from storage, and updateTranslations is applied once |

## Left out

- The progress screen, the progress bar text and fractions, the console messages and the
  text of the prompts are left out. They do not change the decisions. Only the prompt's answer
  and the displayed age are recorded.
- Gzip decoding with DecompressionStream is a parameter of the model: a function from bytes
  to optional bytes, where no bytes means the stream threw or produced nothing.
- The event wiring of XMLHttpRequest and IndexedDB is not modelled; only how each request ends
  is. Opening the database, its upgrade handler and its error listeners are each reduced to
  one success flag per operation.
- The cancel button's click handler is left out. It aborts the in-flight request, and an
  abort is one of the outcomes a request can have.
- ClientLoader.load turns bytes into a script through a Blob URL. It is the Launch(payload)
  effect.
- `delay` is the Delay(ms) effect; no time passes in the model. The clock is read twice per
  run: now0 serves the displayed age and the failure check, and now1 serves the saved record
  and the failure flag.
- ConsoleInterceptor, ServerConfig, WebSocketInterceptor and UserscriptManager in
  backend.js, and SplashLoader, PanoramicBackground, MinecraftLauncher and the button wiring in
  menu.js are not part of this model. They do not share state with the loader or the language
  manager.
- Concurrent runs in several tabs are left out, because the model has one run at a time.
- Gateways.GatewayUrl: the mirror URLs are modelled and proved, but no operation uses them,
  exactly as in the code.
- JsText.ParseInt: integers of any size are exact. Precision loss above 2^53 and numbers that
  are not integers are not modelled; stored values are epoch milliseconds and small indices.
- Translations.GetProperty: only own properties are looked up. Inherited properties such as
  `toString` are not modelled, and strings are sequences of characters rather than of UTF-16
  code units.
- Translations.JsValue: numbers are integers, because the translation tables hold strings and
  nested objects.
- Languages.LanguageManager.Init: the translations argument is a map of JSON values, and every
  language entry is an object with a string code. A null argument, which would make the code
  throw, is not modelled, and neither is the click listener on the language button.
- `window.localStorage` is read outside the `try` at public/js/backend.js:360 and :388, so a
  getter that throws would reject `run()`. The model treats unusable storage as absent storage.
- An exception thrown synchronously by `db.transaction` inside the promise executors of
  CacheManager is not modelled: load and save end only in the outcomes of `Env`.
- localStorage is either usable for the whole run or not at all. A setItem that fails because
  of the quota while reads still work is not modelled.
