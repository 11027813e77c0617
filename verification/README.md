# Kaia portal: Luma event sync and event cache

This project is a Dafny model of the event pipeline behind the Kaia portal, together with proofs about it.

- **Scraping.** The Luma calendar page is scraped into event records. When nothing can be scraped, four hand-written events are used instead (`LumaScraper`).
- **Syncing.** `syncLumaEvents` writes the records under `luma:event:<hash of the registration link>` with a 30-day expiry. It skips links that are already stored and then rewrites the key index and the sync statistics (`LumaSync`).
- **Serving.** `GET /api/events` serves the stored records newest first. It uses a five-minute in-memory cache that is also dropped when the statistics report a different sync. It retries up to three times, waiting one second and then two (`Retry`, `EventCache`).
- **Legacy writers.** The scheduled job and the manual sync route both write to the older `events` sorted set (`ScheduledSync`, `ManualSync`).
  - The scheduled job adds one community-call record when more than six hours have passed since `luma:last_sync`.
  - The manual route rewrites the set without manual records older than a day, adds two new ones, and reports the last and next sync.
- **Admin tool.** The command-line tool `redisManager` covers dispatch with the production guard, `init`, `clear` by pattern or flush, the Luma listing, and the string preview (`RedisManager`).

How the model represents the system:

- **Store.** Redis is an immutable `Store` with string values, sorted sets and expiry times (`KeyValue`).
  - A read of the wrong type is a `WrongType` result.
  - Each operation receives the list returned by `KEYS luma:event:*` as an argument.
- **Encodings.** JSON, base64, ISO dates and locale formatting are function fields of a `Codec` or `LegacyCodec`, not implementations (`Events`, `Legacy`).
- **Time.** Each operation takes one clock reading `now`, as an argument.
- **Cache.** The in-memory cache is passed in explicitly and the new cache is returned.
- **Failures.** The per-attempt availability of the store (`down`) and the per-event write faults (`fault`) are arguments too.
- **Number parsing.** `parseInt`, `split` and `includes` are modelled on strings (`Strings`), so the id and timestamp round trips are proved, not assumed.

## Model

| member | source | states |
|---|---|---|
| Strings.ParseIntRoundTrip | scripts/scheduledSync.ts:20-27 | `parseInt` of a decimal timestamp written by `String(n)` gives back `n`, negative values included |
| Strings.SplitJoin | app/api/sync-events/route.ts:40-41 | splitting a `-`-joined list of `-`-free parts on `-` gives back the parts |
| Strings.JoinSplit | app/api/sync-events/route.ts:40-41 | joining the parts of a split on the same separator gives back the string |
| Strings.NatToStringInjective | scripts/syncLumaEvents.ts:123-128 | distinct numbers print as distinct decimal strings, so numbered ids and links are distinct |
| Strings.ContainsMiddle | app/api/sync-events/route.ts:40 | `includes` finds a substring wherever it occurs |
| Seqs.Filter | app/api/sync-events/route.ts:39-42 | the result keeps exactly the elements satisfying the predicate, each taken from the input, and is no longer than the input |
| Seqs.FilterConcat | app/api/events/route.ts:122-155 | filtering distributes over concatenation, so the order of the survivors is kept |
| Seqs.FilterPartition | scripts/redisManager.ts:386-387 | the elements satisfying a predicate and those satisfying its negation together account for the whole sequence |
| Seqs.SortBy | scripts/redisManager.ts:361 | the sort is a permutation of its input in ascending key order |
| Seqs.SortByKeepsTies | scripts/redisManager.ts:361 | the sort is stable: for every key value, the elements with that key keep their input order |
| KeyValue.Set | scripts/syncLumaEvents.ts:265 | `SET` makes the key read as the value and drops its expiry; every other key reads and lists as before |
| KeyValue.SetFrame | scripts/syncLumaEvents.ts:265 | after `SET` every other key keeps its value and its expiry |
| KeyValue.Expire | scripts/syncLumaEvents.ts:268 | `EXPIRE` gives an existing key the expiry and changes no value and no other key's expiry |
| KeyValue.ExpireFrame | scripts/syncLumaEvents.ts:268 | after `EXPIRE` every other key keeps its value and its expiry |
| KeyValue.Delete | app/api/sync-events/route.ts:48 | `DEL` removes exactly the given keys and keeps every other value |
| KeyValue.DeleteFrame | app/api/sync-events/route.ts:48 | `DEL` drops the deleted keys' expiries, and every other key keeps its value and its expiry |
| KeyValue.ZAddFacts | scripts/scheduledSync.ts:61-67 | after `ZADD` the member sits at its new score, every entry of another member survives, nothing else appears, and the size grows by one exactly when the member is new |
| KeyValue.ZAdd | scripts/scheduledSync.ts:61-67 | `ZADD` of one member: its properties are the contracts of `KeyValue.ZAddFacts`, `KeyValue.ZAddMember` and `KeyValue.ZAddAbove` |
| KeyValue.ZAddMembers | scripts/scheduledSync.ts:61-67 | the members after `ZADD` are the old members plus the added one, and nothing else |
| KeyValue.ZAddMember | scripts/scheduledSync.ts:61-67 | a name is a member after `ZADD` exactly when it was one before or is the added one |
| KeyValue.ZAddKey | scripts/scheduledSync.ts:61-67 | `ZADD` on a store key adds the member, keeps the old ones and no others, grows the count for a new member, leaves a string-valued key alone, keeps every expiry, and leaves every other key's value alone |
| KeyValue.ZAddAbove | app/api/sync-events/route.ts:51-53 | a new member scored above every entry is appended at the end |
| KeyValue.ZCard | app/api/sync-events/route.ts:85 | `ZCARD` is the number of members, and fails exactly when `ZRANGE` would |
| KeyValue.SetOtherKeepsEventKeys | scripts/syncLumaEvents.ts:283-293 | writing the index or the statistics neither adds nor changes an event key |
| Events.KeyFor | scripts/syncLumaEvents.ts:261-262 | every derived storage key lies under the `luma:event:` prefix that `KEYS luma:event:*` lists |
| LumaScraper.Scrape | scripts/syncLumaEvents.ts:43-150 | a failed fetch, a missing `__NEXT_DATA__` tag or unparsable JSON gives no events, and a non-empty result comes from a successful extraction |
| LumaScraper.ScrapeCount | scripts/syncLumaEvents.ts:66-137 | with a calendar and start times, there is one event per start time in order, the `i`-th synthesized from position `i`, its start time, the calendar and its tags; without `initialData`, `calendar` or start times there are none |
| LumaScraper.ScrapedEventShape | scripts/syncLumaEvents.ts:85-135 | each scraped event is numbered from its position, cycles through the five templates and four locations, is titled `#n` from the sixth on, keeps its start time and has no end, is upcoming exactly when it starts after now, shows the calendar cover (or the default cover when that is missing or empty), and carries the calendar's tag names in order, or `kaia` without calendar tags |
| LumaScraper.ScrapedLinksDistinct | scripts/syncLumaEvents.ts:128 | the links of one scrape are pairwise distinct |
| LumaScraper.Fallback | scripts/syncLumaEvents.ts:155-206 | the fallback set is four events with the four fixed links |
| LumaScraper.FallbackWellFormed | scripts/syncLumaEvents.ts:155-206 | the fallback links are pairwise distinct and the hackathon ends after it starts |
| LumaSync.Candidates | scripts/syncLumaEvents.ts:216-222 | the scrape when it found anything, the fallback set otherwise; never empty |
| LumaSync.Unknown | scripts/syncLumaEvents.ts:250 | exactly the candidates whose link is not yet stored, each taken from the candidates |
| LumaSync.WriteAll | scripts/syncLumaEvents.ts:258-280 | the count of synced events is the number of events whose writes did not throw, at most the number of new events |
| LumaSync.WriteAllFrame | scripts/syncLumaEvents.ts:258-280 | the write loop changes only the keys derived from the new events' links, each to the encoding of an event with that link |
| LumaSync.WriteAllTtl | scripts/syncLumaEvents.ts:265-268 | only written keys receive an expiry, always 30 days, and every one does when no write throws |
| LumaSync.Commit | scripts/syncLumaEvents.ts:283-293 | the index holds the event keys, the statistics hold the sync time, key count, synced count and source, and no event key changes |
| LumaSync.Sync | scripts/syncLumaEvents.ts:211-319 | the run fails exactly when an event key holds a sorted set; otherwise the new events are exactly the candidates with an unknown link, and the statistics and index describe the store left behind |
| LumaSync.SyncStages | scripts/syncLumaEvents.ts:250-293 | a successful run is the filter, then the write loop, then the index and statistics writes; the reported new-event count is the number of events whose writes did not throw |
| LumaSync.WriteAllKeepsLinks | scripts/syncLumaEvents.ts:258-280 | without collisions or failed `SET`s, the write loop loses no stored link and stores every new one |
| LumaSync.WriteAllAddsOnlyItsLinks | scripts/syncLumaEvents.ts:258-280 | every link known after the loop was known before or belongs to a written event |
| LumaSync.WriteAllKeepsStrings | scripts/syncLumaEvents.ts:258-280 | the write loop never leaves a sorted set under an event key |
| LumaSync.SyncLeavesStrings | scripts/syncLumaEvents.ts:232-280 | a successful run leaves no sorted set under an event key, so the next run's reads cannot throw |
| LumaSync.UnknownLinks | scripts/syncLumaEvents.ts:250 | the unknown candidates carry exactly the candidate links not yet known |
| LumaSync.SyncKnownLinks | scripts/syncLumaEvents.ts:232-284 | after a sync the known links are the old ones plus the candidates' links |
| LumaSync.CandidateLinksIgnoreTime | scripts/syncLumaEvents.ts:155-222 | the candidate links do not depend on the time of the run |
| LumaSync.NothingUnknown | scripts/syncLumaEvents.ts:250 | when every candidate link is known, no candidate is new |
| LumaSync.SyncNothingNew | scripts/syncLumaEvents.ts:250-293 | a run with nothing new adds no event key |
| LumaSync.RerunAddsNothing | scripts/syncLumaEvents.ts:211-319 | rerunning the sync on the same scrape succeeds, adds nothing, and reports the same total |
| Retry.RetryOperation | app/api/events/route.ts:33-53 | at most `maxRetries` attempts; the first success is returned; waits of `delay * (j + 1)` separate consecutive attempts only; exhaustion rethrows the last error |
| Retry.FailsIffEveryAttemptFails | app/api/events/route.ts:33-53 | the retries fail exactly when every permitted attempt fails |
| Retry.WaitsAddUp | app/api/events/route.ts:45-48 | the waits before the final attempt add up to `delay * (1 + ... + attempts - 1)` |
| EventCache.IsCacheValid | app/api/events/route.ts:56-75 | the cache is usable unless it is missing, older than five minutes, or both it and the store name a non-empty sync time and the two differ; `EventCache.StaleCacheMisses`, `EventCache.NewSyncInvalidates` and `EventCache.ReloadWithinWindowHits` state its consequences |
| EventCache.CurrentSyncTime | app/api/events/route.ts:78-89 | `last_sync` of the stored statistics, absent when the key is missing, empty, of the wrong type or unparsable; `EventCache.SyncSetsCurrentSyncTime` relates it to a sync |
| EventCache.ReadableContents | app/api/events/route.ts:122-155 | every key whose record parses contributes that record with its formatted date |
| EventCache.ReadableOrigin | app/api/events/route.ts:122-155 | every served record comes from a parsable key of the listing |
| EventCache.ReadableAppend | app/api/events/route.ts:122-155 | reading a concatenated listing concatenates the readings |
| EventCache.MalformedRecordSkipped | app/api/events/route.ts:125-154 | a missing, empty, wrong-type or unparsable record is skipped without affecting the others |
| EventCache.NewestFirst | app/api/events/route.ts:158 | the sort is a permutation with the latest start first |
| EventCache.NewestFirstKeepsTies | app/api/events/route.ts:158 | events with the same start time keep the order in which the keys were read |
| EventCache.Load | app/api/events/route.ts:56-170 | one attempt fails exactly when the store is down and the cache is invalid; otherwise it serves the cache exactly when the cache is valid for the current sync, or refills the cache with the readable records newest first |
| EventCache.AttemptsFail | app/api/events/route.ts:33-53 | every attempt fails exactly when the store is down and the cache invalid at each attempt time |
| EventCache.Serve | app/api/events/route.ts:92-170 | the retried load gives nothing exactly when all three attempts fail, and otherwise gives the load of the first attempt that succeeds, every earlier attempt having failed |
| EventCache.GetEvents | app/api/events/route.ts:172-197 | a 500 exactly when all attempts fail, with the cache unchanged; otherwise the events and the cache of the first successful attempt, with their count, `cacheAge` as that attempt's time minus the cache's timestamp, and `cached` agreeing with the status header |
| EventCache.GetAlwaysReportsHit | app/api/events/route.ts:176-188 | the handler as written reports `cached` and `HIT` on every successful response |
| EventCache.FirstRequestReportedAsHit | app/api/events/route.ts:176-188 | even the first request, answered from the store, is reported as a hit with age 0 |
| EventCache.GetEventsCorrected | app/api/events/route.ts:172-197 | as the handler, serving the events and cache of the first successful attempt, with `cacheAge` as that attempt's time minus the cache's timestamp and `cached` agreeing with the status header |
| EventCache.CorrectedReportsHit | app/api/events/route.ts:176-188 | the corrected handler reports a hit exactly when the cache was valid for the current sync |
| EventCache.ClearCache | app/api/events/route.ts:208-211 | a cleared cache is never valid |
| EventCache.ClearedCacheReloads | app/api/events/route.ts:56-58 | after clearing, the next attempt reads the store, or fails when the store is down |
| EventCache.PostEvents | app/api/events/route.ts:200-205 | `POST` answers 405 whatever the request |
| EventCache.ReloadWithinWindowHits | app/api/events/route.ts:56-75 | a refill is served again, unchanged, for five minutes including the boundary, while the sync time stays |
| EventCache.StaleCacheMisses | app/api/events/route.ts:62-66 | a cache older than five minutes is never served |
| EventCache.NewSyncInvalidates | app/api/events/route.ts:68-72 | a cache filled before a different sync is refilled however young it is |
| EventCache.YoungCacheSurvivesOutage | app/api/events/route.ts:78-103 | while the store is unreachable a young cache is still served |
| EventCache.LoadServesEveryEventKey | app/api/events/route.ts:105-155 | when the listing is the answer to `KEYS luma:event:*`, a load from the store serves the record of every event key that parses |
| EventCache.SyncSetsCurrentSyncTime | scripts/syncLumaEvents.ts:287-293 | after a successful sync, the sync time the cache compares is that sync's ISO time |
| EventCache.SyncInvalidatesCache | app/api/events/route.ts:68-72 | after a sync, the next load from a reachable store refills a cache filled under another sync time, however young it is |
| Legacy.DecodeAll | scripts/scheduledSync.ts:57-58 | parsing the members succeeds exactly when each one parses, and then gives one record per member in order |
| ScheduledSync.LastSyncMs | scripts/scheduledSync.ts:17-24 | a missing, empty or wrong-type `luma:last_sync` reads as 0; anything else is `parseInt` of it |
| ScheduledSync.ShouldSync | scripts/scheduledSync.ts:30-36 | due exactly when more than six hours have passed since the stored time; never when the stored time is NaN; `ScheduledSync.RecheckAfterSync`, `ScheduledSync.UnparsableNeverSyncs` and `ScheduledSync.MissingTimeSyncs` state its consequences |
| ScheduledSync.PerformSync | scripts/scheduledSync.ts:38-73 | fails when `events` is a string or a member does not parse; otherwise adds the new record to `events`, stamps `luma:last_sync` with the time (without an expiry), keeps the expiry of `events`, and leaves every other key's value and expiry as they were |
| ScheduledSync.RunScheduledSync | scripts/scheduledSync.ts:75-92 | waits exactly when the last sync is within six hours (or NaN) and reports the next time; otherwise the sync's result |
| ScheduledSync.RecheckAfterSync | scripts/scheduledSync.ts:26-36 | after a sync the stored time reads back, and the job is due again exactly six hours later |
| ScheduledSync.UnparsableNeverSyncs | scripts/scheduledSync.ts:17-36 | an unparsable stored time stops the job from ever syncing |
| ScheduledSync.MissingTimeSyncs | scripts/scheduledSync.ts:17-36 | with no stored time the job syncs once the clock is past six hours after the epoch |
| ScheduledSync.PerformSyncAddsOne | scripts/scheduledSync.ts:61-67 | a sync adds exactly one new member and drops none |
| ManualSync.ManualEvents | app/api/sync-events/route.ts:11-32 | two new records, both upcoming and linked to the Kaia calendar |
| ManualSync.Retained | app/api/sync-events/route.ts:39-42 | the retention filter on a record, read through its id; `ManualSync.ManualRetentionWindow` and `ManualSync.DroppedRecordGone` state its consequences |
| ManualSync.RetainedId | app/api/sync-events/route.ts:39-42 | an id is kept unless it contains `manual` and its third `-`-separated part is not a time less than a day old; `ManualSync.ManualIdWindow` states it for manual ids |
| ManualSync.ZAddAll | app/api/sync-events/route.ts:50-56 | the pipeline of `ZADD`s at scores `base + i`; `ManualSync.ZAddAllMember` and `ManualSync.ZAddAllInOrder` state its effect |
| ManualSync.ZAddAllMember | app/api/sync-events/route.ts:50-56 | after the `ZADD` pipeline the members are the old ones plus the added ones, and nothing else |
| ManualSync.ZAddEach | app/api/sync-events/route.ts:50-56 | the pipeline leaves exactly the old members plus the added ones, keeps every expiry, and leaves every other key's value alone |
| ManualSync.Rewrite | app/api/sync-events/route.ts:48-59 | after the rewrite `events` holds exactly the given records and `luma:last_sync` the time, neither with an expiry; every other key keeps its value and its expiry |
| ManualSync.PostSync | app/api/sync-events/route.ts:6-79 | fails when `events` is a string, a member does not parse or a record has no id; otherwise stores exactly the retained records plus the two new ones, reports their number, stamps the time, and leaves every other key's value and expiry as they were |
| ManualSync.StoredRecords | app/api/sync-events/route.ts:39-56 | every retained and every new record is stored |
| ManualSync.DroppedRecordGone | app/api/sync-events/route.ts:39-56 | under an injective encoding, a record the filter drops is gone |
| ManualSync.ManualIdParts | app/api/sync-events/route.ts:13 | a manual id splits on `-` into `luma`, `manual`, the time and the suffix |
| ManualSync.ManualIdMentionsManual | app/api/sync-events/route.ts:13 | every manual id contains `manual` |
| ManualSync.ManualIdWindow | app/api/sync-events/route.ts:39-42 | a manual id created at `t` is retained at `later` exactly when less than a day has passed |
| ManualSync.ManualRetentionWindow | app/api/sync-events/route.ts:11-42 | a record a manual sync created survives a later one exactly when less than a day has passed |
| ManualSync.ZAddAllInOrder | app/api/sync-events/route.ts:50-56 | with distinct members the pipeline leaves them in order at consecutive scores |
| ManualSync.RewriteInOrder | app/api/sync-events/route.ts:48-56 | when the records encode distinctly, `events` holds them in order, the `i`-th scored `now + i` |
| ManualSync.GetStatus | app/api/sync-events/route.ts:81-99 | a 500 exactly when `luma:last_sync` or `events` has the wrong type; otherwise the count, the parsed last sync and the next sync six hours on, both absent together |
| ManualSync.StatusOfStamp | app/api/sync-events/route.ts:84-93 | a stored time reads back as the last sync, with the next one six hours on |
| ManualSync.StatusAfterSync | app/api/sync-events/route.ts:59-93 | right after a manual sync the status reports its time and the next sync six hours on |
| RedisManager.Dispatch | scripts/redisManager.ts:404-509 | each command word and its aliases select one command; `clear` is cancelled in production unless `FORCE_CLEAR` is `true`; anything else prints the help |
| RedisManager.InitRedis | scripts/redisManager.ts:12-46 | sets the version, initialisation time and status keys without an expiry; every other key keeps its value and its expiry |
| RedisManager.ClearRedis | scripts/redisManager.ts:52-117 | with a pattern, deletes exactly the matching keys and reports their number, leaving every other key's value and expiry; without one, empties the store, expiries included, and flushes only a non-empty one |
| RedisManager.ClearIdempotent | scripts/redisManager.ts:52-117 | clearing by a pattern a second time deletes nothing |
| RedisManager.Records | scripts/redisManager.ts:344-358 | reading fails exactly when a listed key holds a sorted set; otherwise each parsable key contributes its record and nothing else appears |
| RedisManager.RecordsFollowListing | scripts/redisManager.ts:344-358 | the records are exactly those of the keys that parse, one each, in listing order |
| RedisManager.ShowLumaEvents | scripts/redisManager.ts:306-401 | nothing without event keys; otherwise the readable records earliest first, split into upcoming and past counts that add up to the total |
| RedisManager.ShowLumaEventsTotal | scripts/redisManager.ts:386-391 | the listing shows one item per event key that parses, and the upcoming and past counts add up to that number |
| RedisManager.Preview | scripts/redisManager.ts:148-150 | the first hundred characters, followed by `...` exactly when something was cut |
| RedisManager.RunCommand | scripts/redisManager.ts:404-518 | each command has the effect of its operation, the read-only ones none, and only the sync and the listing can make the tool fail, each exactly when its operation fails |
| RedisManager.ProductionClearGuarded | scripts/redisManager.ts:430-450 | in production, `clear` without `FORCE_CLEAR=true` deletes nothing and exits 0 |

## Left out

- Fetching the Luma page, finding the `__NEXT_DATA__` script tag, and `JSON.parse` are left out. They are the abstract parameters `page`, `findNextData` and `parse`.
- The JSON encodings, the base64 link hash, `toISOString` and `toLocaleDateString` are left out. They are the function fields of `Codec` and `LegacyCodec`. Whether the JSON round trip holds is the explicit hypothesis `EventRoundTrip`.
- Glob matching for `KEYS pattern` is the parameter `matches`.
- Key expiry is recorded but never takes effect.
- The environment prefix that the Redis client adds to keys is left out, because no caller sees it.
- `FLUSHDB` flushes the whole database, not only the prefixed keys. The model's store is that database, so it becomes empty.
- Each operation reads the clock once (`now`). The source reads `Date.now()` several times per operation, milliseconds apart.
- The store can fail in only one way, per attempt of `GET /api/events`: `down` makes the sync-time read miss and the key listing throw.
  - A store that fails between the listing and the per-key reads is not modelled.
  - On the other routes, a connection failure is left out. Only wrong-type values make them throw.
- Logging, console output, the overview's type probing, the connection test, the backup file and the `sync-luma` child process are left out because they are I/O.
- `app/api/events/cache/route.ts` is not part of this model.
- `ZADD` score ties: Redis orders equal scores by member, but the model places a new entry after the old ones. Only membership and the distinct-score order of `ManualSync.RewriteInOrder` are stated.
- Whitespace: `parseInt` skips the JavaScript whitespace set only as far as ASCII and a few common code points go. The other Unicode space separators are treated as non-space.
- Records with an invalid `startDate` (NaN sorting) and records whose `id` is not a string are left out. Their fields are typed.
- LumaSync.SyncKnownLinks: holds only when no two candidate links hash to the same key and no candidate's key already holds another link's record (`CollisionFree`). The source removes `/`, `+` and `=` from the base64 text, so two links can share a key, and one of them would then be lost.
- LumaSync.RerunAddsNothing: holds only under `CollisionFree` and when no `SET` of the first run throws. A failed `SET` leaves its link unknown, and the rerun adds it.
- LumaSync.WriteAllKeepsLinks: holds only under `CollisionFree` and when no `SET` fails, for the reasons above.
- RedisManager.Preview: lengths are counted in Unicode code points, while JavaScript's `length` and `substring` count UTF-16 code units. A value with characters outside the Basic Multilingual Plane is cut later, or not at all, in the model.
- Strings.ParseIntRoundTrip: integers are unbounded. JavaScript numbers are doubles, so `String(n)` switches to exponent notation from 1e21 and `parseInt` rounds beyond 2^53. The round trip is stated for every integer, which holds in JavaScript only for safe integers; the millisecond timestamps written here are well inside that range.
- ManualSync.DroppedRecordGone: assumes that `JSON.stringify` maps distinct records to distinct strings.
- ManualSync.ManualRetentionWindow: covers records created at a non-negative time. `String(t)` of a negative `t` adds a `-` that shifts the split.

## Findings

| source | as written | input that shows it | evidently intended | confidence | as-written member | corrected member |
|---|---|---|---|---|---|---|
| app/api/events/route.ts:179-187 | `X-Cache-Status` and `meta.cached` are computed after `getAllLumaEvents` has validated or refilled `memoryCache`, so they are `HIT`/`true` on every successful response | the first request after start-up (`memoryCache` null, store reachable): served from the store, yet reported as `HIT` with `cacheAge` 0 | report whether this request was served from the cache | not executed | EventCache.GetEvents, EventCache.GetAlwaysReportsHit, EventCache.FirstRequestReportedAsHit | EventCache.GetEventsCorrected, EventCache.CorrectedReportsHit |

Notes on the source's behaviour:

- An unparsable `luma:last_sync` reads as NaN in `scheduledSync.ts`, because `parseInt` is applied without a check. Every comparison with NaN is false, so the job then never syncs (`ScheduledSync.UnparsableNeverSyncs`).
- Only a failure of the key listing escapes an attempt of `getAllLumaEvents`. A failed sync-time read counts as no sync time, and a failed per-key read skips that key.
- Inside the manual route's pipeline, a `ZADD` on a key that holds a string is a collected error, not a throw. In practice the preceding `DEL` rules it out.
