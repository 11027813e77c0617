/**
 * The read side: `GET /api/events` serves the stored Luma events through a
 * five-minute in-memory cache that is also dropped when the sync statistics
 * report a newer sync. The process-wide `memoryCache` variable is threaded
 * through explicitly: every operation takes the cache and returns the next one.
 */
module EventCache {
  import opened Wrappers
  import opened KeyValue
  import opened Events
  import opened Seqs
  import opened Retry
  import LumaSync

  const CACHE_DURATION: int := 5 * 60 * 1000
  const MAX_RETRIES: int := 3
  const RETRY_DELAY: int := 1000

  /** An event as the route returns it: the stored record plus its formatted start `date`. */
  datatype ApiEvent = ApiEvent(event: Event, date: string)

  datatype CacheEntry = CacheEntry(events: seq<ApiEvent>, timestamp: int, lastSyncTime: Option<string>)

  /** `memoryCache`: `None` is JavaScript `null`. */
  type Cache = Option<CacheEntry>

  /** The only failure that escapes an attempt: listing the keys throws. */
  datatype StoreError = StoreUnavailable

  datatype LoadResult = LoadResult(cache: Cache, events: seq<ApiEvent>, hit: bool)

  datatype CacheStatus = Hit | Miss

  datatype Meta = Meta(total: nat, cached: bool, cacheAge: int)

  datatype Response =
    | Listed(events: seq<ApiEvent>, meta: Meta, cacheStatus: CacheStatus)
    | ServerError
    | MethodNotAllowed

  function StatusCode(r: Response): nat
  {
    match r
    case Listed(_, _, _) => 200
    case ServerError => 500
    case MethodNotAllowed => 405
  }

  /** `s || undefined`: the empty string counts as absent. */
  function Present(m: Option<string>): (r: Option<string>)
    ensures r.Some? <==> m.Some? && m.value != ""
    ensures r.Some? ==> r == m
  {
    if m.Some? && m.value != "" then m else None
  }

  /**
   * The cache is usable at `now` unless it is missing, older than five
   * minutes, or both it and the store name a sync and the two differ.
   */
  predicate IsCacheValid(cache: Cache, now: int, current: Option<string>)
  {
    && cache.Some?
    && now - cache.value.timestamp <= CACHE_DURATION
    && !(Present(current).Some? && Present(cache.value.lastSyncTime).Some?
         && current.value != cache.value.lastSyncTime.value)
  }

  /**
   * `last_sync` of the stored statistics; `None` when the key is missing or
   * empty, holds a sorted set, or does not parse.
   */
  function CurrentSyncTime(st: Store, c: Codec): Option<string>
  {
    if !Truthy(Get(st, STATS_KEY)) then None
    else match c.decodeStats(Get(st, STATS_KEY).text)
      case None => None
      case Some(stats) => Some(stats.lastSync)
  }

  /** One stored record as the route shapes it. */
  function View(e: Event, locale: int -> string): ApiEvent
  {
    ApiEvent(e, locale(e.startDate))
  }

  /**
   * The records behind `listing` in listing order, skipping keys that are
   * empty, missing, of the wrong type, or that do not parse.
   */
  function Readable(st: Store, listing: seq<string>, c: Codec, locale: int -> string): seq<ApiEvent>
  {
    Views(st, DecodableKeys(st, listing, c), c, locale)
  }

  /** The records behind `keys`, each known to parse. */
  function Views(st: Store, keys: seq<string>, c: Codec, locale: int -> string): seq<ApiEvent>
    requires forall i :: 0 <= i < |keys| ==> Decodes(st, keys[i], c)
  {
    seq(|keys|, i requires 0 <= i < |keys| => View(RecordAt(st, keys[i], c), locale))
  }

  /** Every readable key contributes its record. */
  lemma ReadableContents(st: Store, listing: seq<string>, c: Codec, locale: int -> string)
    ensures |Readable(st, listing, c, locale)| <= |listing|
    ensures forall j :: 0 <= j < |listing| && Decodes(st, listing[j], c) ==>
      View(RecordAt(st, listing[j], c), locale) in Readable(st, listing, c, locale)
  {
    var keys := DecodableKeys(st, listing, c);
    var r := Readable(st, listing, c, locale);
    forall j | 0 <= j < |listing| && Decodes(st, listing[j], c)
      ensures View(RecordAt(st, listing[j], c), locale) in r
    {
      var i :| 0 <= i < |keys| && keys[i] == listing[j];
      assert r[i] == View(RecordAt(st, listing[j], c), locale);
    }
  }

  /** Nothing else is read: each event comes from a readable key of the listing. */
  lemma ReadableOrigin(st: Store, listing: seq<string>, c: Codec, locale: int -> string, i: nat)
    requires i < |Readable(st, listing, c, locale)|
    ensures exists j ::
      && 0 <= j < |listing| && Decodes(st, listing[j], c)
      && Readable(st, listing, c, locale)[i] == View(RecordAt(st, listing[j], c), locale)
  {
    var keys := DecodableKeys(st, listing, c);
    assert keys[i] in listing && Decodes(st, keys[i], c);
    var j :| 0 <= j < |listing| && listing[j] == keys[i];
    assert Readable(st, listing, c, locale)[i] == View(RecordAt(st, listing[j], c), locale);
  }

  /** Reading distributes over concatenating listings. */
  lemma ReadableAppend(st: Store, a: seq<string>, b: seq<string>, c: Codec, locale: int -> string)
    ensures Readable(st, a + b, c, locale) == Readable(st, a, c, locale) + Readable(st, b, c, locale)
  {
    FilterConcat(a, b, k => Decodes(st, k, c));
    var ka, kb := DecodableKeys(st, a, c), DecodableKeys(st, b, c);
    assert DecodableKeys(st, a + b, c) == ka + kb;
    assert Views(st, ka + kb, c, locale) == Views(st, ka, c, locale) + Views(st, kb, c, locale);
  }

  /** A malformed or missing record is skipped without affecting the others. */
  lemma MalformedRecordSkipped(st: Store, listing: seq<string>, bad: string, c: Codec, locale: int -> string)
    requires !Decodes(st, bad, c)
    ensures Readable(st, listing + [bad], c, locale) == Readable(st, listing, c, locale)
  {
    ReadableAppend(st, listing, [bad], c, locale);
    assert [bad][1..] == [];
    assert Readable(st, [bad], c, locale) == [];
  }

  predicate NewestFirstOrder(s: seq<ApiEvent>)
  {
    forall i, j :: 0 <= i < j < |s| ==> s[i].event.startDate >= s[j].event.startDate
  }

  function LatestFirstKey(e: ApiEvent): int
  {
    -e.event.startDate
  }

  /** `sort` with the comparator `b.start - a.start`: a permutation, latest start first. */
  function NewestFirst(s: seq<ApiEvent>): (r: seq<ApiEvent>)
    ensures NewestFirstOrder(r)
    ensures multiset(r) == multiset(s)
  {
    var r := SortBy(s, LatestFirstKey);
    assert forall i, j :: 0 <= i < j < |r| ==> LatestFirstKey(r[i]) <= LatestFirstKey(r[j]);
    r
  }

  /**
   * `Array.prototype.sort` is stable: events with the same start time are
   * served in the order the listing produced them.
   */
  lemma NewestFirstKeepsTies(s: seq<ApiEvent>, start: int, p: ApiEvent -> bool)
    requires forall e :: p(e) == (e.event.startDate == start)
    ensures Filter(NewestFirst(s), p) == Filter(s, p)
  {
    SortByKeepsTies(s, LatestFirstKey, p, -start);
  }

  /**
   * One attempt of `getAllLumaEvents` at time `now`. When `down`, the store
   * is unreachable: the sync time reads as missing and listing keys throws.
   */
  function Load(cache: Cache, st: Store, listing: seq<string>, now: int, c: Codec, locale: int -> string, down: bool): (r: Result<LoadResult, StoreError>)
    ensures r.Failure? <==> down && !IsCacheValid(cache, now, None)
    ensures r.Success? ==> r.value.cache.Some?
    ensures r.Success? ==> (r.value.hit <==> IsCacheValid(cache, now, if down then None else CurrentSyncTime(st, c)))
    ensures r.Success? && r.value.hit ==> r.value.cache == cache && r.value.events == cache.value.events
    ensures r.Success? && !r.value.hit ==>
      r.value.cache == Some(CacheEntry(r.value.events, now, Present(CurrentSyncTime(st, c))))
      && NewestFirstOrder(r.value.events)
      && multiset(r.value.events) == multiset(Readable(st, listing, c, locale))
  {
    var current := if down then None else Present(CurrentSyncTime(st, c));
    if IsCacheValid(cache, now, current) then Success(LoadResult(cache, cache.value.events, true))
    else if down then Failure(StoreUnavailable)
    else if |listing| == 0 then Success(LoadResult(Some(CacheEntry([], now, current)), [], false))
    else
      var events := NewestFirst(Readable(st, listing, c, locale));
      Success(LoadResult(Some(CacheEntry(events, now, current)), events, false))
  }

  /** Time of attempt `i`: the request time plus the waits before it. */
  function AttemptTime(now: int, i: nat): int
  {
    now + Waited(i, RETRY_DELAY)
  }

  function Attempt(cache: Cache, st: Store, listing: seq<string>, now: int, c: Codec, locale: int -> string, down: nat -> bool): (op: nat -> Result<LoadResult, StoreError>)
    ensures forall i: nat :: op(i) == Load(cache, st, listing, AttemptTime(now, i), c, locale, down(i))
  {
    (i: nat) => Load(cache, st, listing, AttemptTime(now, i), c, locale, down(i))
  }

  /** Every attempt that could run failed. */
  predicate AllAttemptsFail(cache: Cache, now: int, down: nat -> bool)
  {
    forall i: nat :: i < MAX_RETRIES ==> down(i) && !IsCacheValid(cache, AttemptTime(now, i), None)
  }

  /**
   * `retryOperation` over the attempts: the successful load and the index of
   * its attempt, or `None` when all three attempts failed.
   */
  function Serve(cache: Cache, st: Store, listing: seq<string>, now: int, c: Codec, locale: int -> string, down: nat -> bool): (r: Option<(LoadResult, nat)>)
    ensures r.None? <==> AllAttemptsFail(cache, now, down)
    ensures r.Some? ==> r.value.1 < MAX_RETRIES
    ensures r.Some? ==> Load(cache, st, listing, AttemptTime(now, r.value.1), c, locale, down(r.value.1)) == Success(r.value.0)
    ensures r.Some? ==> forall j: nat :: j < r.value.1 ==> Load(cache, st, listing, AttemptTime(now, j), c, locale, down(j)).Failure?
  {
    var op := Attempt(cache, st, listing, now, c, locale, down);
    var out := RetryOperation(op, MAX_RETRIES, RETRY_DELAY);
    FailsIffEveryAttemptFails(op, MAX_RETRIES, RETRY_DELAY);
    AttemptsFail(cache, st, listing, now, c, locale, down);
    if out.result.Failure? then None else Some((out.result.value, out.attempts - 1))
  }

  /** An attempt fails exactly when the store is down and the cache is not valid. */
  lemma AttemptsFail(cache: Cache, st: Store, listing: seq<string>, now: int, c: Codec, locale: int -> string, down: nat -> bool)
    ensures var op := Attempt(cache, st, listing, now, c, locale, down);
      (forall i: nat :: i < MAX_RETRIES ==> op(i).Failure?) <==> AllAttemptsFail(cache, now, down)
  {
    var op := Attempt(cache, st, listing, now, c, locale, down);
    forall i: nat | i < MAX_RETRIES
      ensures op(i).Failure? <==> down(i) && !IsCacheValid(cache, AttemptTime(now, i), None)
    {
      assert op(i) == Load(cache, st, listing, AttemptTime(now, i), c, locale, down(i));
    }
  }

  /**
   * `GET /api/events` as written: up to three attempts one and two seconds
   * apart; a 500 when all fail; otherwise the events with their count, and
   * the cache flags recomputed from the cache after the load.
   */
  function GetEvents(cache: Cache, st: Store, listing: seq<string>, now: int, c: Codec, locale: int -> string, down: nat -> bool): (r: (Cache, Response))
    ensures r.1.ServerError? <==> AllAttemptsFail(cache, now, down)
    ensures r.1.ServerError? ==> r.0 == cache
    ensures r.1.Listed? ==> r.1.meta.total == |r.1.events| && r.0.Some? && r.0.value.events == r.1.events
    ensures r.1.Listed? || r.1.ServerError?
    ensures r.1.Listed? ==> var s := Serve(cache, st, listing, now, c, locale, down);
      s.Some? && r.0 == s.value.0.cache && r.1.events == s.value.0.events
    ensures r.1.Listed? ==> var s := Serve(cache, st, listing, now, c, locale, down);
      s.Some? && r.1.meta.cacheAge == AttemptTime(now, s.value.1) - s.value.0.cache.value.timestamp
    ensures r.1.Listed? ==> (r.1.meta.cached <==> r.1.cacheStatus == Hit)
  {
    match Serve(cache, st, listing, now, c, locale, down)
    case None => (cache, ServerError)
    case Some((l, k)) =>
      var t := AttemptTime(now, k);
      var cached := IsCacheValid(l.cache, t, None);
      (l.cache, Listed(l.events, Meta(|l.events|, cached, t - l.cache.value.timestamp), if cached then Hit else Miss))
  }

  /**
   * The as-written handler always reports a cache hit: the cache it inspects
   * was either just validated or just written at the same instant.
   */
  lemma GetAlwaysReportsHit(cache: Cache, st: Store, listing: seq<string>, now: int, c: Codec, locale: int -> string, down: nat -> bool)
    ensures var r := GetEvents(cache, st, listing, now, c, locale, down);
      r.1.Listed? ==> r.1.meta.cached && r.1.cacheStatus == Hit
  {
    var served := Serve(cache, st, listing, now, c, locale, down);
    if served.Some? {
      var (l, k) := served.value;
      assert IsCacheValid(l.cache, AttemptTime(now, k), None);
    }
  }

  /** The first request ever made, answered from the store, is still reported as a hit. */
  lemma FirstRequestReportedAsHit(st: Store, listing: seq<string>, now: int, c: Codec, locale: int -> string, down: nat -> bool)
    requires !down(0)
    ensures var r := GetEvents(None, st, listing, now, c, locale, down);
      r.1.Listed? && r.1.meta.cached && r.1.cacheStatus == Hit && r.1.meta.cacheAge == 0
  {
    assert !AllAttemptsFail(None, now, down);
    GetAlwaysReportsHit(None, st, listing, now, c, locale, down);
  }

  /** The intended handler: the flags say whether the successful attempt was served from the cache. */
  function GetEventsCorrected(cache: Cache, st: Store, listing: seq<string>, now: int, c: Codec, locale: int -> string, down: nat -> bool): (r: (Cache, Response))
    ensures r.1.ServerError? <==> AllAttemptsFail(cache, now, down)
    ensures r.1.ServerError? ==> r.0 == cache
    ensures r.1.Listed? ==> r.1.meta.total == |r.1.events| && r.0.Some? && r.0.value.events == r.1.events
    ensures r.1.Listed? || r.1.ServerError?
    ensures r.1.Listed? ==> var s := Serve(cache, st, listing, now, c, locale, down);
      s.Some? && r.0 == s.value.0.cache && r.1.events == s.value.0.events
    ensures r.1.Listed? ==> var s := Serve(cache, st, listing, now, c, locale, down);
      s.Some? && r.1.meta.cacheAge == AttemptTime(now, s.value.1) - s.value.0.cache.value.timestamp
    ensures r.1.Listed? ==> (r.1.meta.cached <==> r.1.cacheStatus == Hit)
  {
    match Serve(cache, st, listing, now, c, locale, down)
    case None => (cache, ServerError)
    case Some((l, k)) =>
      var t := AttemptTime(now, k);
      (l.cache, Listed(l.events, Meta(|l.events|, l.hit, t - l.cache.value.timestamp), if l.hit then Hit else Miss))
  }

  /**
   * When the first attempt reaches the store, the corrected handler reports a
   * hit exactly when the cache was valid for the current sync.
   */
  lemma CorrectedReportsHit(cache: Cache, st: Store, listing: seq<string>, now: int, c: Codec, locale: int -> string, down: nat -> bool)
    requires !down(0)
    ensures var r := GetEventsCorrected(cache, st, listing, now, c, locale, down);
      r.1.Listed? && (r.1.meta.cached <==> IsCacheValid(cache, now, CurrentSyncTime(st, c)))
  {
    assert !AllAttemptsFail(cache, now, down);
  }

  /** `clearCache`. */
  function ClearCache(): (r: Cache)
    ensures forall now, m :: !IsCacheValid(r, now, m)
  {
    None
  }

  /** After clearing, the next attempt goes to the store (or fails if it is down). */
  lemma ClearedCacheReloads(st: Store, listing: seq<string>, now: int, c: Codec, locale: int -> string, down: bool)
    ensures var r := Load(ClearCache(), st, listing, now, c, locale, down);
      (r.Failure? <==> down) && (r.Success? ==> !r.value.hit && r.value.cache.value.timestamp == now)
  {
  }

  /** `POST /api/events` is disabled whatever the request. */
  function PostEvents(request: string): (r: Response)
    ensures StatusCode(r) == 405
  {
    MethodNotAllowed
  }

  /**
   * A load from the store is served again, unchanged, by any attempt within
   * the next five minutes (the boundary included) while the sync time stays.
   */
  lemma ReloadWithinWindowHits(cache: Cache, st: Store, listing: seq<string>, listing': seq<string>, t: int, t': int, c: Codec, locale: int -> string, down': bool)
    requires t <= t' <= t + CACHE_DURATION
    requires Load(cache, st, listing, t, c, locale, false).Success?
    ensures var first := Load(cache, st, listing, t, c, locale, false).value;
      var second := Load(first.cache, st, listing', t', c, locale, down');
      !first.hit ==> second.Success? && second.value.hit && second.value.events == first.events
  {
  }

  /** A cache older than five minutes is never served. */
  lemma StaleCacheMisses(cache: Cache, st: Store, listing: seq<string>, now: int, c: Codec, locale: int -> string, down: bool)
    requires cache.Some? && now - cache.value.timestamp > CACHE_DURATION
    ensures var r := Load(cache, st, listing, now, c, locale, down);
      r.Success? ==> !r.value.hit && r.value.cache.value.timestamp == now
  {
  }

  /** A cache filled before a different sync is dropped, however young it is. */
  lemma NewSyncInvalidates(cache: Cache, st: Store, listing: seq<string>, now: int, c: Codec, locale: int -> string)
    requires cache.Some? && Present(cache.value.lastSyncTime).Some?
    requires Present(CurrentSyncTime(st, c)).Some?
    requires CurrentSyncTime(st, c) != cache.value.lastSyncTime
    ensures var r := Load(cache, st, listing, now, c, locale, false);
      r.Success? && !r.value.hit && r.value.cache.value.lastSyncTime == CurrentSyncTime(st, c)
  {
  }

  /** While the store is unreachable, a young cache is still served. */
  lemma YoungCacheSurvivesOutage(cache: Cache, st: Store, listing: seq<string>, now: int, c: Codec, locale: int -> string)
    requires cache.Some? && now - cache.value.timestamp <= CACHE_DURATION
    ensures var r := Load(cache, st, listing, now, c, locale, true);
      r.Success? && r.value.hit && r.value.events == cache.value.events
  {
  }

  /**
   * With `listing` the answer to `KEYS luma:event:*`, a load from the store
   * serves the record of every event key that parses.
   */
  lemma LoadServesEveryEventKey(cache: Cache, st: Store, listing: seq<string>, now: int, c: Codec, locale: int -> string, k: string)
    requires ListsEventKeys(st, listing)
    requires k in EventKeys(st) && Decodes(st, k, c)
    requires Load(cache, st, listing, now, c, locale, false).Success?
    requires !Load(cache, st, listing, now, c, locale, false).value.hit
    ensures View(RecordAt(st, k, c), locale) in Load(cache, st, listing, now, c, locale, false).value.events
  {
    var events := Load(cache, st, listing, now, c, locale, false).value.events;
    var j :| 0 <= j < |listing| && listing[j] == k;
    ReadableContents(st, listing, c, locale);
    var x := View(RecordAt(st, k, c), locale);
    assert x in multiset(Readable(st, listing, c, locale));
    assert x in multiset(events);
  }

  /** A successful sync stamps the statistics with its time, which the cache then compares. */
  lemma SyncSetsCurrentSyncTime(scraped: seq<Event>, st: Store, now: int, c: Codec, fault: nat -> LumaSync.WriteFault)
    requires StatsRoundTrip(c)
    requires LumaSync.EventKeysHoldStrings(st)
    ensures CurrentSyncTime(LumaSync.Sync(scraped, st, now, c, fault).value.store, c) == Some(c.iso(now))
  {
    var run := LumaSync.Sync(scraped, st, now, c, fault).value;
    assert c.decodeStats(c.encodeStats(run.stats)) == Some(run.stats);
  }

  /**
   * After a sync, the next load from a reachable store refills a cache that
   * was filled under another sync time, however young it is.
   */
  lemma SyncInvalidatesCache(scraped: seq<Event>, st: Store, now: int, c: Codec, fault: nat -> LumaSync.WriteFault,
                             cache: Cache, listing: seq<string>, t: int, locale: int -> string)
    requires StatsRoundTrip(c) && c.iso(now) != ""
    requires LumaSync.EventKeysHoldStrings(st)
    requires cache.Some? && Present(cache.value.lastSyncTime).Some? && cache.value.lastSyncTime != Some(c.iso(now))
    ensures var r := Load(cache, LumaSync.Sync(scraped, st, now, c, fault).value.store, listing, t, c, locale, false);
      r.Success? && !r.value.hit && r.value.cache.value.lastSyncTime == Some(c.iso(now))
  {
    SyncSetsCurrentSyncTime(scraped, st, now, c, fault);
    NewSyncInvalidates(cache, LumaSync.Sync(scraped, st, now, c, fault).value.store, listing, t, c, locale);
  }
}
