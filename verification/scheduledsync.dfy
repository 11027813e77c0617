/**
 * The scheduled job: sync when more than six hours have passed since
 * `luma:last_sync`, where syncing adds one community-call record to the
 * legacy `events` set and stamps `luma:last_sync` with the current time.
 */
module ScheduledSync {
  import opened Wrappers
  import opened Strings
  import opened KeyValue
  import opened Events
  import opened Legacy

  const WEEK_MS: int := 7 * DAY_MS
  const CALL_TITLE := "Kaia Weekly Community Call"
  const CALL_DESCRIPTION := "Weekly community call to discuss Kaia ecosystem updates and community initiatives."

  /**
   * `getLastSyncTime`: 0 when the key is missing or empty or the read
   * throws; otherwise `parseInt` of the value, `None` standing for NaN.
   */
  function LastSyncMs(st: Store): (r: Option<int>)
    ensures !Truthy(Get(st, LAST_SYNC_KEY)) ==> r == Some(0)
    ensures Truthy(Get(st, LAST_SYNC_KEY)) ==> r == ParseInt(Get(st, LAST_SYNC_KEY).text)
  {
    match Get(st, LAST_SYNC_KEY)
    case Found(s) => if s == "" then Some(0) else ParseInt(s)
    case _ => Some(0)
  }

  /** `(now - lastSync) > syncInterval`; any comparison with NaN is false. */
  predicate ShouldSync(st: Store, now: int)
  {
    var last := LastSyncMs(st);
    last.Some? && now - last.value > SYNC_INTERVAL
  }

  /** The one record a scheduled run adds. */
  function ScheduledEvent(now: int, lc: LegacyCodec): LegacyEvent
  {
    LegacyEvent(
      Some("luma-scheduled-" + IntToString(now)),
      CALL_TITLE,
      lc.localeDate(now + WEEK_MS),
      "Zoom",
      CALL_DESCRIPTION,
      KAIA_CALENDAR,
      Upcoming,
      Some("scheduled-" + IntToString(now)))
  }

  datatype SyncFailure = EventsNotASortedSet | UnparsableMember

  /**
   * `performSync`: reads and parses the existing members (failing when
   * either throws, though their values are unused), adds the new record at
   * score `now`, then stamps `luma:last_sync`.
   */
  function PerformSync(st: Store, now: int, lc: LegacyCodec): (r: Result<Store, SyncFailure>)
    ensures Members(st, EVENTS_KEY).None? ==> r == Failure(EventsNotASortedSet)
    ensures Members(st, EVENTS_KEY).Some? ==>
      (r.Failure? <==> DecodeAll(lc, Members(st, EVENTS_KEY).value).None?)
    ensures r.Success? ==> Get(r.value, LAST_SYNC_KEY) == Found(IntToString(now))
    ensures r.Success? ==> (Members(r.value, EVENTS_KEY).Some?
      && lc.encode(ScheduledEvent(now, lc)) in Members(r.value, EVENTS_KEY).value)
    ensures r.Success? ==> forall k :: k != EVENTS_KEY && k != LAST_SYNC_KEY ==> Get(r.value, k) == Get(st, k)
    ensures r.Success? ==> forall k :: k != EVENTS_KEY && k != LAST_SYNC_KEY ==> SameKey(r.value, st, k)
    ensures r.Success? ==> SameExpiry(r.value, st, EVENTS_KEY) && LAST_SYNC_KEY !in r.value.ttl
  {
    match Members(st, EVENTS_KEY)
    case None => Failure(EventsNotASortedSet)
    case Some(existing) =>
      if DecodeAll(lc, existing).None? then Failure(UnparsableMember)
      else
        var added := ZAddKey(st, EVENTS_KEY, lc.encode(ScheduledEvent(now, lc)), now);
        SetFrame(added, LAST_SYNC_KEY, IntToString(now));
        Success(Set(added, LAST_SYNC_KEY, IntToString(now)))
  }

  datatype Outcome = Synced(store: Store) | Waiting(nextSync: Option<int>) | Failed(reason: SyncFailure)

  /** The process exit status. */
  function ExitCode(o: Outcome): nat
  {
    if o.Failed? then 1 else 0
  }

  /**
   * `scheduledSync`: sync when due, otherwise report `lastSync + 6 h`
   * (`None` when the stored value is NaN) and leave the store alone.
   */
  function RunScheduledSync(st: Store, now: int, lc: LegacyCodec): (r: Outcome)
    ensures r.Waiting? <==> !ShouldSync(st, now)
    ensures r.Waiting? ==> r.nextSync == (if LastSyncMs(st).Some? then Some(LastSyncMs(st).value + SYNC_INTERVAL) else None)
    ensures r.Synced? ==> PerformSync(st, now, lc) == Success(r.store)
    ensures r.Failed? ==> PerformSync(st, now, lc) == Failure(r.reason)
  {
    if ShouldSync(st, now) then
      match PerformSync(st, now, lc)
      case Success(st') => Synced(st')
      case Failure(e) => Failed(e)
    else
      var last := LastSyncMs(st);
      Waiting(if last.Some? then Some(last.value + SYNC_INTERVAL) else None)
  }

  /** After a sync at `now`, the job stays idle until six hours have passed, and then syncs. */
  lemma RecheckAfterSync(st: Store, now: int, later: int, lc: LegacyCodec)
    requires PerformSync(st, now, lc).Success?
    ensures var st' := PerformSync(st, now, lc).value;
      LastSyncMs(st') == Some(now) && (ShouldSync(st', later) <==> later - now > SYNC_INTERVAL)
  {
    var st' := PerformSync(st, now, lc).value;
    ParseIntRoundTrip(now);
    IntToStringNonEmpty(now);
  }

  /** A stored value `parseInt` cannot read (NaN) stops the job from ever syncing. */
  lemma UnparsableNeverSyncs(st: Store, now: int, lc: LegacyCodec)
    requires Truthy(Get(st, LAST_SYNC_KEY)) && ParseInt(Get(st, LAST_SYNC_KEY).text).None?
    ensures RunScheduledSync(st, now, lc) == Waiting(None)
  {
  }

  /** With no stored time the job syncs as soon as the clock is past six hours after the epoch. */
  lemma MissingTimeSyncs(st: Store, now: int, lc: LegacyCodec)
    requires !Truthy(Get(st, LAST_SYNC_KEY))
    ensures RunScheduledSync(st, now, lc).Waiting? <==> now <= SYNC_INTERVAL
  {
  }

  /** A sync adds exactly one member when its record is new, and drops none. */
  lemma PerformSyncAddsOne(st: Store, now: int, lc: LegacyCodec)
    requires PerformSync(st, now, lc).Success?
    requires lc.encode(ScheduledEvent(now, lc)) !in Members(st, EVENTS_KEY).value
    ensures var after := Members(PerformSync(st, now, lc).value, EVENTS_KEY).value;
      |after| == |Members(st, EVENTS_KEY).value| + 1
      && forall m :: m in Members(st, EVENTS_KEY).value ==> m in after
  {
    var m := lc.encode(ScheduledEvent(now, lc));
    assert Members(PerformSync(st, now, lc).value, EVENTS_KEY) == Members(ZAddKey(st, EVENTS_KEY, m, now), EVENTS_KEY);
  }
}
