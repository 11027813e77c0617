/**
 * `POST /api/sync-events`: rewrites the legacy `events` set as the existing
 * records minus manual ones older than a day, followed by two new manual
 * records, and stamps `luma:last_sync`. `GET` reports the last and next sync.
 */
module ManualSync {
  import opened Wrappers
  import opened Strings
  import opened KeyValue
  import opened Events
  import opened Seqs
  import opened Legacy

  const UPDATE_TITLE := "Kaia Ecosystem Update"
  const UPDATE_DESCRIPTION := "Monthly ecosystem update covering new partnerships, technical developments, and community growth."
  const WORKSHOP_TITLE := "Kaia Builder Workshop"
  const WORKSHOP_DESCRIPTION := "Hands-on workshop for developers building on Kaia. Learn about smart contracts, DeFi protocols, and dApp development."
  /** "Online" and "Seoul", as the route writes them. */
  const ONLINE := "线上"
  const SEOUL := "首尔"

  /** The id of the `n`-th record created at `now`: `luma-manual-<now>-<n>`. */
  function ManualId(now: int, n: string): string
  {
    Join(["luma", "manual", IntToString(now), n], '-')
  }

  /** The two records every manual sync creates. */
  function ManualEvents(now: int, lc: LegacyCodec): (r: seq<LegacyEvent>)
    ensures |r| == 2
    ensures forall i :: 0 <= i < 2 ==> r[i].registrationLink == KAIA_CALENDAR && r[i].status == Upcoming
  {
    [ LegacyEvent(Some(ManualId(now, "1")), UPDATE_TITLE, lc.localeDate(now + 3 * DAY_MS), ONLINE,
                  UPDATE_DESCRIPTION, KAIA_CALENDAR, Upcoming, Some("manual-" + IntToString(now) + "-1")),
      LegacyEvent(Some(ManualId(now, "2")), WORKSHOP_TITLE, lc.localeDate(now + 10 * DAY_MS), SEOUL,
                  WORKSHOP_DESCRIPTION, KAIA_CALENDAR, Upcoming, Some("manual-" + IntToString(now) + "-2")) ]
  }

  /**
   * The retention filter: a record is kept unless its id mentions `manual`
   * and the third `-`-separated part of the id is not a time less than a day
   * before `now` (a missing or unparsable part reads as NaN, which drops it).
   */
  predicate Retained(e: LegacyEvent, now: int)
  {
    e.id.Some? && RetainedId(e.id.value, now)
  }

  predicate RetainedId(id: string, now: int)
  {
    !Contains(id, "manual") ||
      var parts := Split(id, '-');
      |parts| > 2 && ParseInt(parts[2]).Some? && now - ParseInt(parts[2]).value < DAY_MS
  }

  function Encoded(events: seq<LegacyEvent>, lc: LegacyCodec): (r: seq<string>)
    ensures |r| == |events|
    ensures forall i :: 0 <= i < |r| ==> r[i] == lc.encode(events[i])
  {
    seq(|events|, i requires 0 <= i < |events| => lc.encode(events[i]))
  }

  /** `ZADD (base + i) ms[i]` applied to the entries for each `i` from `from` on. */
  function ZAddAll(z: seq<Scored>, ms: seq<string>, base: int, from: nat): seq<Scored>
    requires from <= |ms|
    decreases |ms| - from
  {
    if from == |ms| then z else ZAddAll(ZAdd(z, ms[from], base + from), ms, base, from + 1)
  }

  /** After the pipeline the entries hold the old members and the added ones, and nothing else. */
  lemma {:induction false} ZAddAllMember(z: seq<Scored>, ms: seq<string>, base: int, from: nat, x: string)
    requires from <= |ms|
    ensures x in MemberList(ZAddAll(z, ms, base, from)) <==> x in MemberList(z) || x in ms[from..]
    decreases |ms| - from
  {
    if from < |ms| {
      var z' := ZAdd(z, ms[from], base + from);
      assert ZAddAll(z, ms, base, from) == ZAddAll(z', ms, base, from + 1);
      assert x in MemberList(z') <==> x in MemberList(z) || x == ms[from] by {
        ZAddMember(z, ms[from], base + from, x);
      }
      assert x in MemberList(ZAddAll(z', ms, base, from + 1)) <==> x in MemberList(z') || x in ms[from + 1..] by {
        ZAddAllMember(z', ms, base, from + 1, x);
      }
      assert x in ms[from..] <==> x == ms[from] || x in ms[from + 1..] by {
        assert ms[from..] == [ms[from]] + ms[from + 1..];
      }
    } else {
      assert ZAddAll(z, ms, base, from) == z && ms[from..] == [];
    }
  }

  /**
   * The pipeline of `ZADD key (base + i) ms[i]`: the key ends up holding
   * its old members and `ms`, and no other key changes.
   */
  function ZAddEach(st: Store, k: string, ms: seq<string>, base: int): (r: Store)
    requires Members(st, k).Some?
    ensures Members(r, k).Some?
    ensures forall x :: x in Members(r, k).value <==> x in Members(st, k).value || x in ms
    ensures forall k' :: k' != k ==> Get(r, k') == Get(st, k')
    ensures forall k' :: k' != k ==> SameKey(r, st, k')
    ensures r.ttl == st.ttl
    ensures |ms| > 0 ==> Entries(r, k) == ZAddAll(Entries(st, k), ms, base, 0)
  {
    if |ms| == 0 then st
    else
      assert MemberList(Entries(st, k)) == Members(st, k).value;
      forall x ensures x in MemberList(ZAddAll(Entries(st, k), ms, base, 0)) <==> x in MemberList(Entries(st, k)) || x in ms {
        ZAddAllMember(Entries(st, k), ms, base, 0, x);
      }
      assert ms[0..] == ms;
      Store(st.data[k := SortedSet(ZAddAll(Entries(st, k), ms, base, 0))], st.ttl)
  }

  datatype ManualFailure = EventsNotASortedSet | UnparsableMember | MissingId

  /** The response body: the new total, and the title and date of each new record. */
  datatype ManualResult = ManualResult(store: Store, totalEvents: nat, newEvents: seq<(string, string)>)

  /** The records parsed from the existing members, when all parse. */
  function Existing(st: Store, lc: LegacyCodec): Option<seq<LegacyEvent>>
  {
    match Members(st, EVENTS_KEY)
    case None => None
    case Some(existing) => DecodeAll(lc, existing)
  }

  /**
   * `DEL events`, one `ZADD` per record at score `now + index`, then `SET
   * luma:last_sync now`.
   */
  function Rewrite(st: Store, all: seq<LegacyEvent>, now: int, lc: LegacyCodec): (r: Store)
    ensures Members(r, EVENTS_KEY).Some?
    ensures forall x :: x in Members(r, EVENTS_KEY).value <==> x in Encoded(all, lc)
    ensures Get(r, LAST_SYNC_KEY) == Found(IntToString(now))
    ensures forall k :: k != EVENTS_KEY && k != LAST_SYNC_KEY ==> Get(r, k) == Get(st, k)
    ensures forall k :: k != EVENTS_KEY && k != LAST_SYNC_KEY ==> SameKey(r, st, k)
    ensures EVENTS_KEY !in r.ttl && LAST_SYNC_KEY !in r.ttl
  {
    var ms := Encoded(all, lc);
    var cleared := Delete(st, {EVENTS_KEY});
    assert Members(cleared, EVENTS_KEY) == Some([]);
    var stored := ZAddEach(cleared, EVENTS_KEY, ms, now);
    DeleteFrame(st, {EVENTS_KEY});
    SetFrame(stored, LAST_SYNC_KEY, IntToString(now));
    Set(stored, LAST_SYNC_KEY, IntToString(now))
  }

  /** `POST`: any failure is reported as a 500 and leaves the store as it was. */
  function PostSync(st: Store, now: int, lc: LegacyCodec): (r: Result<ManualResult, ManualFailure>)
    ensures Members(st, EVENTS_KEY).None? ==> r == Failure(EventsNotASortedSet)
    ensures Members(st, EVENTS_KEY).Some? && Existing(st, lc).None? ==> r == Failure(UnparsableMember)
    ensures Existing(st, lc).Some? ==>
      (r == Failure(MissingId) <==> exists i :: 0 <= i < |Existing(st, lc).value| && Existing(st, lc).value[i].id.None?)
    ensures r.Success? ==> Existing(st, lc).Some? && Members(r.value.store, EVENTS_KEY).Some?
    ensures r.Success? ==> r.value.totalEvents == |Filter(Existing(st, lc).value, e => Retained(e, now))| + 2
    ensures r.Success? ==> forall x :: x in Members(r.value.store, EVENTS_KEY).value <==>
      x in Encoded(Filter(Existing(st, lc).value, e => Retained(e, now)) + ManualEvents(now, lc), lc)
    ensures r.Success? ==> Get(r.value.store, LAST_SYNC_KEY) == Found(IntToString(now))
    ensures r.Success? ==> forall k :: k != EVENTS_KEY && k != LAST_SYNC_KEY ==> Get(r.value.store, k) == Get(st, k)
    ensures r.Success? ==> forall k :: k != EVENTS_KEY && k != LAST_SYNC_KEY ==> SameKey(r.value.store, st, k)
    ensures r.Success? ==> EVENTS_KEY !in r.value.store.ttl && LAST_SYNC_KEY !in r.value.store.ttl
    ensures r.Success? ==> |r.value.newEvents| == 2
  {
    match Existing(st, lc)
    case None => if Members(st, EVENTS_KEY).None? then Failure(EventsNotASortedSet) else Failure(UnparsableMember)
    case Some(events) =>
      if exists i :: 0 <= i < |events| && events[i].id.None? then Failure(MissingId)
      else
        var kept := Filter(events, e => Retained(e, now));
        var created := ManualEvents(now, lc);
        Success(ManualResult(
          Rewrite(st, kept + created, now, lc),
          |kept| + |created|,
          [(created[0].title, created[0].date), (created[1].title, created[1].date)]))
  }

  /** Everything kept or created is stored, and nothing else. */
  lemma StoredRecords(st: Store, now: int, lc: LegacyCodec, e: LegacyEvent)
    requires PostSync(st, now, lc).Success?
    ensures var stored := Members(PostSync(st, now, lc).value.store, EVENTS_KEY).value;
      (e in Existing(st, lc).value && Retained(e, now) ==> lc.encode(e) in stored)
      && (e in ManualEvents(now, lc) ==> lc.encode(e) in stored)
  {
    var kept := Filter(Existing(st, lc).value, e => Retained(e, now));
    var all := kept + ManualEvents(now, lc);
    if e in all {
      var i :| 0 <= i < |all| && all[i] == e;
      assert Encoded(all, lc)[i] == lc.encode(e);
    }
  }

  /** The id of a record created at a non-negative time splits into `luma`, `manual`, the time, and the suffix. */
  lemma ManualIdParts(t: int, n: string)
    requires t >= 0 && '-' !in n
    ensures Split(ManualId(t, n), '-') == ["luma", "manual", IntToString(t), n]
  {
    var parts := ["luma", "manual", IntToString(t), n];
    NatToStringShape(t);
    assert forall i :: 0 <= i < |parts| ==> '-' !in parts[i] by {
      assert '-' !in parts[2];
    }
    SplitJoin(parts, '-');
  }

  /** Every manual id mentions `manual`. */
  lemma ManualIdMentionsManual(t: int, n: string)
    ensures Contains(ManualId(t, n), "manual")
  {
    var parts := ["luma", "manual", IntToString(t), n];
    var tail := ['-'] + Join(parts[2..], '-');
    assert parts[1..][1..] == parts[2..];
    assert Join(parts[1..], '-') == "manual" + tail;
    assert ManualId(t, n) == ("luma" + ['-']) + "manual" + tail;
    ContainsMiddle("luma" + ['-'], "manual", tail);
  }

  /**
   * A record a manual sync created at `t` survives a later manual sync at
   * `later` exactly when less than a day has passed.
   */
  lemma ManualRetentionWindow(t: int, later: int, lc: LegacyCodec, j: nat)
    requires t >= 0 && j < 2
    ensures Retained(ManualEvents(t, lc)[j], later) <==> later - t < DAY_MS
  {
    var n := if j == 0 then "1" else "2";
    assert ManualEvents(t, lc)[j].id == Some(ManualId(t, n));
    ManualIdWindow(t, later, n);
  }

  lemma ManualIdWindow(t: int, later: int, n: string)
    requires t >= 0 && '-' !in n
    ensures RetainedId(ManualId(t, n), later) <==> later - t < DAY_MS
  {
    ManualIdParts(t, n);
    ManualIdMentionsManual(t, n);
    ParseIntRoundTrip(t);
    assert Split(ManualId(t, n), '-')[2] == IntToString(t);
  }

  /**
   * Under an injective encoding, a record the filter drops is gone from the
   * set after the sync.
   */
  lemma DroppedRecordGone(st: Store, now: int, lc: LegacyCodec, e: LegacyEvent)
    requires forall a, b :: lc.encode(a) == lc.encode(b) ==> a == b
    requires now >= 0
    requires PostSync(st, now, lc).Success?
    requires e in Existing(st, lc).value && !Retained(e, now)
    ensures lc.encode(e) !in Members(PostSync(st, now, lc).value.store, EVENTS_KEY).value
  {
    var kept := Filter(Existing(st, lc).value, e => Retained(e, now));
    var all := kept + ManualEvents(now, lc);
    if lc.encode(e) in Encoded(all, lc) {
      var i :| 0 <= i < |all| && Encoded(all, lc)[i] == lc.encode(e);
      assert all[i] == e;
      if i >= |kept| {
        ManualRetentionWindow(now, now, lc, i - |kept|);
      }
    }
  }

  /** Entries `base + i` for the first `n` members. */
  function Scores(ms: seq<string>, base: int, n: nat): (r: seq<Scored>)
    requires n <= |ms|
    ensures |r| == n
  {
    seq(n, i requires 0 <= i < n => Scored(ms[i], base + i))
  }

  predicate Distinct(ms: seq<string>)
  {
    forall i, j :: 0 <= i < j < |ms| ==> ms[i] != ms[j]
  }

  /** Adding the next distinct member at the next score extends the prefix by one. */
  lemma ScoresStep(ms: seq<string>, base: int, from: nat)
    requires Distinct(ms) && from < |ms|
    ensures ZAdd(Scores(ms, base, from), ms[from], base + from) == Scores(ms, base, from + 1)
  {
    var z := Scores(ms, base, from);
    forall i | 0 <= i < |z| ensures MemberList(z)[i] != ms[from] {
      assert MemberList(z)[i] == ms[i];
    }
    ZAddAbove(z, ms[from], base + from);
    assert z + [Scored(ms[from], base + from)] == Scores(ms, base, from + 1);
  }

  /** With distinct members, the pipeline leaves them in order at scores `base`, `base + 1`, ... */
  lemma {:induction false} ZAddAllInOrder(ms: seq<string>, base: int, from: nat)
    requires Distinct(ms) && from <= |ms|
    ensures ZAddAll(Scores(ms, base, from), ms, base, from) == Scores(ms, base, |ms|)
    decreases |ms| - from
  {
    if from < |ms| {
      ScoresStep(ms, base, from);
      ZAddAllInOrder(ms, base, from + 1);
    }
  }

  /**
   * When the records to store encode distinctly, the set holds exactly the
   * kept records in their original order followed by the new ones, the
   * record at position `i` scored `now + i`.
   */
  lemma RewriteInOrder(st: Store, all: seq<LegacyEvent>, now: int, lc: LegacyCodec)
    requires Distinct(Encoded(all, lc))
    ensures Entries(Rewrite(st, all, now, lc), EVENTS_KEY) == Scores(Encoded(all, lc), now, |all|)
  {
    var cleared := Delete(st, {EVENTS_KEY});
    assert Entries(cleared, EVENTS_KEY) == [] == Scores(Encoded(all, lc), now, 0);
    ZAddAllInOrder(Encoded(all, lc), now, 0);
  }

  /** `GET`: the last and next sync times (`None` when unset, `Some(None)` for NaN) and the record count. */
  datatype SyncStatus = SyncStatus(lastSync: Option<Option<int>>, eventCount: nat, nextScheduledSync: Option<Option<int>>)

  /** A `luma:last_sync` or `events` key of the wrong type makes the reads throw: a 500. */
  function GetStatus(st: Store): (r: Option<SyncStatus>)
    ensures r.None? <==> Get(st, LAST_SYNC_KEY).WrongType? || Members(st, EVENTS_KEY).None?
    ensures r.Some? ==> r.value.eventCount == |Members(st, EVENTS_KEY).value|
    ensures r.Some? ==> (r.value.lastSync.None? <==> !Truthy(Get(st, LAST_SYNC_KEY)))
    ensures r.Some? ==> (r.value.nextScheduledSync.None? <==> r.value.lastSync.None?)
    ensures r.Some? && r.value.lastSync.Some? ==>
      r.value.lastSync.value == ParseInt(Get(st, LAST_SYNC_KEY).text)
      && (r.value.lastSync.value.Some? <==> r.value.nextScheduledSync.value.Some?)
      && (r.value.lastSync.value.Some? ==> r.value.nextScheduledSync.value.value == r.value.lastSync.value.value + SYNC_INTERVAL)
  {
    var raw := Get(st, LAST_SYNC_KEY);
    if raw.WrongType? then None
    else match ZCard(st, EVENTS_KEY)
      case None => None
      case Some(count) =>
        if !Truthy(raw) then Some(SyncStatus(None, count, None))
        else
          var last := ParseInt(raw.text);
          Some(SyncStatus(Some(last), count, Some(if last.Some? then Some(last.value + SYNC_INTERVAL) else None)))
  }

  /** A store stamped at `now` reports that time and the next sync six hours on. */
  lemma StatusOfStamp(st: Store, now: int)
    requires Get(st, LAST_SYNC_KEY) == Found(IntToString(now)) && Members(st, EVENTS_KEY).Some?
    ensures var status := GetStatus(st);
      status.Some? && status.value.lastSync == Some(Some(now))
      && status.value.nextScheduledSync == Some(Some(now + SYNC_INTERVAL))
  {
    ParseIntRoundTrip(now);
    IntToStringNonEmpty(now);
  }

  /** Right after a manual sync at `now`, the status reports that time and the next sync six hours on. */
  lemma StatusAfterSync(st: Store, now: int, lc: LegacyCodec)
    requires PostSync(st, now, lc).Success?
    ensures var status := GetStatus(PostSync(st, now, lc).value.store);
      status.Some? && status.value.lastSync == Some(Some(now))
      && status.value.nextScheduledSync == Some(Some(now + SYNC_INTERVAL))
  {
    StatusOfStamp(PostSync(st, now, lc).value.store, now);
  }
}
