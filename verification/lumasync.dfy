/**
 * `syncLumaEvents`: choose the candidates (the scrape, or the fallback set
 * when the scrape is empty), drop those whose registration link is already
 * stored, write the rest under a key derived from the link with a 30-day
 * expiry, then rewrite the key index and the sync statistics.
 */
module LumaSync {
  import opened Wrappers
  import opened KeyValue
  import opened Events
  import opened Seqs
  import opened LumaScraper

  const TTL_SECONDS: nat := 30 * 24 * 60 * 60
  const SYNC_SOURCE := "luma_page"

  /** How the writes of one new event fare: `SET` throws, or `EXPIRE` throws after it. */
  datatype WriteFault = NoFault | SetFails | ExpireFails

  datatype Written = Written(store: Store, synced: nat)

  datatype SyncRun = SyncRun(store: Store, stats: SyncStats, newEvents: seq<Event>)

  /** `GET` on a `luma:event:*` key holding a sorted set throws outside any handler. */
  datatype SyncError = EventKeyNotAString

  /** The scrape, or the fallback set when the scrape found nothing. */
  function Candidates(scraped: seq<Event>, now: int): (r: seq<Event>)
    ensures |r| > 0
    ensures |scraped| > 0 ==> r == scraped
    ensures |scraped| == 0 ==> r == Fallback(now)
  {
    if |scraped| == 0 then Fallback(now) else scraped
  }

  /** The links of the stored records that decode; the others contribute nothing. */
  function KnownLinks(st: Store, c: Codec): set<string>
  {
    set k | k in EventKeys(st) && Decodes(st, k, c) :: RecordAt(st, k, c).registrationLink
  }

  function LinksOf(events: seq<Event>): set<string>
  {
    set i | 0 <= i < |events| :: events[i].registrationLink
  }

  /** The candidates whose link is not known, in their original order. */
  function Unknown(cands: seq<Event>, known: set<string>): (r: seq<Event>)
    ensures forall i :: 0 <= i < |r| ==> r[i] in cands && r[i].registrationLink !in known
    ensures forall i :: 0 <= i < |cands| && cands[i].registrationLink !in known ==> cands[i] in r
  {
    Filter(cands, (e: Event) => e.registrationLink !in known)
  }

  function FaultsOf(fault: nat -> WriteFault, from: nat, n: nat): seq<WriteFault>
  {
    seq(n, j requires 0 <= j < n => fault(from + j))
  }

  function KeysFor(c: Codec, events: seq<Event>): set<string>
  {
    set i | 0 <= i < |events| :: KeyFor(c, events[i].registrationLink)
  }

  /** Writes of one new event: `SET`, then `EXPIRE` for 30 days; a throw skips the event. */
  function WriteOne(st: Store, e: Event, f: WriteFault, c: Codec): Store
  {
    var key := KeyFor(c, e.registrationLink);
    match f
    case NoFault => Expire(Set(st, key, c.encodeEvent(e)), key, TTL_SECONDS)
    case SetFails => st
    case ExpireFails => Set(st, key, c.encodeEvent(e))
  }

  /**
   * The write loop over the new events; event `j` meets fault `fault(from + j)`.
   * Only fully written events are counted.
   */
  function WriteAll(st: Store, events: seq<Event>, from: nat, fault: nat -> WriteFault, c: Codec): (w: Written)
    ensures w.synced == multiset(FaultsOf(fault, from, |events|))[NoFault]
    ensures w.synced <= |events|
    decreases |events|
  {
    if |events| == 0 then Written(st, 0)
    else
      var rest := WriteAll(WriteOne(st, events[0], fault(from), c), events[1..], from + 1, fault, c);
      assert FaultsOf(fault, from, |events|) == [fault(from)] + FaultsOf(fault, from + 1, |events| - 1);
      Written(rest.store, (if fault(from) == NoFault then 1 else 0) + rest.synced)
  }

  predicate AllWritten(fault: nat -> WriteFault, from: nat, n: nat)
  {
    forall j :: from <= j < from + n ==> fault(j) == NoFault
  }

  lemma KeysForCons(c: Codec, events: seq<Event>)
    requires |events| > 0
    ensures KeysFor(c, events) == {KeyFor(c, events[0].registrationLink)} + KeysFor(c, events[1..])
  {
    forall k | k in KeysFor(c, events)
      ensures k in {KeyFor(c, events[0].registrationLink)} + KeysFor(c, events[1..])
    {
      var i :| 0 <= i < |events| && k == KeyFor(c, events[i].registrationLink);
      if i > 0 {
        assert events[1..][i - 1] == events[i];
      }
    }
    forall k | k in KeysFor(c, events[1..])
      ensures k in KeysFor(c, events)
    {
      var i :| 0 <= i < |events| - 1 && k == KeyFor(c, events[1..][i].registrationLink);
      assert events[1..][i] == events[i + 1];
    }
  }

  /**
   * Nothing but the derived keys changes; a derived key ends up unchanged or
   * holding the encoding of an event whose link derives it.
   */
  lemma {:induction false} WriteAllFrame(st: Store, events: seq<Event>, from: nat, fault: nat -> WriteFault, c: Codec)
    ensures var w := WriteAll(st, events, from, fault, c);
      && (forall k :: k in st.data && k !in KeysFor(c, events) ==> k in w.store.data && w.store.data[k] == st.data[k])
      && (forall k :: k in w.store.data ==>
           (k in st.data && w.store.data[k] == st.data[k])
           || (exists e :: e in events && KeyFor(c, e.registrationLink) == k && w.store.data[k] == Text(c.encodeEvent(e))))
    decreases |events|
  {
    if |events| > 0 {
      var st1 := WriteOne(st, events[0], fault(from), c);
      WriteAllFrame(st1, events[1..], from + 1, fault, c);
      KeysForCons(c, events);
      assert forall x :: x in events[1..] ==> x in events;
    }
  }

  /** Expiry: a derived key that gets one gets 30 days; every key gets one when no write throws. */
  lemma {:induction false} WriteAllTtl(st: Store, events: seq<Event>, from: nat, fault: nat -> WriteFault, c: Codec)
    ensures var w := WriteAll(st, events, from, fault, c);
      && (forall k :: k in st.ttl && k !in KeysFor(c, events) ==> k in w.store.ttl && w.store.ttl[k] == st.ttl[k])
      && (forall k :: k in w.store.ttl ==>
           (k in st.ttl && w.store.ttl[k] == st.ttl[k]) || (k in KeysFor(c, events) && w.store.ttl[k] == TTL_SECONDS))
      && (AllWritten(fault, from, |events|) ==>
           forall k :: k in KeysFor(c, events) ==> k in w.store.ttl && w.store.ttl[k] == TTL_SECONDS)
    decreases |events|
  {
    if |events| > 0 {
      var st1 := WriteOne(st, events[0], fault(from), c);
      WriteAllTtl(st1, events[1..], from + 1, fault, c);
      KeysForCons(c, events);
    }
  }

  /** The closing writes: the key index, then the statistics record. */
  function Commit(w: Written, now: int, c: Codec): (r: (Store, SyncStats))
    ensures EventKeys(r.0) == EventKeys(w.store)
    ensures forall k :: k in EventKeys(w.store) ==> Get(r.0, k) == Get(w.store, k)
    ensures r.1 == SyncStats(c.iso(now), |EventKeys(w.store)|, w.synced, SYNC_SOURCE)
    ensures Get(r.0, STATS_KEY) == Found(c.encodeStats(r.1))
    ensures Get(r.0, INDEX_KEY) == Found(c.encodeIndex(EventKeys(r.0)))
  {
    var keys := EventKeys(w.store);
    var stats := SyncStats(c.iso(now), |keys|, w.synced, SYNC_SOURCE);
    var st1 := Set(w.store, INDEX_KEY, c.encodeIndex(keys));
    var st2 := Set(st1, STATS_KEY, c.encodeStats(stats));
    PortalKeysAreNotEventKeys();
    SetOtherKeepsEventKeys(w.store, INDEX_KEY, c.encodeIndex(keys));
    SetOtherKeepsEventKeys(st1, STATS_KEY, c.encodeStats(stats));
    (st2, stats)
  }

  /** No event key holds a sorted set, so reading each one for its link cannot throw. */
  predicate EventKeysHoldStrings(st: Store)
  {
    forall k :: k in EventKeys(st) ==> !Get(st, k).WrongType?
  }

  /** The result of one run of `syncLumaEvents` at time `now`. */
  function Sync(scraped: seq<Event>, st: Store, now: int, c: Codec, fault: nat -> WriteFault): (r: Result<SyncRun, SyncError>)
    ensures r.Failure? <==> !EventKeysHoldStrings(st)
    ensures r.Success? ==>
      var run := r.value;
      var cands := Candidates(scraped, now);
      && (forall i :: 0 <= i < |run.newEvents| ==> run.newEvents[i] in cands && run.newEvents[i].registrationLink !in KnownLinks(st, c))
      && (forall i :: 0 <= i < |cands| && cands[i].registrationLink !in KnownLinks(st, c) ==> cands[i] in run.newEvents)
      && run.stats.syncSource == SYNC_SOURCE
      && run.stats.lastSync == c.iso(now)
      && run.stats.newEventsAdded <= |run.newEvents|
      && (AllWritten(fault, 0, |run.newEvents|) ==> run.stats.newEventsAdded == |run.newEvents|)
      && run.stats.totalEvents == |EventKeys(run.store)|
      && Get(run.store, STATS_KEY) == Found(c.encodeStats(run.stats))
      && Get(run.store, INDEX_KEY) == Found(c.encodeIndex(EventKeys(run.store)))
  {
    if !EventKeysHoldStrings(st) then Failure(EventKeyNotAString)
    else
      var added := Unknown(Candidates(scraped, now), KnownLinks(st, c));
      var w := WriteAll(st, added, 0, fault, c);
      assert AllWritten(fault, 0, |added|) ==> FaultsOf(fault, 0, |added|) == seq(|added|, j => NoFault);
      CountAllNoFault(|added|);
      var done := Commit(w, now, c);
      Success(SyncRun(done.0, done.1, added))
  }

  /** The store a successful run leaves, spelled out stage by stage. */
  lemma SyncStages(scraped: seq<Event>, st: Store, now: int, c: Codec, fault: nat -> WriteFault)
    requires EventKeysHoldStrings(st)
    ensures var added := Unknown(Candidates(scraped, now), KnownLinks(st, c));
      var run := Sync(scraped, st, now, c, fault).value;
      && run.newEvents == added
      && run.store == Commit(WriteAll(st, added, 0, fault, c), now, c).0
      && run.stats == Commit(WriteAll(st, added, 0, fault, c), now, c).1
      && run.stats.newEventsAdded == WriteAll(st, added, 0, fault, c).synced
      && run.stats.newEventsAdded == multiset(FaultsOf(fault, 0, |added|))[NoFault]
  {
  }

  lemma CountAllNoFault(n: nat)
    ensures multiset(seq(n, j => NoFault))[NoFault] == n
  {
    if n > 0 {
      assert seq(n, j => NoFault) == seq(n - 1, j => NoFault) + [NoFault];
      CountAllNoFault(n - 1);
    }
  }

  // ---------------------------------------------------------------------------
  // De-duplication across runs

  /**
   * The hypothesis under which writes lose no link: no two candidate links
   * derive the same key, and a candidate's key holds no record of another
   * link. The key derivation strips characters from base64, so this is an
   * assumption about the inputs, not a property of the derivation.
   */
  ghost predicate CollisionFree(st: Store, c: Codec, cands: seq<Event>)
  {
    && (forall a, b :: a in cands && b in cands && KeyFor(c, a.registrationLink) == KeyFor(c, b.registrationLink)
         ==> a.registrationLink == b.registrationLink)
    && (forall a :: a in cands && Decodes(st, KeyFor(c, a.registrationLink), c)
         ==> RecordAt(st, KeyFor(c, a.registrationLink), c).registrationLink == a.registrationLink)
  }

  /** Known links depend only on the event keys and what they hold. */
  lemma KnownLinksOfSameRecords(st: Store, st': Store, c: Codec)
    requires EventKeys(st) == EventKeys(st')
    requires forall k :: k in EventKeys(st) ==> Get(st, k) == Get(st', k)
    ensures KnownLinks(st, c) == KnownLinks(st', c)
  {
    forall l | l in KnownLinks(st, c)
      ensures l in KnownLinks(st', c)
    {
      var k :| k in EventKeys(st) && Decodes(st, k, c) && RecordAt(st, k, c).registrationLink == l;
      assert Decodes(st', k, c) && RecordAt(st', k, c) == RecordAt(st, k, c);
    }
    forall l | l in KnownLinks(st', c)
      ensures l in KnownLinks(st, c)
    {
      var k :| k in EventKeys(st') && Decodes(st', k, c) && RecordAt(st', k, c).registrationLink == l;
      assert Decodes(st, k, c) && RecordAt(st', k, c) == RecordAt(st, k, c);
    }
  }

  /** Writing an event under its key keeps every known link and adds its own. */
  lemma WriteKeepsLinks(st: Store, e: Event, c: Codec)
    requires EventRoundTrip(c)
    requires Decodes(st, KeyFor(c, e.registrationLink), c) ==> RecordAt(st, KeyFor(c, e.registrationLink), c).registrationLink == e.registrationLink
    ensures KnownLinks(st, c) + {e.registrationLink} <= KnownLinks(Set(st, KeyFor(c, e.registrationLink), c.encodeEvent(e)), c)
  {
    var key := KeyFor(c, e.registrationLink);
    var st1 := Set(st, key, c.encodeEvent(e));
    assert Decodes(st1, key, c) && RecordAt(st1, key, c) == e;
    forall l | l in KnownLinks(st, c)
      ensures l in KnownLinks(st1, c)
    {
      var k :| k in EventKeys(st) && Decodes(st, k, c) && RecordAt(st, k, c).registrationLink == l;
      if k != key {
        assert Get(st1, k) == Get(st, k);
        assert k in EventKeys(st1);
      }
    }
  }

  lemma CollisionFreeAfterWrite(st: Store, events: seq<Event>, f: WriteFault, c: Codec)
    requires EventRoundTrip(c)
    requires |events| > 0
    requires CollisionFree(st, c, events)
    ensures CollisionFree(WriteOne(st, events[0], f, c), c, events[1..])
  {
    var e := events[0];
    var key := KeyFor(c, e.registrationLink);
    var st1 := WriteOne(st, e, f, c);
    assert forall x :: x in events[1..] ==> x in events;
    forall a | a in events[1..] && Decodes(st1, KeyFor(c, a.registrationLink), c)
      ensures RecordAt(st1, KeyFor(c, a.registrationLink), c).registrationLink == a.registrationLink
    {
      var ka := KeyFor(c, a.registrationLink);
      if ka == key && f != SetFails {
        assert Get(st1, key) == Found(c.encodeEvent(e));
        assert a.registrationLink == e.registrationLink;
      } else {
        assert Get(st1, ka) == Get(st, ka);
      }
    }
  }

  lemma LinksOfCons(events: seq<Event>)
    requires |events| > 0
    ensures LinksOf(events) == {events[0].registrationLink} + LinksOf(events[1..])
  {
    forall l | l in LinksOf(events)
      ensures l in {events[0].registrationLink} + LinksOf(events[1..])
    {
      var i :| 0 <= i < |events| && events[i].registrationLink == l;
      if i > 0 {
        assert events[1..][i - 1] == events[i];
      }
    }
    forall l | l in LinksOf(events[1..])
      ensures l in LinksOf(events)
    {
      var i :| 0 <= i < |events| - 1 && events[1..][i].registrationLink == l;
      assert events[1..][i] == events[i + 1];
    }
  }

  /** Under collision freedom and without failed `SET`s, the loop loses no link and stores every new one. */
  lemma {:induction false} WriteAllKeepsLinks(st: Store, events: seq<Event>, from: nat, fault: nat -> WriteFault, c: Codec)
    requires EventRoundTrip(c)
    requires CollisionFree(st, c, events)
    requires forall j :: from <= j < from + |events| ==> fault(j) != SetFails
    ensures KnownLinks(st, c) + LinksOf(events) <= KnownLinks(WriteAll(st, events, from, fault, c).store, c)
    decreases |events|
  {
    if |events| > 0 {
      var e := events[0];
      var key := KeyFor(c, e.registrationLink);
      var st1 := WriteOne(st, e, fault(from), c);
      WriteKeepsLinks(st, e, c);
      if fault(from) == NoFault {
        KnownLinksOfSameRecords(st1, Set(st, key, c.encodeEvent(e)), c);
      }
      CollisionFreeAfterWrite(st, events, fault(from), c);
      WriteAllKeepsLinks(st1, events[1..], from + 1, fault, c);
      LinksOfCons(events);
    }
  }

  /** Every link known after the loop was known before or belongs to a written event. */
  lemma WriteAllAddsOnlyItsLinks(st: Store, events: seq<Event>, from: nat, fault: nat -> WriteFault, c: Codec)
    requires EventRoundTrip(c)
    ensures KnownLinks(WriteAll(st, events, from, fault, c).store, c) <= KnownLinks(st, c) + LinksOf(events)
  {
    var w := WriteAll(st, events, from, fault, c);
    WriteAllFrame(st, events, from, fault, c);
    forall l | l in KnownLinks(w.store, c)
      ensures l in KnownLinks(st, c) + LinksOf(events)
    {
      var k :| k in EventKeys(w.store) && Decodes(w.store, k, c) && RecordAt(w.store, k, c).registrationLink == l;
      if k in st.data && w.store.data[k] == st.data[k] {
        assert Get(w.store, k) == Get(st, k);
        assert k in EventKeys(st);
      } else {
        var e :| e in events && KeyFor(c, e.registrationLink) == k && w.store.data[k] == Text(c.encodeEvent(e));
        assert RecordAt(w.store, k, c) == e;
        var i :| 0 <= i < |events| && events[i] == e;
      }
    }
  }

  /** Every event key of the store after the loop holds a string, if every one did before. */
  lemma WriteAllKeepsStrings(st: Store, events: seq<Event>, from: nat, fault: nat -> WriteFault, c: Codec)
    requires EventKeysHoldStrings(st)
    ensures EventKeysHoldStrings(WriteAll(st, events, from, fault, c).store)
  {
    var w := WriteAll(st, events, from, fault, c);
    WriteAllFrame(st, events, from, fault, c);
    forall k | k in EventKeys(w.store)
      ensures !Get(w.store, k).WrongType?
    {
      if k in st.data && w.store.data[k] == st.data[k] {
        assert k in EventKeys(st);
      }
    }
  }

  /** The unknown candidates carry exactly the candidate links not yet known. */
  lemma UnknownLinks(cands: seq<Event>, known: set<string>)
    ensures LinksOf(cands) <= known + LinksOf(Unknown(cands, known))
    ensures LinksOf(Unknown(cands, known)) <= LinksOf(cands)
  {
    var added := Unknown(cands, known);
    forall l | l in LinksOf(cands)
      ensures l in known + LinksOf(added)
    {
      var i :| 0 <= i < |cands| && cands[i].registrationLink == l;
      if l !in known {
        var j :| 0 <= j < |added| && added[j] == cands[i];
      }
    }
    forall l | l in LinksOf(added)
      ensures l in LinksOf(cands)
    {
      var j :| 0 <= j < |added| && added[j].registrationLink == l;
      var i :| 0 <= i < |cands| && cands[i] == added[j];
    }
  }

  /**
   * After a sync whose `SET`s all succeed, the known links are exactly the
   * old ones plus the candidates' links: stored links {A, B} and scraped
   * links {B, C} leave {A, B, C}.
   */
  lemma SyncKnownLinks(scraped: seq<Event>, st: Store, now: int, c: Codec, fault: nat -> WriteFault)
    requires EventRoundTrip(c)
    requires EventKeysHoldStrings(st)
    requires CollisionFree(st, c, Candidates(scraped, now))
    requires forall j :: fault(j) != SetFails
    ensures KnownLinks(Sync(scraped, st, now, c, fault).value.store, c) == KnownLinks(st, c) + LinksOf(Candidates(scraped, now))
  {
    var cands := Candidates(scraped, now);
    var known := KnownLinks(st, c);
    var added := Unknown(cands, known);
    var w := WriteAll(st, added, 0, fault, c);
    SyncStages(scraped, st, now, c, fault);
    assert CollisionFree(st, c, added);
    WriteAllKeepsLinks(st, added, 0, fault, c);
    WriteAllAddsOnlyItsLinks(st, added, 0, fault, c);
    KnownLinksOfSameRecords(w.store, Commit(w, now, c).0, c);
    UnknownLinks(cands, known);
  }

  /** The candidates' links do not depend on the time of the run. */
  lemma CandidateLinksIgnoreTime(scraped: seq<Event>, now: int, now': int)
    ensures LinksOf(Candidates(scraped, now')) == LinksOf(Candidates(scraped, now))
  {
    if |scraped| == 0 {
      assert forall i :: 0 <= i < 4 ==> Fallback(now)[i].registrationLink == Fallback(now')[i].registrationLink;
    }
  }

  /** A successful run leaves no sorted set under an event key, so the next run cannot abort. */
  lemma SyncLeavesStrings(scraped: seq<Event>, st: Store, now: int, c: Codec, fault: nat -> WriteFault)
    requires EventKeysHoldStrings(st)
    ensures EventKeysHoldStrings(Sync(scraped, st, now, c, fault).value.store)
  {
    SyncStages(scraped, st, now, c, fault);
    var added := Unknown(Candidates(scraped, now), KnownLinks(st, c));
    WriteAllKeepsStrings(st, added, 0, fault, c);
  }

  /** When every candidate link is known, no candidate is new. */
  lemma NothingUnknown(cands: seq<Event>, known: set<string>)
    requires LinksOf(cands) <= known
    ensures Unknown(cands, known) == []
  {
    forall j | 0 <= j < |cands| ensures cands[j].registrationLink in known {
      assert cands[j].registrationLink in LinksOf(cands);
    }
    FilterNone(cands, (e: Event) => e.registrationLink !in known);
  }

  /** A run with nothing new keeps the event keys and reports their count. */
  lemma SyncNothingNew(scraped: seq<Event>, st: Store, now: int, c: Codec, fault: nat -> WriteFault)
    requires EventKeysHoldStrings(st)
    requires LinksOf(Candidates(scraped, now)) <= KnownLinks(st, c)
    ensures var run := Sync(scraped, st, now, c, fault).value;
      && run.newEvents == []
      && EventKeys(run.store) == EventKeys(st)
  {
    SyncStages(scraped, st, now, c, fault);
    NothingUnknown(Candidates(scraped, now), KnownLinks(st, c));
  }

  /**
   * Idempotence: rerunning the sync over the same scrape, with every record
   * of the first run intact, adds nothing and leaves the event count alone.
   */
  lemma RerunAddsNothing(scraped: seq<Event>, st: Store, now: int, now': int, c: Codec,
                         fault: nat -> WriteFault, fault': nat -> WriteFault)
    requires EventRoundTrip(c)
    requires EventKeysHoldStrings(st)
    requires CollisionFree(st, c, Candidates(scraped, now))
    requires forall j :: fault(j) != SetFails
    ensures var first := Sync(scraped, st, now, c, fault).value;
      var second := Sync(scraped, first.store, now', c, fault');
      && second.Success?
      && second.value.newEvents == []
      && second.value.stats.newEventsAdded == 0
      && second.value.stats.totalEvents == first.stats.totalEvents
      && EventKeys(second.value.store) == EventKeys(first.store)
  {
    var first := Sync(scraped, st, now, c, fault).value;
    SyncLeavesStrings(scraped, st, now, c, fault);
    SyncKnownLinks(scraped, st, now, c, fault);
    CandidateLinksIgnoreTime(scraped, now, now');
    SyncNothingNew(scraped, first.store, now', c, fault');
  }
}
