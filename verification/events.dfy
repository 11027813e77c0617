/**
 * The Luma event record, the sync statistics record, and the encodings the
 * portal applies to them. JSON, base64 and ISO-8601 formatting are not
 * re-implemented: they are function fields of a `Codec`.
 */
module Events {
  import opened Wrappers
  import opened KeyValue
  import opened Seqs

  datatype Status = Upcoming | Ongoing | Past

  /** Times are milliseconds since the epoch. */
  datatype Event = Event(
    id: string,
    title: string,
    description: string,
    startDate: int,
    endDate: Option<int>,
    location: string,
    registrationLink: string,
    imageUrl: Option<string>,
    status: Status,
    tags: Option<seq<string>>)

  /** The record written to `luma:sync:stats`. */
  datatype SyncStats = SyncStats(lastSync: string, totalEvents: nat, newEventsAdded: nat, syncSource: string)

  /**
   * `decodeEvent` is `JSON.parse` followed by reading the record's fields
   * (`None` when either throws); `linkHash` is base64 with `/`, `+` and `=`
   * removed; `iso` is `Date.prototype.toISOString`; `encodeIndex` is
   * `JSON.stringify` of the key list.
   */
  datatype Codec = Codec(
    decodeEvent: string -> Option<Event>,
    encodeEvent: Event -> string,
    decodeStats: string -> Option<SyncStats>,
    encodeStats: SyncStats -> string,
    encodeIndex: set<string> -> string,
    linkHash: string -> string,
    iso: int -> string)

  /** JSON round trip: an encoded event decodes to itself and is never the empty string. */
  ghost predicate EventRoundTrip(c: Codec)
  {
    forall e :: c.decodeEvent(c.encodeEvent(e)) == Some(e) && c.encodeEvent(e) != ""
  }

  /** JSON round trip for the statistics record, whose encoding is never the empty string. */
  ghost predicate StatsRoundTrip(c: Codec)
  {
    forall s :: c.decodeStats(c.encodeStats(s)) == Some(s) && c.encodeStats(s) != ""
  }

  /** The storage key of an event: `luma:event:` followed by the link's hash. */
  function KeyFor(c: Codec, link: string): (k: string)
    ensures IsEventKey(k)
  {
    assert (EVENT_PREFIX + c.linkHash(link))[..|EVENT_PREFIX|] == EVENT_PREFIX;
    EVENT_PREFIX + c.linkHash(link)
  }

  /** The key holds a truthy string that decodes to an event. */
  predicate Decodes(st: Store, k: string, c: Codec)
  {
    Truthy(Get(st, k)) && c.decodeEvent(Get(st, k).text).Some?
  }

  function RecordAt(st: Store, k: string, c: Codec): Event
    requires Decodes(st, k, c)
  {
    c.decodeEvent(Get(st, k).text).value
  }

  /** The keys of `listing` whose record decodes, in listing order. */
  function DecodableKeys(st: Store, listing: seq<string>, c: Codec): seq<string>
  {
    Filter(listing, k => Decodes(st, k, c))
  }
}
