/**
 * The Redis key-value store as the portal uses it: string values, one sorted
 * set (the legacy `events` key) and per-key expiry times. The environment key
 * prefix the client adds is invisible to its callers and is not modelled.
 */
module KeyValue {
  import opened Wrappers

  datatype Scored = Scored(member: string, score: int)

  /** A key holds either a string or a sorted set, never both. */
  datatype Value = Text(text: string) | SortedSet(entries: seq<Scored>)

  /** `ttl` holds the expiry (in seconds) set on a key; expiry itself is not modelled. */
  datatype Store = Store(data: map<string, Value>, ttl: map<string, nat>)

  /** What `GET key` answers: nil, a string, or a WRONGTYPE error. */
  datatype Read = Absent | Found(text: string) | WrongType

  const EVENT_PREFIX := "luma:event:"
  const INDEX_KEY := "luma:events:index"
  const STATS_KEY := "luma:sync:stats"
  const LAST_SYNC_KEY := "luma:last_sync"
  const EVENTS_KEY := "events"

  function Get(st: Store, k: string): Read
  {
    if k !in st.data then Absent
    else match st.data[k]
      case Text(s) => Found(s)
      case SortedSet(_) => WrongType
  }

  /** A read JavaScript treats as truthy: a present, non-empty string. */
  predicate Truthy(r: Read)
  {
    r.Found? && r.text != ""
  }

  /** Key `k` has the same expiry, or none, in both stores. */
  predicate SameExpiry(a: Store, b: Store, k: string)
  {
    (k in a.ttl <==> k in b.ttl) && (k in a.ttl ==> a.ttl[k] == b.ttl[k])
  }

  /** Key `k` holds the same value, or none, and the same expiry in both stores. */
  predicate SameKey(a: Store, b: Store, k: string)
  {
    && (k in a.data <==> k in b.data)
    && (k in a.data ==> a.data[k] == b.data[k])
    && SameExpiry(a, b, k)
  }

  /** `SET key value`: replaces the value and discards any expiry. */
  function Set(st: Store, k: string, v: string): (r: Store)
    ensures Get(r, k) == Found(v) && k !in r.ttl
    ensures forall k' :: k' != k ==> Get(r, k') == Get(st, k')
    ensures forall k' :: k' != k ==> Members(r, k') == Members(st, k') && Entries(r, k') == Entries(st, k')
  {
    Store(st.data[k := Text(v)], st.ttl - {k})
  }

  /** `SET` leaves every other key's value and expiry as they were. */
  lemma SetFrame(st: Store, k: string, v: string)
    ensures forall k' :: k' != k ==> SameKey(Set(st, k, v), st, k')
  {
  }

  /** `EXPIRE key seconds`: a no-op on a missing key. */
  function Expire(st: Store, k: string, seconds: nat): (r: Store)
    ensures r.data == st.data
    ensures k in st.data ==> k in r.ttl && r.ttl[k] == seconds
    ensures forall k' :: k' != k ==> (k' in r.ttl <==> k' in st.ttl)
    ensures forall k' :: k' != k && k' in st.ttl ==> r.ttl[k'] == st.ttl[k']
  {
    if k in st.data then st.(ttl := st.ttl[k := seconds]) else st
  }

  /** `EXPIRE` leaves every other key's value and expiry as they were. */
  lemma ExpireFrame(st: Store, k: string, seconds: nat)
    ensures forall k' :: k' != k ==> SameKey(Expire(st, k, seconds), st, k')
  {
  }

  /** `DEL key...` */
  function Delete(st: Store, keys: set<string>): (r: Store)
    ensures forall k :: k in r.data <==> k in st.data && k !in keys
    ensures forall k :: k in r.data ==> r.data[k] == st.data[k]
  {
    Store(st.data - keys, st.ttl - keys)
  }

  /** `DEL` drops the expiries of the deleted keys and leaves every other key as it was. */
  lemma DeleteFrame(st: Store, keys: set<string>)
    ensures forall k :: k in keys ==> k !in Delete(st, keys).ttl
    ensures forall k :: k !in keys ==> SameKey(Delete(st, keys), st, k)
  {
  }

  /** `ZRANGE key 0 -1`: the members in score order; a string value is a WRONGTYPE error. */
  function Members(st: Store, k: string): Option<seq<string>>
  {
    if k !in st.data then Some([])
    else match st.data[k]
      case Text(_) => None
      case SortedSet(z) => Some(MemberList(z))
  }

  predicate IsEventKey(k: string)
  {
    |EVENT_PREFIX| <= |k| && k[..|EVENT_PREFIX|] == EVENT_PREFIX
  }

  /** The keys `KEYS luma:event:*` returns. */
  function EventKeys(st: Store): set<string>
  {
    set k | k in st.data && IsEventKey(k)
  }

  /** `listing` is an answer to `KEYS luma:event:*`: every event key once, in some order. */
  predicate ListsEventKeys(st: Store, listing: seq<string>)
  {
    && (forall i :: 0 <= i < |listing| ==> listing[i] in EventKeys(st))
    && (forall k :: k in EventKeys(st) ==> k in listing)
    && (forall i, j :: 0 <= i < j < |listing| ==> listing[i] != listing[j])
  }

  lemma PortalKeysAreNotEventKeys()
    ensures !IsEventKey(INDEX_KEY) && !IsEventKey(STATS_KEY)
    ensures !IsEventKey(LAST_SYNC_KEY) && !IsEventKey(EVENTS_KEY)
  {
    assert INDEX_KEY[..|EVENT_PREFIX|][10] != EVENT_PREFIX[10];
    assert STATS_KEY[..|EVENT_PREFIX|][5] != EVENT_PREFIX[5];
    assert LAST_SYNC_KEY[..|EVENT_PREFIX|][5] != EVENT_PREFIX[5];
  }

  /** Writing a key that is not an event key leaves the event keys and their values alone. */
  lemma SetOtherKeepsEventKeys(st: Store, k: string, v: string)
    requires !IsEventKey(k)
    ensures EventKeys(Set(st, k, v)) == EventKeys(st)
    ensures forall e :: e in EventKeys(st) ==> Get(Set(st, k, v), e) == Get(st, e)
  {
  }

  // ---------------------------------------------------------------------------
  // Sorted sets

  function MemberList(z: seq<Scored>): seq<string>
  {
    seq(|z|, i requires 0 <= i < |z| => z[i].member)
  }

  /** The entries without `m`. */
  function Without(z: seq<Scored>, m: string): seq<Scored>
  {
    if |z| == 0 then []
    else if z[0].member == m then Without(z[1..], m)
    else [z[0]] + Without(z[1..], m)
  }

  lemma {:induction false} WithoutFacts(z: seq<Scored>, m: string)
    ensures |Without(z, m)| <= |z|
    ensures m !in MemberList(Without(z, m))
    ensures forall e :: e in Without(z, m) ==> e in z
    ensures m !in MemberList(z) ==> Without(z, m) == z
  {
    if |z| > 0 {
      var rest := Without(z[1..], m);
      WithoutFacts(z[1..], m);
      assert MemberList(z) == [z[0].member] + MemberList(z[1..]);
      if z[0].member != m {
        assert MemberList([z[0]] + rest) == [z[0].member] + MemberList(rest);
      }
    }
  }

  lemma {:induction false} WithoutKeeps(z: seq<Scored>, m: string, i: nat)
    requires i < |z| && z[i].member != m
    ensures z[i] in Without(z, m)
    decreases |z|
  {
    if i > 0 {
      WithoutKeeps(z[1..], m, i - 1);
    }
  }

  /** Places `e` after every entry whose score does not exceed its own. */
  function InsertByScore(z: seq<Scored>, e: Scored): seq<Scored>
  {
    if |z| == 0 then [e]
    else if e.score < z[0].score then [e] + z
    else [z[0]] + InsertByScore(z[1..], e)
  }

  lemma {:induction false} InsertByScoreFacts(z: seq<Scored>, e: Scored)
    ensures multiset(InsertByScore(z, e)) == multiset(z) + multiset{e}
    ensures (forall i :: 0 <= i < |z| ==> z[i].score < e.score) ==> InsertByScore(z, e) == z + [e]
  {
    if |z| > 0 && z[0].score <= e.score {
      InsertByScoreFacts(z[1..], e);
      assert z == [z[0]] + z[1..];
    }
  }

  /**
   * `ZADD key score member`: an existing member is moved to its new score,
   * a new one is inserted by score. Redis breaks score ties by comparing
   * members; here a tie places the new entry after the old ones.
   */
  function ZAdd(z: seq<Scored>, m: string, score: int): seq<Scored>
  {
    InsertByScore(Without(z, m), Scored(m, score))
  }

  /**
   * After `ZADD` the member sits at its new score, every entry of another
   * member is kept, nothing else appears, and the count grows by one exactly
   * when the member is new.
   */
  lemma ZAddFacts(z: seq<Scored>, m: string, score: int)
    ensures Scored(m, score) in ZAdd(z, m, score)
    ensures |ZAdd(z, m, score)| <= |z| + 1
    ensures m !in MemberList(z) ==> |ZAdd(z, m, score)| == |z| + 1
    ensures forall e :: e in z && e.member != m ==> e in ZAdd(z, m, score)
    ensures forall e :: e in ZAdd(z, m, score) ==> e in z || e == Scored(m, score)
  {
    var base := Without(z, m);
    WithoutFacts(z, m);
    InsertByScoreFacts(base, Scored(m, score));
    var r := ZAdd(z, m, score);
    assert Scored(m, score) in multiset(r);
    forall e | e in z && e.member != m
      ensures e in r
    {
      var i :| 0 <= i < |z| && z[i] == e;
      WithoutKeeps(z, m, i);
      assert e in multiset(r);
    }
    assert |r| == |multiset(r)|;
    forall e | e in r ensures e in z || e == Scored(m, score) {
      assert e in multiset(r);
      if e != Scored(m, score) {
        assert e in multiset(base);
      }
    }
  }

  /** A new member above every score is appended. */
  lemma ZAddAbove(z: seq<Scored>, m: string, score: int)
    requires m !in MemberList(z)
    requires forall i :: 0 <= i < |z| ==> z[i].score < score
    ensures ZAdd(z, m, score) == z + [Scored(m, score)]
  {
    WithoutFacts(z, m);
    InsertByScoreFacts(z, Scored(m, score));
  }

  /** The entries of a sorted-set key, none when it is missing or holds a string. */
  function Entries(st: Store, k: string): seq<Scored>
  {
    if k in st.data && st.data[k].SortedSet? then st.data[k].entries else []
  }

  /**
   * `ZADD` on a store key. A key holding a string is left as it is: inside a
   * pipeline the WRONGTYPE reply is collected, not thrown.
   */
  function ZAddKey(st: Store, k: string, m: string, score: int): (r: Store)
    ensures Members(st, k).None? ==> r == st
    ensures Members(st, k).Some? ==> Members(r, k).Some? && m in Members(r, k).value
    ensures Members(st, k).Some? ==> forall x :: x in Members(st, k).value ==> x in Members(r, k).value
    ensures Members(st, k).Some? && m !in Members(st, k).value ==> |Members(r, k).value| == |Members(st, k).value| + 1
    ensures Members(st, k).Some? ==> forall x :: x in Members(r, k).value ==> x in Members(st, k).value || x == m
    ensures forall k' :: k' != k ==> Get(r, k') == Get(st, k') && Members(r, k') == Members(st, k')
    ensures forall k' :: k' != k ==> SameKey(r, st, k')
    ensures r.ttl == st.ttl
  {
    if k !in st.data then
      assert MemberList([Scored(m, score)]) == [m];
      Store(st.data[k := SortedSet([Scored(m, score)])], st.ttl)
    else match st.data[k]
      case Text(_) => st
      case SortedSet(z) =>
        var z' := ZAdd(z, m, score);
        ZAddFacts(z, m, score);
        ZAddMembers(z, m, score);
        Store(st.data[k := SortedSet(z')], st.ttl)
  }

  /** One member's fate under `ZADD`. */
  lemma ZAddMember(z: seq<Scored>, m: string, score: int, x: string)
    ensures x in MemberList(ZAdd(z, m, score)) <==> x in MemberList(z) || x == m
  {
    ZAddMembers(z, m, score);
  }

  /** `ZCARD`: 0 for a missing key, `None` (WRONGTYPE) for a string. */
  function ZCard(st: Store, k: string): (r: Option<nat>)
    ensures r.None? <==> Members(st, k).None?
    ensures r.Some? ==> r.value == |Members(st, k).value|
  {
    if k !in st.data then Some(0)
    else match st.data[k]
      case Text(_) => None
      case SortedSet(z) => Some(|z|)
  }

  /** The members after `ZADD`: the old ones plus `m`, and nothing else. */
  lemma ZAddMembers(z: seq<Scored>, m: string, score: int)
    ensures m in MemberList(ZAdd(z, m, score))
    ensures forall x :: x in MemberList(z) ==> x in MemberList(ZAdd(z, m, score))
    ensures forall x :: x in MemberList(ZAdd(z, m, score)) ==> x in MemberList(z) || x == m
  {
    var z' := ZAdd(z, m, score);
    ZAddFacts(z, m, score);
    var i :| 0 <= i < |z'| && z'[i] == Scored(m, score);
    assert MemberList(z')[i] == m;
    forall x | x in MemberList(z) ensures x in MemberList(z')
    {
      var i :| 0 <= i < |z| && MemberList(z)[i] == x;
      if x != m {
        assert z[i] in z';
        var j :| 0 <= j < |z'| && z'[j] == z[i];
        assert MemberList(z')[j] == x;
      }
    }
    forall x | x in MemberList(z') ensures x in MemberList(z) || x == m
    {
      var j :| 0 <= j < |z'| && MemberList(z')[j] == x;
      if z'[j] != Scored(m, score) {
        assert z'[j] in z';
        assert z'[j] in z;
        var i :| 0 <= i < |z| && z[i] == z'[j];
        assert MemberList(z)[i] == x;
      }
    }
  }
}
