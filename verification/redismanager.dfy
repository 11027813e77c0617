/**
 * The administrative command-line tool: command dispatch with the
 * production guard on `clear`, `init`, `clear`, the Luma event listing, and
 * the string preview of the overview. Connection handling, the overview's
 * type probing, the connection test and the backup file are I/O only.
 */
module RedisManager {
  import opened Wrappers
  import opened KeyValue
  import opened Events
  import opened Seqs
  import opened LumaSync

  const PREVIEW_LENGTH: nat := 100
  const ELLIPSIS := "..."
  const APP_VERSION_KEY := "app:version"
  const APP_INITIALIZED_KEY := "app:initialized_at"
  const APP_STATUS_KEY := "app:status"

  datatype Command =
    | Init
    | Overview
    | LumaListing
    | TestConnection
    | Clear(pattern: Option<string>)
    | ClearCancelled
    | Backup
    | SyncLuma
    | Help

  const KNOWN_COMMANDS: set<string> :=
    {"init", "overview", "show", "status", "luma", "luma-events", "test", "ping", "clear", "backup", "sync-luma"}

  /**
   * `main`'s switch over the first argument. `clear` takes an optional
   * pattern (an empty one means none) and is cancelled in production unless
   * `FORCE_CLEAR` is `true`; anything unknown or missing prints the help.
   */
  function Dispatch(args: seq<string>, nodeEnv: Option<string>, forceClear: Option<string>): (r: Command)
    ensures r.Init? <==> |args| > 0 && args[0] == "init"
    ensures r.Overview? <==> |args| > 0 && args[0] in {"overview", "show", "status"}
    ensures r.LumaListing? <==> |args| > 0 && args[0] in {"luma", "luma-events"}
    ensures r.TestConnection? <==> |args| > 0 && args[0] in {"test", "ping"}
    ensures r.Clear? || r.ClearCancelled? <==> |args| > 0 && args[0] == "clear"
    ensures r.ClearCancelled? <==> |args| > 0 && args[0] == "clear" && nodeEnv == Some("production") && forceClear != Some("true")
    ensures r.Clear? ==> (r.pattern.Some? <==> |args| > 1 && args[1] != "") && (r.pattern.Some? ==> r.pattern.value == args[1])
    ensures r.Backup? <==> |args| > 0 && args[0] == "backup"
    ensures r.SyncLuma? <==> |args| > 0 && args[0] == "sync-luma"
    ensures r.Help? <==> |args| == 0 || args[0] !in KNOWN_COMMANDS
  {
    if |args| == 0 then Help
    else
      var command := args[0];
      if command == "init" then Init
      else if command in {"overview", "show", "status"} then Overview
      else if command in {"luma", "luma-events"} then LumaListing
      else if command in {"test", "ping"} then TestConnection
      else if command == "clear" then
        if nodeEnv == Some("production") && forceClear != Some("true") then ClearCancelled
        else Clear(if |args| > 1 && args[1] != "" then Some(args[1]) else None)
      else if command == "backup" then Backup
      else if command == "sync-luma" then SyncLuma
      else Help
  }

  /** `initRedis`: the three application keys. */
  function InitRedis(st: Store, now: int, iso: int -> string): (r: Store)
    ensures Get(r, APP_VERSION_KEY) == Found("1.0.0")
    ensures Get(r, APP_INITIALIZED_KEY) == Found(iso(now))
    ensures Get(r, APP_STATUS_KEY) == Found("active")
    ensures forall k :: k !in {APP_VERSION_KEY, APP_INITIALIZED_KEY, APP_STATUS_KEY} ==> Get(r, k) == Get(st, k)
    ensures forall k :: k !in {APP_VERSION_KEY, APP_INITIALIZED_KEY, APP_STATUS_KEY} ==> SameKey(r, st, k)
    ensures APP_VERSION_KEY !in r.ttl && APP_INITIALIZED_KEY !in r.ttl && APP_STATUS_KEY !in r.ttl
  {
    var st1 := Set(st, APP_VERSION_KEY, "1.0.0");
    var st2 := Set(st1, APP_INITIALIZED_KEY, iso(now));
    SetFrame(st, APP_VERSION_KEY, "1.0.0");
    SetFrame(st1, APP_INITIALIZED_KEY, iso(now));
    SetFrame(st2, APP_STATUS_KEY, "active");
    Set(st2, APP_STATUS_KEY, "active")
  }

  datatype ClearReport = ClearReport(store: Store, deleted: nat, flushed: bool)

  /** The keys `KEYS pattern` returns; the glob match itself is a parameter. */
  function Matching(st: Store, pattern: string, matches: (string, string) -> bool): (r: set<string>)
    ensures forall k :: k in r <==> k in st.data && matches(pattern, k)
  {
    set k | k in st.data && matches(pattern, k)
  }

  /**
   * `clearRedis`: with a pattern, delete exactly the matching keys (nothing
   * when none match); without one, flush the database when it has any key.
   */
  function ClearRedis(st: Store, pattern: Option<string>, matches: (string, string) -> bool): (r: ClearReport)
    ensures pattern.Some? && pattern.value != "" ==>
      && (forall k :: k in r.store.data <==> k in st.data && !matches(pattern.value, k))
      && (forall k :: k in r.store.data ==> r.store.data[k] == st.data[k])
      && (forall k :: !(k in st.data && matches(pattern.value, k)) ==> SameKey(r.store, st, k))
      && r.deleted == |Matching(st, pattern.value, matches)|
      && !r.flushed
    ensures pattern.Some? && pattern.value != "" && Matching(st, pattern.value, matches) == {} ==> r.store == st
    ensures !(pattern.Some? && pattern.value != "") ==> r.store.data == map[] && (r.flushed <==> st.data != map[])
    ensures !(pattern.Some? && pattern.value != "") && st.data != map[] ==> r.store.ttl == map[]
  {
    if pattern.Some? && pattern.value != "" then
      var keys := Matching(st, pattern.value, matches);
      if keys == {} then ClearReport(st, 0, false)
      else
        DeleteFrame(st, keys);
        ClearReport(Delete(st, keys), |keys|, false)
    else if |st.data| > 0 then ClearReport(Store(map[], map[]), 0, true)
    else ClearReport(st, 0, false)
  }

  /**
   * The records behind the listed keys, with their keys, skipping empty
   * and unparsable ones. A key holding a sorted set makes the read throw.
   */
  function Records(st: Store, listing: seq<string>, c: Codec): (r: Option<seq<(string, Event)>>)
    ensures r.None? <==> exists j :: 0 <= j < |listing| && Get(st, listing[j]).WrongType?
    ensures r.Some? ==> forall j :: 0 <= j < |listing| && Decodes(st, listing[j], c) ==> (listing[j], RecordAt(st, listing[j], c)) in r.value
    ensures r.Some? ==> forall i :: 0 <= i < |r.value| ==>
      r.value[i].0 in listing && Decodes(st, r.value[i].0, c) && r.value[i].1 == RecordAt(st, r.value[i].0, c)
  {
    if |listing| == 0 then Some([])
    else if Get(st, listing[0]).WrongType? then None
    else match Records(st, listing[1..], c)
      case None =>
        assert exists j :: 0 <= j < |listing[1..]| && Get(st, listing[1..][j]).WrongType?;
        var j :| 0 <= j < |listing[1..]| && Get(st, listing[1..][j]).WrongType?;
        assert listing[j + 1] == listing[1..][j];
        None
      case Some(rest) =>
        assert forall j :: 1 <= j < |listing| ==> listing[j] == listing[1..][j - 1];
        if Decodes(st, listing[0], c) then Some([(listing[0], RecordAt(st, listing[0], c))] + rest) else Some(rest)
  }

  /**
   * The records are those of the decodable keys, one each, in listing
   * order: no record is repeated or dropped (`Records` states that each
   * item holds the record of its key).
   */
  lemma {:induction false} RecordsFollowListing(st: Store, listing: seq<string>, c: Codec)
    requires Records(st, listing, c).Some?
    ensures var r := Records(st, listing, c).value;
      var keys := DecodableKeys(st, listing, c);
      && |r| == |keys|
      && forall i :: 0 <= i < |r| ==> r[i].0 == keys[i]
    decreases |listing|
  {
    if |listing| > 0 {
      var k := listing[0];
      RecordsCons(st, listing, c);
      RecordsFollowListing(st, listing[1..], c);
      var keys' := DecodableKeys(st, listing[1..], c);
      assert DecodableKeys(st, listing, c) == (if Decodes(st, k, c) then [k] else []) + keys';
      var head := if Decodes(st, k, c) then [(k, RecordAt(st, k, c))] else [];
      KeyedConcat(head, Records(st, listing[1..], c).value, if Decodes(st, k, c) then [k] else [], keys');
    }
  }

  /** Keys that match pointwise on both halves match on the concatenation. */
  lemma KeyedConcat(h: seq<(string, Event)>, t: seq<(string, Event)>, hk: seq<string>, tk: seq<string>)
    requires |h| == |hk| && forall i :: 0 <= i < |h| ==> h[i].0 == hk[i]
    requires |t| == |tk| && forall i :: 0 <= i < |t| ==> t[i].0 == tk[i]
    ensures |h + t| == |hk + tk| && forall i :: 0 <= i < |h + t| ==> (h + t)[i].0 == (hk + tk)[i]
  {
  }

  /** `Records` of a non-empty listing: the first key's record, if it parses, then the rest's. */
  lemma RecordsCons(st: Store, listing: seq<string>, c: Codec)
    requires |listing| > 0 && Records(st, listing, c).Some?
    ensures Records(st, listing[1..], c).Some?
    ensures var head := if Decodes(st, listing[0], c) then [(listing[0], RecordAt(st, listing[0], c))] else [];
      Records(st, listing, c).value == head + Records(st, listing[1..], c).value
  {
  }

  datatype Listing =
    | NoEvents
    | Listed(stats: Option<SyncStats>, items: seq<(string, Event)>, upcoming: nat, past: nat)

  datatype ListingError = NotAString

  function StartOf(item: (string, Event)): int
  {
    item.1.startDate
  }

  /**
   * `showLumaEvents`: nothing to show without event keys; otherwise the
   * statistics (when they parse) and the readable records, earliest first,
   * counted as upcoming (start after `now`) or past.
   */
  function ShowLumaEvents(st: Store, listing: seq<string>, now: int, c: Codec): (r: Result<Listing, ListingError>)
    ensures |listing| == 0 ==> r == Success(NoEvents)
    ensures |listing| > 0 ==> (r.Failure? <==> Get(st, STATS_KEY).WrongType? || Records(st, listing, c).None?)
    ensures r.Success? && |listing| > 0 ==>
      && r.value.Listed?
      && Records(st, listing, c).Some?
      && multiset(r.value.items) == multiset(Records(st, listing, c).value)
      && Ascending(r.value.items, StartOf)
      && r.value.upcoming == |Filter(r.value.items, item => StartOf(item) > now)|
      && r.value.past == |Filter(r.value.items, item => StartOf(item) <= now)|
      && r.value.upcoming + r.value.past == |r.value.items|
  {
    if |listing| == 0 then Success(NoEvents)
    else
      var raw := Get(st, STATS_KEY);
      if raw.WrongType? then Failure(NotAString)
      else match Records(st, listing, c)
        case None => Failure(NotAString)
        case Some(records) =>
          var stats := if Truthy(raw) then c.decodeStats(raw.text) else None;
          var items := SortBy(records, StartOf);
          var upcoming := Filter(items, item => StartOf(item) > now);
          var past := Filter(items, item => StartOf(item) <= now);
          FilterPartition(items, item => StartOf(item) > now, item => StartOf(item) <= now);
          Success(Listed(stats, items, |upcoming|, |past|))
  }

  /** The listing shows one item per decodable event key, each counted once as upcoming or past. */
  lemma ShowLumaEventsTotal(st: Store, listing: seq<string>, now: int, c: Codec)
    requires |listing| > 0 && ShowLumaEvents(st, listing, now, c).Success?
    ensures var l := ShowLumaEvents(st, listing, now, c).value;
      |l.items| == |DecodableKeys(st, listing, c)| && l.upcoming + l.past == |DecodableKeys(st, listing, c)|
  {
    var l := ShowLumaEvents(st, listing, now, c).value;
    RecordsFollowListing(st, listing, c);
    assert |multiset(l.items)| == |multiset(Records(st, listing, c).value)|;
  }

  /**
   * The overview's string preview: the first hundred characters, followed
   * by `...` exactly when something was cut off; empty for a missing value.
   */
  function Preview(value: Option<string>): (r: string)
    ensures value.None? ==> r == ""
    ensures value.Some? && |value.value| <= PREVIEW_LENGTH ==> r == value.value
    ensures value.Some? && |value.value| > PREVIEW_LENGTH ==>
      |r| == PREVIEW_LENGTH + |ELLIPSIS| && r[..PREVIEW_LENGTH] == value.value[..PREVIEW_LENGTH] && r[PREVIEW_LENGTH..] == ELLIPSIS
  {
    if value.None? || value.value == "" then ""
    else if |value.value| > PREVIEW_LENGTH then value.value[..PREVIEW_LENGTH] + ELLIPSIS
    else value.value
  }

  /** The clock, codec and inputs a command needs besides the store. */
  datatype Env = Env(
    now: int,
    c: Codec,
    matches: (string, string) -> bool,
    scraped: seq<Event>,
    fault: nat -> WriteFault,
    listing: seq<string>)

  datatype CommandError = SyncFailed(error: SyncError) | ListingFailed(reason: ListingError)

  /** The store after running a command, or the error that makes the tool exit with status 1. */
  function RunCommand(cmd: Command, st: Store, env: Env): (r: Result<Store, CommandError>)
    ensures cmd.Init? ==> r == Success(InitRedis(st, env.now, env.c.iso))
    ensures cmd.Clear? ==> r == Success(ClearRedis(st, cmd.pattern, env.matches).store)
    ensures cmd.SyncLuma? ==> (r.Failure? <==> Sync(env.scraped, st, env.now, env.c, env.fault).Failure?)
    ensures cmd.SyncLuma? && r.Success? ==> r.value == Sync(env.scraped, st, env.now, env.c, env.fault).value.store
    ensures cmd.LumaListing? ==> (r.Failure? <==> ShowLumaEvents(st, env.listing, env.now, env.c).Failure?)
    ensures !(cmd.Init? || cmd.Clear? || cmd.SyncLuma?) && r.Success? ==> r.value == st
    ensures r.Failure? ==> cmd.SyncLuma? || cmd.LumaListing?
  {
    match cmd
    case Init => Success(InitRedis(st, env.now, env.c.iso))
    case Clear(pattern) => Success(ClearRedis(st, pattern, env.matches).store)
    case SyncLuma =>
      (match Sync(env.scraped, st, env.now, env.c, env.fault)
       case Success(run) => Success(run.store)
       case Failure(e) => Failure(SyncFailed(e)))
    case LumaListing =>
      (match ShowLumaEvents(st, env.listing, env.now, env.c)
       case Success(_) => Success(st)
       case Failure(e) => Failure(ListingFailed(e)))
    case _ => Success(st)
  }

  /** The exit status of the tool. */
  function ExitCode(r: Result<Store, CommandError>): nat
  {
    if r.Success? then 0 else 1
  }

  /** In production, `clear` without `FORCE_CLEAR=true` deletes nothing, whatever the pattern. */
  lemma ProductionClearGuarded(rest: seq<string>, force: Option<string>, st: Store, env: Env)
    requires force != Some("true")
    ensures var cmd := Dispatch(["clear"] + rest, Some("production"), force);
      cmd == ClearCancelled && RunCommand(cmd, st, env) == Success(st) && ExitCode(RunCommand(cmd, st, env)) == 0
  {
  }

  /** Clearing by a pattern twice deletes nothing the second time. */
  lemma ClearIdempotent(st: Store, pattern: string, matches: (string, string) -> bool)
    requires pattern != ""
    ensures var once := ClearRedis(st, Some(pattern), matches).store;
      ClearRedis(once, Some(pattern), matches).deleted == 0 && ClearRedis(once, Some(pattern), matches).store == once
  {
    var once := ClearRedis(st, Some(pattern), matches).store;
    assert Matching(once, pattern, matches) == {};
  }
}
