/**
 * The event record of the legacy `events` sorted set, written by the
 * scheduled job and the manual sync route. Each member is the JSON text of
 * one record.
 */
module Legacy {
  import opened Wrappers
  import opened Events

  /** `id` is optional because a stored record need not carry one. */
  datatype LegacyEvent = LegacyEvent(
    id: Option<string>,
    title: string,
    date: string,
    location: string,
    description: string,
    registrationLink: string,
    status: Status,
    lumaId: Option<string>)

  /**
   * `decode` is `JSON.parse` (`None` when it throws), `encode` is
   * `JSON.stringify`, `localeDate` is `toLocaleDateString('zh-CN')`.
   */
  datatype LegacyCodec = LegacyCodec(
    decode: string -> Option<LegacyEvent>,
    encode: LegacyEvent -> string,
    localeDate: int -> string)

  const KAIA_CALENDAR := "https://lu.ma/kaiachain"
  const DAY_MS: int := 24 * 60 * 60 * 1000
  const SYNC_INTERVAL: int := 6 * 60 * 60 * 1000

  /** Parses every member (`existing.map(JSON.parse)`); one failure fails the whole. */
  function DecodeAll(lc: LegacyCodec, members: seq<string>): (r: Option<seq<LegacyEvent>>)
    ensures r.Some? <==> forall i :: 0 <= i < |members| ==> lc.decode(members[i]).Some?
    ensures r.Some? ==> |r.value| == |members|
    ensures r.Some? ==> forall i :: 0 <= i < |members| ==> Some(r.value[i]) == lc.decode(members[i])
  {
    if |members| == 0 then Some([])
    else match lc.decode(members[0])
      case None => None
      case Some(e) =>
        match DecodeAll(lc, members[1..])
        case None => None
        case Some(rest) => Some([e] + rest)
  }
}
