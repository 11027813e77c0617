/**
 * The Luma calendar scraper (`scrapeLumaPage`) and the hand-written fallback
 * set (`createKaiaExampleEvents`). Fetching the page, locating the
 * `__NEXT_DATA__` script tag and `JSON.parse` are abstract partial functions.
 */
module LumaScraper {
  import opened Wrappers
  import opened Strings
  import opened Events

  datatype Template = Template(title: string, description: string, locations: seq<string>)

  datatype Tag = Tag(name: string)
  datatype Calendar = Calendar(name: string, coverImageUrl: Option<string>)
  /** The `initialData.data` object: every field may be missing. */
  datatype CalendarData = CalendarData(calendar: Option<Calendar>, eventStartAts: Option<seq<int>>, tags: Option<seq<Tag>>)
  /** The decoded `__NEXT_DATA__` document, reduced to `props.pageProps.initialData.data`. */
  datatype NextData = NextData(initialData: Option<CalendarData>)

  const DEFAULT_COVER := "https://images.lumacdn.com/calendar-cover-images/m4/6cfbc721-73fa-45b5-a6e8-d47fa50235d1"
  const EVENT_LINK_PREFIX := "https://lu.ma/kaiachain/event-"
  const EVENT_ID_PREFIX := "kaia-event-"
  const DAY_MS := 24 * 60 * 60 * 1000

  const TEMPLATES: seq<Template> := [
    Template("Kaia Developer Workshop",
      "Hands-on workshop for developers to learn about building on Kaia blockchain",
      ["Seoul", "Singapore", "Bangkok", "Hong Kong"]),
    Template("Kaia Community Meetup",
      "Connect with the Kaia community and learn about the latest ecosystem updates",
      ["Seoul", "Tokyo", "Singapore", "Manila"]),
    Template("Kaia DeFi Summit",
      "Explore DeFi opportunities and innovations on the Kaia blockchain",
      ["Singapore", "Bangkok", "Hong Kong", "Taipei"]),
    Template("Kaia Hackathon",
      "Build innovative dApps on Kaia blockchain and compete for prizes",
      ["Seoul", "Singapore", "Bangkok", "Ho Chi Minh City"]),
    Template("Kaia Gaming Conference",
      "Discover the future of blockchain gaming on Kaia platform",
      ["Seoul", "Tokyo", "Singapore", "Bangkok"])
  ]

  /**
   * The template title, followed by ` #n` from the sixth event on (n = 2 for
   * events 6..10 and so on). The source builds `title + " " + suffix` and trims
   * it, which only drops the trailing space of an empty suffix.
   */
  function EventTitle(index: nat): string
  {
    var t := TEMPLATES[index % |TEMPLATES|];
    if index > 4 then t.title + " #" + NatToString(index / 5 + 1) else t.title
  }

  function TagNames(tags: seq<Tag>): (names: seq<string>)
    ensures |names| == |tags|
    ensures forall i :: 0 <= i < |tags| ==> names[i] == tags[i].name
  {
    seq(|tags|, i requires 0 <= i < |tags| => tags[i].name)
  }

  /** The event synthesised from the `index`-th start time. */
  function Synthesize(index: nat, start: int, cal: Calendar, tags: Option<seq<Tag>>, now: int): Event
  {
    var t := TEMPLATES[index % |TEMPLATES|];
    Event(
      id := EVENT_ID_PREFIX + NatToString(index + 1),
      title := EventTitle(index),
      description := t.description,
      startDate := start,
      endDate := None,
      location := t.locations[index % |t.locations|],
      registrationLink := EVENT_LINK_PREFIX + NatToString(index + 1),
      imageUrl := Some(if cal.coverImageUrl.Some? && cal.coverImageUrl.value != "" then cal.coverImageUrl.value else DEFAULT_COVER),
      status := if start > now then Upcoming else Past,
      tags := Some(if tags.Some? then TagNames(tags.value) else ["kaia"]))
  }

  function SynthesizeAll(starts: seq<int>, cal: Calendar, tags: Option<seq<Tag>>, now: int): (r: seq<Event>)
    ensures |r| == |starts|
    ensures forall i :: 0 <= i < |starts| ==> r[i] == Synthesize(i, starts[i], cal, tags, now)
  {
    seq(|starts|, i requires 0 <= i < |starts| => Synthesize(i, starts[i], cal, tags, now))
  }

  /**
   * `scrapeLumaPage`: `page` is the fetched HTML (`None` when the request
   * fails), `findNextData` the script-tag match and `parse` the JSON decoder.
   * Every failure gives the empty list; so does a payload without `calendar`,
   * because reading `calendar.name` throws inside the guarded block.
   */
  function Scrape(page: Option<string>, findNextData: string -> Option<string>, parse: string -> Option<NextData>, now: int): (r: seq<Event>)
    ensures page.None? ==> r == []
    ensures page.Some? && findNextData(page.value).None? ==> r == []
    ensures page.Some? && findNextData(page.value).Some? && parse(findNextData(page.value).value).None? ==> r == []
    ensures r != [] ==> page.Some? && findNextData(page.value).Some? && parse(findNextData(page.value).value).Some?
  {
    if page.None? then []
    else match findNextData(page.value)
      case None => []
      case Some(json) =>
        match parse(json)
        case None => []
        case Some(next) =>
          match next.initialData
          case None => []
          case Some(data) =>
            if data.calendar.None? || data.eventStartAts.None? then []
            else SynthesizeAll(data.eventStartAts.value, data.calendar.value, data.tags, now)
  }

  /** The payload behind a successful extraction, if there is one. */
  function Extracted(page: Option<string>, findNextData: string -> Option<string>, parse: string -> Option<NextData>): Option<CalendarData>
  {
    if page.None? then None
    else match findNextData(page.value)
      case None => None
      case Some(json) =>
        match parse(json)
        case None => None
        case Some(next) => next.initialData
  }

  /**
   * One event per start time, in order, when the payload is complete; none
   * when the page, the tag, the JSON, `initialData` or `calendar` is missing.
   */
  lemma ScrapeCount(page: Option<string>, findNextData: string -> Option<string>, parse: string -> Option<NextData>, now: int)
    ensures var d := Extracted(page, findNextData, parse);
      var r := Scrape(page, findNextData, parse, now);
      if d.Some? && d.value.calendar.Some? && d.value.eventStartAts.Some? then
        |r| == |d.value.eventStartAts.value|
        && (forall i :: 0 <= i < |r| ==> r[i].startDate == d.value.eventStartAts.value[i])
        && (forall i :: 0 <= i < |r| ==>
              r[i] == Synthesize(i, d.value.eventStartAts.value[i], d.value.calendar.value, d.value.tags, now))
      else r == []
  {
  }

  lemma PrefixedInjective(p: string, a: string, b: string)
    requires p + a == p + b
    ensures a == b
  {
    assert a == (p + a)[|p|..];
    assert b == (p + b)[|p|..];
  }

  /** What every scraped event looks like, read off its position. */
  lemma ScrapedEventShape(index: nat, start: int, cal: Calendar, tags: Option<seq<Tag>>, now: int)
    ensures var e := Synthesize(index, start, cal, tags, now);
      && e.id == "kaia-event-" + NatToString(index + 1)
      && e.registrationLink == "https://lu.ma/kaiachain/event-" + NatToString(index + 1)
      && e.description == TEMPLATES[index % 5].description
      && e.location == TEMPLATES[index % 5].locations[index % 4]
      && (index <= 4 ==> e.title == TEMPLATES[index].title)
      && (index > 4 ==> e.title == TEMPLATES[index % 5].title + " #" + NatToString(index / 5 + 1))
      && (e.status == Upcoming <==> start > now)
      && e.status != Ongoing
      && e.startDate == start
      && e.endDate.None?
      && (cal.coverImageUrl.Some? && cal.coverImageUrl.value != "" ==> e.imageUrl == cal.coverImageUrl)
      && (cal.coverImageUrl.None? || cal.coverImageUrl.value == "" ==> e.imageUrl == Some(DEFAULT_COVER))
      && (tags.None? ==> e.tags == Some(["kaia"]))
      && (tags.Some? ==> e.tags.Some? && |e.tags.value| == |tags.value|)
      && (tags.Some? ==> forall i :: 0 <= i < |tags.value| ==> e.tags.value[i] == tags.value[i].name)
  {
    var t := TEMPLATES[index % 5];
    assert |t.locations| == 4;
  }

  /** Links are pairwise distinct within one scrape, since they number the events. */
  lemma ScrapedLinksDistinct(page: Option<string>, findNextData: string -> Option<string>, parse: string -> Option<NextData>, now: int)
    ensures var r := Scrape(page, findNextData, parse, now);
      forall i, j :: 0 <= i < j < |r| ==> r[i].registrationLink != r[j].registrationLink
  {
    var r := Scrape(page, findNextData, parse, now);
    forall i, j | 0 <= i < j < |r|
      ensures r[i].registrationLink != r[j].registrationLink
    {
      if r[i].registrationLink == r[j].registrationLink {
        PrefixedInjective(EVENT_LINK_PREFIX, NatToString(i + 1), NatToString(j + 1));
        NatToStringInjective(i + 1, j + 1);
      }
    }
  }

  const FALLBACK_LINKS := [
    "https://lu.ma/kaia-dev-meetup-seoul",
    "https://lu.ma/kaia-hackathon-2024",
    "https://lu.ma/kaia-defi-summit",
    "https://lu.ma/kaia-community-ama"
  ]

  // Descriptions of the fallback events.
  const MEETUP_DESCRIPTION := "Join us for an exciting developer meetup in Seoul to explore Kaia blockchain technology, network with fellow developers, and learn about the latest updates in the Kaia ecosystem."
  const HACKATHON_DESCRIPTION := "A 3-day hackathon focused on building innovative dApps on the Kaia blockchain. Prizes, mentorship, and networking opportunities await!"
  const SUMMIT_DESCRIPTION := "Explore the future of DeFi on Kaia blockchain with industry leaders, developers, and enthusiasts."
  const AMA_DESCRIPTION := "Ask Me Anything session with the Kaia team. Get your questions answered about the roadmap, technology, and ecosystem."

  /** `createKaiaExampleEvents`: four hand-written events dated relative to `now`. */
  function Fallback(now: int): (r: seq<Event>)
    ensures |r| == 4
    ensures forall i :: 0 <= i < 4 ==> r[i] == FallbackEvent(i, now)
  {
    seq(4, i requires 0 <= i < 4 => FallbackEvent(i, now))
  }

  function FallbackEvent(i: nat, now: int): (e: Event)
    requires i < 4
    ensures e.registrationLink == FALLBACK_LINKS[i]
  {
    if i == 0 then
      Event("kaia-dev-meetup-seoul", "Kaia Developer Meetup - Seoul",
        MEETUP_DESCRIPTION,
        now + 30 * DAY_MS, None, "Seoul, South Korea", FALLBACK_LINKS[0],
        Some(DEFAULT_COVER), Upcoming, Some(["kaia", "developer", "seoul", "meetup"]))
    else if i == 1 then
      Event("kaia-hackathon-2024", "Kaia Hackathon 2024",
        HACKATHON_DESCRIPTION,
        now + 45 * DAY_MS, Some(now + 47 * DAY_MS), "Singapore", FALLBACK_LINKS[1],
        Some(DEFAULT_COVER), Upcoming, Some(["kaia", "hackathon", "singapore", "dapp"]))
    else if i == 2 then
      Event("kaia-defi-summit", "Kaia DeFi Summit",
        SUMMIT_DESCRIPTION,
        now + 60 * DAY_MS, None, "Bangkok, Thailand", FALLBACK_LINKS[2],
        Some(DEFAULT_COVER), Upcoming, Some(["kaia", "defi", "bangkok", "summit"]))
    else
      Event("kaia-community-ama", "Kaia Community AMA",
        AMA_DESCRIPTION,
        now - 5 * DAY_MS, None, "Online", FALLBACK_LINKS[3],
        Some(DEFAULT_COVER), Past, Some(["kaia", "ama", "community", "online"]))
  }

  /** The fallback links are pairwise distinct, and the set's one end date follows its start. */
  lemma FallbackWellFormed(now: int)
    ensures var r := Fallback(now);
      && (forall i, j :: 0 <= i < j < |r| ==> r[i].registrationLink != r[j].registrationLink)
      && (forall i :: 0 <= i < |r| && r[i].endDate.Some? ==> r[i].endDate.value >= r[i].startDate)
  {
    var l := FALLBACK_LINKS;
    assert |l[0]| == 35 && |l[1]| == 33 && |l[2]| == 30 && |l[3]| == 32;
    assert FallbackEvent(1, now).endDate == Some(now + 47 * DAY_MS);
  }
}
