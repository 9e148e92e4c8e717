/**
  The two scraper scripts: the listing loop that pairs the four element
  lists of the events page by position and inserts one row per card, the
  per-event roster fetch `all_fights`, and the scripts' main blocks.

  HTML parsing is replaced by its results: each card's four elements are
  records whose optional fields say whether the looked-up child tag or
  attribute was there, and an event page is the list of its names-rows.
  A Python exception escaping the loop ends the script; rows inserted
  before it stay committed.
 */
module Scraper {
  import opened Wrappers
  import opened Strings
  import opened Derive
  import opened EventStore
  import opened Upcoming

  // ---------------------------------------------------------------------
  // What the parser finds
  // ---------------------------------------------------------------------

  /** An `<a>` tag: its text, and its `href` attribute when it has one. */
  datatype Link = Link(text: string, href: Option<string>)

  /** An `h3.c-card-event--result__headline`: its first `<a>`, if any. */
  datatype Headline = Headline(a: Option<Link>)

  /** A `div.c-card-event--result__date`: its first `<a>`, if any. */
  datatype DateBlock = DateBlock(a: Option<Link>)

  /** A `div.field--name-taxonomy-term-title`: the text of its first `<h5>`, if any. */
  datatype VenueBlock = VenueBlock(h5: Option<string>)

  /** A `div.field--name-location`: the text of its first `<span>`, if any. */
  datatype LocationBlock = LocationBlock(span: Option<string>)

  /** The four elements `zip` puts together for one card. */
  datatype Card = Card(title: Headline, date: DateBlock, venue: VenueBlock, location: LocationBlock)

  /**
    A `div.c-listing-fight__names-row` of an event page: the `href` of the
    red and of the blue corner's athlete link, `None` when the corner div,
    its `<a>` or the attribute is missing.
   */
  datatype NamesRow = NamesRow(red: Option<string>, blue: Option<string>)

  /** Fetching an event page by full URL and finding its names-rows, in document order. */
  type EventPages = string -> seq<NamesRow>

  /** How a listing loop ended. */
  datatype Outcome = Completed | Aborted(error: ScrapeError)

  /** The newer script stops after this many cards. */
  const MaxEvents: nat := 8

  function Min(a: int, b: int): int { if a <= b then a else b }

  /** Python `zip` of the four element lists: as many cards as the shortest list. */
  function Zip4(titles: seq<Headline>, dates: seq<DateBlock>, venues: seq<VenueBlock>,
                locations: seq<LocationBlock>): (cards: seq<Card>)
    ensures |cards| == Min(Min(|titles|, |dates|), Min(|venues|, |locations|))
    ensures forall i :: 0 <= i < |cards| ==>
      cards[i] == Card(titles[i], dates[i], venues[i], locations[i])
  {
    var n := Min(Min(|titles|, |dates|), Min(|venues|, |locations|));
    seq(n, i requires 0 <= i < n => Card(titles[i], dates[i], venues[i], locations[i]))
  }

  // ---------------------------------------------------------------------
  // all_fights
  // ---------------------------------------------------------------------

  /**
    The roster `all_fights` builds from the names-rows, or the error it
    raises at the first row that lacks a corner link.
   */
  function Roster(rows: seq<NamesRow>): Result<seq<string>, ScrapeError>
  {
    if rows == [] then Ok([])
    else
      match Roster(rows[..|rows| - 1])
      case Err(e) => Err(e)
      case Ok(done) =>
        var last := rows[|rows| - 1];
        if last.red.None? || last.blue.None? then Err(MissingAttribute("href"))
        else Ok(done + [Pairing(FighterToken(last.red.value), FighterToken(last.blue.value))])
  }

  /** Both corners of the row carry an athlete link. */
  predicate HasBothLinks(row: NamesRow)
  {
    row.red.Some? && row.blue.Some?
  }

  /**
    `all_fights` succeeds exactly when every names-row has both corner
    links, and then yields one `"<red> vs <blue>"` entry per row, in
    document order, made of the two fighter tokens.
   */
  lemma {:induction false} RosterSpec(rows: seq<NamesRow>)
    ensures Roster(rows).Ok? <==> forall i :: 0 <= i < |rows| ==> HasBothLinks(rows[i])
    ensures Roster(rows).Ok? ==>
      var roster := Roster(rows).value;
      |roster| == |rows| &&
      forall i :: 0 <= i < |rows| ==>
        roster[i] == Pairing(FighterToken(rows[i].red.value), FighterToken(rows[i].blue.value))
    decreases |rows|
  {
    if rows != [] {
      var front := rows[..|rows| - 1];
      RosterSpec(front);
      assert forall i :: 0 <= i < |front| ==> front[i] == rows[i];
    }
  }

  /**
    Each roster entry of links without spaces splits on `" vs "` back into
    the red token and the blue token.
   */
  lemma RosterEntriesSplit(rows: seq<NamesRow>, i: nat)
    requires Roster(rows).Ok? && i < |rows| && HasBothLinks(rows[i])
    requires ' ' !in rows[i].red.value && ' ' !in rows[i].blue.value
    ensures i < |Roster(rows).value|
    ensures Split(Roster(rows).value[i], " vs ") ==
      [FighterToken(rows[i].red.value), FighterToken(rows[i].blue.value)]
  {
    RosterSpec(rows);
    FighterTokenSpec(rows[i].red.value);
    FighterTokenSpec(rows[i].blue.value);
    PairingSplits(FighterToken(rows[i].red.value), FighterToken(rows[i].blue.value));
  }

  /** Once a prefix of the rows fails, the whole roster fails with the same error. */
  lemma {:induction false} RosterErrStays(rows: seq<NamesRow>, n: nat)
    requires n <= |rows| && Roster(rows[..n]).Err?
    ensures Roster(rows) == Roster(rows[..n])
    decreases |rows|
  {
    if n < |rows| {
      var front := rows[..|rows| - 1];
      assert front[..n] == rows[..n];
      RosterErrStays(front, n);
    } else {
      assert rows[..n] == rows;
    }
  }

  /** `all_fights(url)`: fetch the event page and append one pairing per names-row. */
  method AllFights(url: string, pages: EventPages) returns (roster: Result<seq<string>, ScrapeError>)
    ensures roster == Roster(pages(url))
  {
    var fighterDivs := pages(url);
    var fightRoster: seq<string> := [];
    for i := 0 to |fighterDivs|
      invariant Roster(fighterDivs[..i]) == Ok(fightRoster)
    {
      assert fighterDivs[..i + 1][..i] == fighterDivs[..i];
      var row := fighterDivs[i];
      if row.red.None? || row.blue.None? {
        RosterErrStays(fighterDivs, i + 1);
        return Err(MissingAttribute("href"));
      }
      var fighter1 := FighterToken(row.red.value);
      var fighter2 := FighterToken(row.blue.value);
      fightRoster := fightRoster + [Pairing(fighter1, fighter2)];
    }
    assert fighterDivs[..|fighterDivs|] == fighterDivs;
    roster := Ok(fightRoster);
  }

  // ---------------------------------------------------------------------
  // One card
  // ---------------------------------------------------------------------

  /** `venue_h5.text.strip() if venue_h5 is not None else "N/A"`. */
  function VenueText(venue: VenueBlock): string
  {
    match venue.h5
    case Some(text) => Strip(text)
    case None => "N/A"
  }

  /** `venue_location.find('span').text.strip() if venue_location.find('span') else "N/A"`. */
  function LocationText(location: LocationBlock): string
  {
    match location.span
    case Some(text) => Strip(text)
    case None => "N/A"
  }

  /**
    The fields both scripts read first, in their order: the title text, the
    cleaned date, the event path and its type tag, and the roster of the
    event page; or the first error raised on the way.
   */
  function CardCore(card: Card, pages: EventPages)
    : Result<(string, string, string, string, seq<string>), ScrapeError>
  {
    if card.title.a.None? then Err(MissingElement("title.a"))
    else if card.date.a.None? then Err(MissingElement("date.a"))
    else if card.title.a.value.href.None? then Err(MissingAttribute("href"))
    else
      var eventUrl := card.title.a.value.href.value;
      match EventType(eventUrl)
      case Err(e) => Err(e)
      case Ok(eventType) =>
        match Roster(pages(SiteRoot + eventUrl))
        case Err(e) => Err(e)
        case Ok(fighters) =>
          Ok((card.title.a.value.text, CleanDate(card.date.a.value.text), eventUrl, eventType, fighters))
  }

  /** The row the newer script inserts for one card, or the error it raises. */
  function NewerCardRow(card: Card, pages: EventPages): Result<Row, ScrapeError>
  {
    match CardCore(card, pages)
    case Err(e) => Err(e)
    case Ok((title, date, url, eventType, fighters)) =>
      Ok(Row(title, date, url, eventType, fighters, VenueText(card.venue), LocationText(card.location)))
  }

  /**
    The row the older script inserts for one card, or the error it raises:
    an empty roster fails its main-card line, and the stored location is
    whatever `find('span class')` gave, here the opaque `storedLocation`.
   */
  function OlderCardRow(card: Card, pages: EventPages, storedLocation: LocationBlock -> string)
    : Result<Row, ScrapeError>
  {
    match CardCore(card, pages)
    case Err(e) => Err(e)
    case Ok((title, date, url, eventType, fighters)) =>
      match MainCard(fighters)
      case Err(e) => Err(e)
      case Ok(_) => Ok(Row(title, date, url, eventType, fighters, VenueText(card.venue), storedLocation(card.location)))
  }

  /** Text with no whitespace at either end. */
  predicate Trimmed(t: string)
  {
    t != [] ==> !IsSpace(t[0]) && !IsSpace(t[|t| - 1])
  }

  /**
    The fields both scripts read succeed exactly when the title and date
    links exist, the title link has an href holding at least two `/`, and
    the event page's roster builds; the URL is then the href, the type tag
    fits its column and holds no `-`, and the date is the date link's text
    cleaned, so it holds no `/`.
   */
  lemma CardCoreSpec(card: Card, pages: EventPages)
    ensures CardCore(card, pages).Ok? <==>
      && card.title.a.Some? && card.date.a.Some? && card.title.a.value.href.Some?
      && Count(card.title.a.value.href.value, '/') >= 2
      && Roster(pages(SiteRoot + card.title.a.value.href.value)).Ok?
    ensures CardCore(card, pages).Ok? ==>
      var (title, date, url, eventType, fighters) := CardCore(card, pages).value;
      && title == card.title.a.value.text
      && url == card.title.a.value.href.value
      && EventType(url) == Ok(eventType) && |eventType| <= EventTypeWidth && '-' !in eventType
      && date == CleanDate(card.date.a.value.text) && '/' !in date
      && Roster(pages(SiteRoot + url)) == Ok(fighters)
  {
    if card.title.a.Some? && card.date.a.Some? && card.title.a.value.href.Some? {
      EventTypeSpec(card.title.a.value.href.value);
      CleanDateSpec(card.date.a.value.text);
    }
  }

  /**
    The venue text is "N/A" when there is no `<h5>`, and is otherwise that
    element's text stripped, so it is trimmed.
   */
  lemma VenueTextSpec(venue: VenueBlock)
    ensures venue.h5.None? ==> VenueText(venue) == "N/A"
    ensures venue.h5.Some? ==> VenueText(venue) == Strip(venue.h5.value)
    ensures Trimmed(VenueText(venue))
  {
    if venue.h5.Some? {
      StripSpec(venue.h5.value);
    }
  }

  /**
    The location text is "N/A" when there is no `<span>`, and is otherwise
    that element's text stripped, so it is trimmed.
   */
  lemma LocationTextSpec(location: LocationBlock)
    ensures location.span.None? ==> LocationText(location) == "N/A"
    ensures location.span.Some? ==> LocationText(location) == Strip(location.span.value)
    ensures Trimmed(LocationText(location))
  {
    if location.span.Some? {
      StripSpec(location.span.value);
    }
  }

  /**
    The newer script stores a row for a card exactly when the fields it
    reads all succeed; its date is then the date link's text cleaned, and
    its venue and location are the stripped texts of the `<h5>` and the
    `<span>`, or the "N/A" fallback where those are missing.
   */
  lemma NewerCardRowSpec(card: Card, pages: EventPages)
    ensures NewerCardRow(card, pages).Ok? <==> CardCore(card, pages).Ok?
    ensures NewerCardRow(card, pages).Ok? ==>
      var row := NewerCardRow(card, pages).value;
      && (row.title, row.date, row.url, row.eventType, row.fighters) == CardCore(card, pages).value
      && row.date == CleanDate(card.date.a.value.text) && '/' !in row.date
      && Trimmed(row.venue) && (card.venue.h5.None? ==> row.venue == "N/A")
      && (card.venue.h5.Some? ==> row.venue == Strip(card.venue.h5.value))
      && Trimmed(row.location) && (card.location.span.None? ==> row.location == "N/A")
      && (card.location.span.Some? ==> row.location == Strip(card.location.span.value))
  {
    CardCoreSpec(card, pages);
    VenueTextSpec(card.venue);
    LocationTextSpec(card.location);
  }

  /** The older script rejects exactly the cards the newer one rejects, plus those with an empty roster. */
  lemma OlderCardRowSpec(card: Card, pages: EventPages, storedLocation: LocationBlock -> string)
    ensures OlderCardRow(card, pages, storedLocation).Ok? <==>
      NewerCardRow(card, pages).Ok? && |NewerCardRow(card, pages).value.fighters| > 0
    ensures OlderCardRow(card, pages, storedLocation).Ok? ==>
      OlderCardRow(card, pages, storedLocation).value ==
        NewerCardRow(card, pages).value.(location := storedLocation(card.location))
  {
    if CardCore(card, pages).Ok? {
      MainCardSpec(CardCore(card, pages).value.4);
    }
  }

  /** The loop body of the newer script for one card, up to its insert. */
  method ExtractNewer(card: Card, pages: EventPages) returns (row: Result<Row, ScrapeError>)
    ensures row == NewerCardRow(card, pages)
  {
    if card.title.a.None? {
      return Err(MissingElement("title.a"));
    }
    var eventTitle := card.title.a.value.text;
    if card.date.a.None? {
      return Err(MissingElement("date.a"));
    }
    var eventDate := CleanDate(card.date.a.value.text);
    if card.title.a.value.href.None? {
      return Err(MissingAttribute("href"));
    }
    var eventUrl := card.title.a.value.href.value;
    var fullEventUrl := SiteRoot + eventUrl;
    var eventType := EventType(eventUrl);
    if eventType.Err? {
      return Err(eventType.error);
    }
    var fighters := AllFights(fullEventUrl, pages);
    if fighters.Err? {
      return Err(fighters.error);
    }
    var eventVenue := VenueText(card.venue);
    var eventLocation := LocationText(card.location);
    row := Ok(Row(eventTitle, eventDate, eventUrl, eventType.value, fighters.value, eventVenue, eventLocation));
  }

  /** The loop body of the older script for one card, up to its insert. */
  method ExtractOlder(card: Card, pages: EventPages, storedLocation: LocationBlock -> string)
    returns (row: Result<Row, ScrapeError>)
    ensures row == OlderCardRow(card, pages, storedLocation)
  {
    if card.title.a.None? {
      return Err(MissingElement("title.a"));
    }
    var eventTitle := card.title.a.value.text;
    if card.date.a.None? {
      return Err(MissingElement("date.a"));
    }
    var eventDate := CleanDate(card.date.a.value.text);
    if card.title.a.value.href.None? {
      return Err(MissingAttribute("href"));
    }
    var eventUrl := card.title.a.value.href.value;
    var fullEventUrl := SiteRoot + eventUrl;
    var eventType := EventType(eventUrl);
    if eventType.Err? {
      return Err(eventType.error);
    }
    var fighters := AllFights(fullEventUrl, pages);
    if fighters.Err? {
      return Err(fighters.error);
    }
    var eventMainCard := MainCard(fighters.value);
    if eventMainCard.Err? {
      return Err(eventMainCard.error);
    }
    var eventVenue := VenueText(card.venue);
    var eventLocation := storedLocation(card.location);
    row := Ok(Row(eventTitle, eventDate, eventUrl, eventType.value, fighters.value, eventVenue, eventLocation));
  }

  // ---------------------------------------------------------------------
  // The listing loop
  // ---------------------------------------------------------------------

  /**
    The rows a listing loop inserts, card after card, until the cards run
    out or one raises, and how it ended.
   */
  function Harvest(cards: seq<Card>, extract: Card -> Result<Row, ScrapeError>): (seq<Row>, Outcome)
  {
    if cards == [] then ([], Completed)
    else
      var (done, outcome) := Harvest(cards[..|cards| - 1], extract);
      if outcome.Aborted? then (done, outcome)
      else match extract(cards[|cards| - 1])
        case Err(e) => (done, Aborted(e))
        case Ok(row) => (done + [row], Completed)
  }

  /**
    The loop inserts the rows of a prefix of the cards, one per card and in
    order; it completes exactly when every card yields a row, and when it
    aborts, it does so with the error of the first card that did not.
   */
  lemma {:induction false} HarvestSpec(cards: seq<Card>, extract: Card -> Result<Row, ScrapeError>)
    ensures var (rows, outcome) := Harvest(cards, extract);
      && |rows| <= |cards|
      && (forall i :: 0 <= i < |rows| ==> extract(cards[i]) == Ok(rows[i]))
      && (outcome.Completed? <==> forall i :: 0 <= i < |cards| ==> extract(cards[i]).Ok?)
      && (outcome.Completed? ==> |rows| == |cards|)
      && (outcome.Aborted? ==> |rows| < |cards| && extract(cards[|rows|]) == Err(outcome.error))
    decreases |cards|
  {
    if cards != [] {
      var front := cards[..|cards| - 1];
      HarvestSpec(front, extract);
      assert forall i :: 0 <= i < |front| ==> front[i] == cards[i];
    }
  }

  /** Once the loop has aborted on a prefix of the cards, the later cards change nothing. */
  lemma {:induction false} HarvestAbortedStays(cards: seq<Card>, extract: Card -> Result<Row, ScrapeError>, n: nat)
    requires n <= |cards| && Harvest(cards[..n], extract).1.Aborted?
    ensures Harvest(cards, extract) == Harvest(cards[..n], extract)
    decreases |cards|
  {
    if n < |cards| {
      var front := cards[..|cards| - 1];
      assert front[..n] == cards[..n];
      HarvestAbortedStays(front, extract, n);
    } else {
      assert cards[..n] == cards;
    }
  }

  /** One more card, after a prefix that completed. */
  lemma HarvestStep(cards: seq<Card>, extract: Card -> Result<Row, ScrapeError>, i: nat, done: seq<Row>)
    requires i < |cards| && Harvest(cards[..i], extract) == (done, Completed)
    ensures Harvest(cards[..i + 1], extract) ==
      match extract(cards[i])
      case Err(e) => (done, Aborted(e))
      case Ok(row) => (done + [row], Completed)
  {
    assert cards[..i + 1][..i] == cards[..i];
  }

  /** The newer script's extraction, as the function the loop applies to each card. */
  function NewerExtract(pages: EventPages): Card -> Result<Row, ScrapeError>
  {
    c => NewerCardRow(c, pages)
  }

  /** The older script's extraction, as the function the loop applies to each card. */
  function OlderExtract(pages: EventPages, storedLocation: LocationBlock -> string): Card -> Result<Row, ScrapeError>
  {
    c => OlderCardRow(c, pages, storedLocation)
  }

  /**
    The newer script inserts at most 8 rows, and when it completes, one
    for each of the first 8 cards, or for every card when there are fewer.
   */
  lemma NewerListingCount(cards: seq<Card>, pages: EventPages)
    ensures var (rows, outcome) := Harvest(Slice(cards, MaxEvents), NewerExtract(pages));
      && |rows| <= MaxEvents
      && (outcome.Completed? ==> |rows| == Min(|cards|, MaxEvents))
  {
    HarvestSpec(Slice(cards, MaxEvents), NewerExtract(pages));
  }

  /**
    The newer script's loop: `zip` the four lists, stop once `event_count`
    reaches 8, and insert each card's row as soon as it is built.
   */
  method ListingLoopNewer(db: Database, titles: seq<Headline>, dates: seq<DateBlock>,
                          venues: seq<VenueBlock>, locations: seq<LocationBlock>, pages: EventPages)
    returns (outcome: Outcome)
    requires db.Valid() && db.tableExists
    modifies db
    ensures db.Valid() && db.tableExists
    ensures var (rows, o) := Harvest(Slice(Zip4(titles, dates, venues, locations), MaxEvents),
                                     NewerExtract(pages));
      outcome == o && db.events == InsertAll(old(db.events), rows)
  {
    var cards := Zip4(titles, dates, venues, locations);
    var extract := NewerExtract(pages);
    ghost var inserted: seq<Row> := [];
    var eventCount := 0;
    var i := 0;
    while i < |cards|
      invariant 0 <= i <= |cards| && eventCount == i <= MaxEvents
      invariant db.Valid() && db.tableExists
      invariant Harvest(cards[..i], extract) == (inserted, Completed)
      invariant db.events == InsertAll(old(db.events), inserted)
    {
      if eventCount >= MaxEvents {
        break;
      }
      var row := ExtractNewer(cards[i], pages);
      HarvestStep(cards, extract, i, inserted);
      if row.Err? {
        assert Slice(cards, MaxEvents)[..i + 1] == cards[..i + 1];
        HarvestAbortedStays(Slice(cards, MaxEvents), extract, i + 1);
        return Aborted(row.error);
      }
      var r := row.value;
      var ok := db.InsertEvent(r.title, r.date, r.url, r.eventType, r.fighters, r.venue, r.location);
      InsertAllSnoc(old(db.events), inserted, r);
      inserted := inserted + [r];
      eventCount := eventCount + 1;
      i := i + 1;
    }
    assert Slice(cards, MaxEvents) == cards[..i];
    outcome := Completed;
  }

  /**
    The older script's loop: `zip` the four lists and insert each card's
    row, with no cap on the number of cards.
   */
  method ListingLoopOlder(db: Database, titles: seq<Headline>, dates: seq<DateBlock>,
                          venues: seq<VenueBlock>, locations: seq<LocationBlock>, pages: EventPages,
                          storedLocation: LocationBlock -> string)
    returns (outcome: Outcome)
    requires db.Valid() && db.tableExists
    modifies db
    ensures db.Valid() && db.tableExists
    ensures var (rows, o) := Harvest(Zip4(titles, dates, venues, locations),
                                     OlderExtract(pages, storedLocation));
      outcome == o && db.events == InsertAll(old(db.events), rows)
  {
    var cards := Zip4(titles, dates, venues, locations);
    var extract := OlderExtract(pages, storedLocation);
    ghost var inserted: seq<Row> := [];
    for i := 0 to |cards|
      invariant db.Valid() && db.tableExists
      invariant Harvest(cards[..i], extract) == (inserted, Completed)
      invariant db.events == InsertAll(old(db.events), inserted)
    {
      var row := ExtractOlder(cards[i], pages, storedLocation);
      HarvestStep(cards, extract, i, inserted);
      if row.Err? {
        HarvestAbortedStays(cards, extract, i + 1);
        return Aborted(row.error);
      }
      var r := row.value;
      var ok := db.InsertEvent(r.title, r.date, r.url, r.eventType, r.fighters, r.venue, r.location);
      InsertAllSnoc(old(db.events), inserted, r);
      inserted := inserted + [r];
    }
    assert cards[..|cards|] == cards;
    outcome := Completed;
  }

  // ---------------------------------------------------------------------
  // The scripts' main blocks
  // ---------------------------------------------------------------------

  /**
    What one scrape leaves in a table it started empty: a row for exactly
    the URLs inserted, each holding the last row inserted for it, and no
    more rows than inserts.
   */
  lemma FreshTable(rows: seq<Row>)
    ensures InsertAll(map[], rows).Keys == Urls(rows)
    ensures |InsertAll(map[], rows)| <= |rows|
    ensures KeyedByUrl(InsertAll(map[], rows))
    ensures forall i :: 0 <= i < |rows| && (forall j :: i < j < |rows| ==> rows[j].url != rows[i].url) ==>
      InsertAll(map[], rows)[rows[i].url] == rows[i]
  {
    InsertAllKeys(map[], rows);
    InsertAllSize(map[], rows);
    forall i | 0 <= i < |rows| && (forall j :: i < j < |rows| ==> rows[j].url != rows[i].url)
      ensures InsertAll(map[], rows)[rows[i].url] == rows[i]
    {
      InsertAllLastWins(map[], rows, i);
    }
  }

  /**
    The newer script: drop and recreate `events`, run the listing loop,
    then `query_database(limit=8)` if the loop completed. The table then
    holds at most 8 rows, one per URL inserted; `fetched` is what the
    query's `SELECT *` returned, every stored row once, and the query's
    result is `Query` of it: the earliest upcoming rows, at most 8, or the
    error of a stored date the sort key cannot parse.
   */
  method RunNewerScript(db: Database, titles: seq<Headline>, dates: seq<DateBlock>,
                        venues: seq<VenueBlock>, locations: seq<LocationBlock>, pages: EventPages,
                        now: int, parse: DateParser)
    returns (outcome: Outcome, fetched: seq<Row>, upcoming: Option<Result<seq<Row>, ScrapeError>>)
    requires db.Valid()
    modifies db
    ensures db.Valid() && db.tableExists
    ensures var (rows, o) := Harvest(Slice(Zip4(titles, dates, venues, locations), MaxEvents),
                                     NewerExtract(pages));
      && outcome == o
      && db.events == InsertAll(map[], rows)
      && db.events.Keys == Urls(rows)
      && |db.events| <= MaxEvents
    ensures upcoming.Some? <==> outcome.Completed?
    ensures outcome.Aborted? ==> fetched == []
    ensures outcome.Completed? ==>
      && |fetched| == |db.events|
      && (forall i :: 0 <= i < |fetched| ==> fetched[i].url in db.events && db.events[fetched[i].url] == fetched[i])
      && (forall i, j :: 0 <= i < j < |fetched| ==> fetched[i].url != fetched[j].url)
      && (forall k :: k in db.events ==> k in Urls(fetched))
    ensures upcoming.Some? ==> upcoming.value == Query(fetched, DefaultLimit, now, parse)
    ensures upcoming.Some? && upcoming.value.Ok? ==>
      var r := upcoming.value.value;
      && |r| <= DefaultLimit
      && SortedByDate(r, parse)
      && forall i :: 0 <= i < |r| ==>
           r[i].url in db.events && db.events[r[i].url] == r[i] && IsUpcoming(r[i], now, parse)
  {
    db.DropTable();
    db.CreateTable();
    outcome := ListingLoopNewer(db, titles, dates, venues, locations, pages);
    ghost var cards := Slice(Zip4(titles, dates, venues, locations), MaxEvents);
    ghost var rows := Harvest(cards, NewerExtract(pages)).0;
    HarvestSpec(cards, NewerExtract(pages));
    FreshTable(rows);
    if outcome.Aborted? {
      fetched, upcoming := [], None;
      return;
    }
    var ok;
    ok, fetched := db.SelectAll();
    var result := QueryDatabase(fetched, DefaultLimit, now, parse);
    QueryWindow(fetched, DefaultLimit, now, parse);
    QueryOnlyUpcoming(fetched, DefaultLimit, now, parse);
    upcoming := Some(result);
  }

  /**
    The older script: drop and recreate `events`, then run its listing loop
    over every card. The table then holds one row per URL inserted.
   */
  method RunOlderScript(db: Database, titles: seq<Headline>, dates: seq<DateBlock>,
                        venues: seq<VenueBlock>, locations: seq<LocationBlock>, pages: EventPages,
                        storedLocation: LocationBlock -> string)
    returns (outcome: Outcome)
    requires db.Valid()
    modifies db
    ensures db.Valid() && db.tableExists
    ensures var (rows, o) := Harvest(Zip4(titles, dates, venues, locations),
                                     OlderExtract(pages, storedLocation));
      && outcome == o
      && db.events == InsertAll(map[], rows)
      && db.events.Keys == Urls(rows)
  {
    db.DropTable();
    db.CreateTable();
    outcome := ListingLoopOlder(db, titles, dates, venues, locations, pages, storedLocation);
    ghost var rows := Harvest(Zip4(titles, dates, venues, locations), OlderExtract(pages, storedLocation)).0;
    FreshTable(rows);
  }
}
