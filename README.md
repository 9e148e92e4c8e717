# UFC events scraper and viewer — a Dafny model

This project models the core of a small UFC events scraper and its web client.

Two Python scripts read the public events listing and the page of each event:
- `ufc_python_webscrapper/webscrapper_ufc.py` is the newer script.
- `webscrapper_ufc.py` is the older one.

For each event card, the scripts derive these fields:
- the title;
- a cleaned date text;
- the event path, which is the primary key;
- a short event-type tag;
- the "red vs blue" fight roster;
- the venue and the location.

Each card's row is upserted into a MySQL `events` table. The newer script stops after 8 cards and then asks the table for the next upcoming events, ordered by date. The older script has no cap, and it also builds a main-card title from the first fight.

The React client (`ufc_nodejs_api/client/src/Events.js`) does two things modelled here. It shows a countdown to each event, rolling the date over to next year once this year's date has passed. It also filters the list by a case-insensitive search term.

Modules:

- `Wrappers`: `Option` and `Result`.
- `Strings`: the string operations the sources rely on, over `seq<char>`:
  - Python's `str.replace`, `split`, `join`, `strip`, `title` and `[:n]` slicing;
  - JavaScript's `includes` and `toLowerCase`.
- `Derive`: the field derivations, which are the cleaned date, the event type, the fighter token, the pairing and the main card. It also holds the exceptions the scripts let escape (`ScrapeError`).
- `EventStore`:
  - the table as a map from `event_url` to its row, with upsert as a map update;
  - the class `Database`, whose fields are updated in place by `DROP TABLE`, `create_table` and `insert_event`, and read by `SELECT *`.
- `Upcoming`: the newer script's `query_database(limit)`, as a method with one loop, the filter over the fetched rows. The sort keys, the sort and the slice are calls to functions. The method is proved equal to a specification function, and that function's properties are proved as lemmas.
- `Scraper`: what the parser finds, as records, plus:
  - `all_fights`;
  - the per-card extraction of each script;
  - the two listing loops, as methods over a `Database`;
  - the two scripts' main blocks.
- `Countdown`: `getTimeUntilEvent` and `parseEventDate`.
- `Search`: the client's search filter.

Behaviour of the code that the model keeps, though a reader might expect otherwise:

- A names-row of an event page without a red or blue athlete link raises in `all_fights`. The exception ends the whole script; the pairing is not skipped. `Scraper.Roster` returns an error for it.
- Any exception while processing a card ends the whole run. Rows inserted before it stay stored. Nothing skips the failing card and goes on. `Scraper.Harvest` stops at the first failing card.
- A missing title link, date link or `href` on a card raises. The `"N/A"` fallback is used only for a missing venue `<h5>` and location `<span>`.
- Both scripts drop and recreate `events` on every run, so rows of earlier runs are lost.
- Neither script waits or retries. Neither checks the HTTP status of a response: an error page (403, 404, 5xx) is parsed like any other. An event page without names-rows gives an empty roster. The newer script stores that empty roster; the older one raises IndexError when it builds the main card. The model covers both through `pages(url) == []`.

Collaborators that cannot be seen are parameters of the model:

- The date parser `dateutil.parser.parse` is `parse: string -> Option<int>`. It maps a date text to an instant, or to `None` where it raises ValueError.
- An event page is `pages: string -> seq<NamesRow>`, keyed by the full URL.
- The client's regular expression is a `Matcher`.
- `new Date(text)` is a `DateBuilder`, and `None` stands for an Invalid Date.
- The clock is one instant `now`, and the year `currentYear` it falls in.
- The older script stores as its location whatever `find('span class')` returned. That value is a parameter `storedLocation`.

## Model

| member | source | states |
|---|---|---|
| Strings.IncludesIff | ufc_nodejs_api/client/src/Events.js:19-21 | `includes` holds exactly when the pattern occurs at some offset |
| Strings.Includes | ufc_nodejs_api/client/src/Events.js:19-21 | JavaScript `includes`, trying every offset from the left; IncludesIff states when it holds |
| Strings.Lower | ufc_nodejs_api/client/src/Events.js:19-21 | `toLowerCase` keeps the length, leaves no upper-case letter and changes nothing but the case of letters |
| Strings.Count | ufc_python_webscrapper/webscrapper_ufc.py:150 | the number of occurrences of a character is at most the length, and is zero exactly when the character is absent |
| Strings.ReplaceAbsent | ufc_python_webscrapper/webscrapper_ufc.py:147 | `replace` leaves text alone when the pattern's first character does not occur in it |
| Strings.ReplaceCharGone | ufc_python_webscrapper/webscrapper_ufc.py:147 | after replacing a single character by text that lacks it, the character no longer occurs |
| Strings.ReplaceKeepsAbsent | ufc_python_webscrapper/webscrapper_ufc.py:134-135 | `replace` introduces no character that neither the input nor the replacement holds |
| Strings.ReplaceCharByChar | ufc_python_webscrapper/webscrapper_ufc.py:147 | replacing one character by another keeps the length and maps position by position |
| Strings.ReplaceShrinks | ufc_python_webscrapper/webscrapper_ufc.py:147 | replacing a pattern by something no longer never lengthens the text |
| Strings.Replace | ufc_python_webscrapper/webscrapper_ufc.py:147 | Python `str.replace`; defined by its cases, with its results stated by ReplaceIsSplitJoin, ReplaceAbsent, ReplaceCharByChar, ReplaceCharGone and ReplaceShrinks |
| Strings.Split | ufc_python_webscrapper/webscrapper_ufc.py:150 | `split` on a non-empty separator yields at least one piece |
| Strings.ReplaceIsSplitJoin | ufc_python_webscrapper/webscrapper_ufc.py:150 | `replace(pat, rep)` equals splitting on `pat` and joining with `rep` |
| Strings.Join | ufc_python_webscrapper/webscrapper_ufc.py:150 | Python `sep.join(parts)`; JoinSplitRoundTrip makes it the inverse of `split` and ReplaceIsSplitJoin ties it to `replace` |
| Strings.JoinSplitRoundTrip | ufc_python_webscrapper/webscrapper_ufc.py:150 | joining the pieces of a split with the same separator restores the text |
| Strings.ReplaceSelf | ufc_python_webscrapper/webscrapper_ufc.py:147 | replacing a pattern by itself changes nothing |
| Strings.SplitCharCount | ufc_python_webscrapper/webscrapper_ufc.py:150 | splitting on one character yields one more piece than it has occurrences |
| Strings.SplitCharPieces | ufc_python_webscrapper/webscrapper_ufc.py:150 | no piece of a split on one character contains that character |
| Strings.SplitClearPrefix | ufc_python_webscrapper/webscrapper_ufc.py:136 | a leading stretch free of the separator's first character is glued to the front of the first piece of the rest's split |
| Strings.Slice | ufc_python_webscrapper/webscrapper_ufc.py:100 | Python `[:n]` is a prefix of length `n` clamped to the length, and for negative `n` all but the last `-n` |
| Strings.StripStart | ufc_python_webscrapper/webscrapper_ufc.py:79 | `lstrip` drops exactly the leading whitespace run |
| Strings.StripEnd | ufc_python_webscrapper/webscrapper_ufc.py:79 | `rstrip` drops exactly the trailing whitespace run |
| Strings.Strip | ufc_python_webscrapper/webscrapper_ufc.py:154 | Python `str.strip` as `rstrip` after `lstrip`; its result is stated by StripSpec and StripIdempotent |
| Strings.StripSpec | ufc_python_webscrapper/webscrapper_ufc.py:154 | `strip` keeps one contiguous piece, with only whitespace around it, that neither starts nor ends with whitespace |
| Strings.StripIdempotent | ufc_python_webscrapper/webscrapper_ufc.py:156 | stripping twice is stripping once |
| Strings.TitleFromChangesOnlyCase | webscrapper_ufc.py:140 | `title` keeps the length and changes letters only in case |
| Strings.TitleFromIdempotent | webscrapper_ufc.py:140 | title-casing from any state is idempotent |
| Strings.TitleIdempotent | webscrapper_ufc.py:140 | `title()` of a title-cased text changes nothing |
| Strings.Title | webscrapper_ufc.py:140 | Python `str.title`; TitleByPosition states its case rule |
| Strings.TitleFromByPosition | webscrapper_ufc.py:140 | from a given state, each character right after a cased letter is lowered and any other is raised, position by position |
| Strings.TitleByPosition | webscrapper_ufc.py:140 | `title` keeps the length, lowers each character right after a cased letter and raises every other |
| Derive.CleanDateSpec | ufc_python_webscrapper/webscrapper_ufc.py:147 | the cleaned date holds no `/`; every other `/` became `,` in place after the "/ Main Card" markers were removed; it never grows; a date without `/` is unchanged |
| Derive.CleanDate | ufc_python_webscrapper/webscrapper_ufc.py:147 | the date cleaning, the two `replace` calls in order; CleanDateSpec states its result |
| Derive.EventTypeSpec | ufc_python_webscrapper/webscrapper_ufc.py:150 | the type tag exists exactly when the path has at least two `/`; it then holds no `-` and no `/`, and is the first 15 characters of the third segment with each `-` turned into `_` in place; a short third segment without `-` is taken whole |
| Derive.EventType | ufc_python_webscrapper/webscrapper_ufc.py:150 | the type tag, or IndexError for fewer than three segments; EventTypeSpec states both |
| Derive.ReplaceNotIncluded | ufc_python_webscrapper/webscrapper_ufc.py:134 | removing a prefix that does not occur changes nothing |
| Derive.FighterTokenSpec | ufc_python_webscrapper/webscrapper_ufc.py:134-135 | a fighter token holds no `-`, and a link without spaces gives a token without spaces |
| Derive.AthleteLinkToken | ufc_python_webscrapper/webscrapper_ufc.py:134-135 | the token of an athlete link is its slug with each `-` turned into `_` in place |
| Derive.FighterToken | ufc_python_webscrapper/webscrapper_ufc.py:134-135 | the fighter token, prefix removed and `-` turned into `_`; FighterTokenSpec and AthleteLinkToken state it |
| Derive.Pairing | ufc_python_webscrapper/webscrapper_ufc.py:136 | the "red vs blue" entry; PairingSplits makes `split(" vs ")` its inverse for space-free tokens |
| Derive.PairingSplits | ufc_python_webscrapper/webscrapper_ufc.py:136 | a "red vs blue" entry of space-free tokens splits back into the two tokens, red first |
| Derive.MainCardSpec | webscrapper_ufc.py:140 | the main card exists exactly when the roster is non-empty; it holds no `_`, is as long as the first entry, and matches it with `_` read as space, in title case: a letter right after a cased letter is lower case, any other upper case |
| Derive.MainCard | webscrapper_ufc.py:140 | the older script's main-card title, or IndexError for an empty roster; MainCardSpec states both |
| EventStore.Upsert | ufc_python_webscrapper/webscrapper_ufc.py:58-67 | after an upsert the URL maps to the new row, every other key keeps its row, and rows stay under their own URL |
| EventStore.UpsertSize | ufc_python_webscrapper/webscrapper_ufc.py:58-67 | the table grows by one row exactly when the URL was new |
| EventStore.UpsertIdempotent | ufc_python_webscrapper/webscrapper_ufc.py:58-67 | upserting the same row twice equals upserting it once |
| EventStore.UpsertLastWriteWins | ufc_python_webscrapper/webscrapper_ufc.py:61-67 | of two writes to one URL, the second one's columns are kept |
| EventStore.UpsertCommutes | ufc_python_webscrapper/webscrapper_ufc.py:58-67 | upserts to different URLs commute |
| EventStore.InsertAllKeys | ufc_python_webscrapper/webscrapper_ufc.py:167 | after a run of inserts the keys are the old keys plus the URLs written |
| EventStore.InsertAllSize | ufc_python_webscrapper/webscrapper_ufc.py:167 | a run of inserts adds at most one row per insert and keeps rows under their URL |
| EventStore.InsertAllUntouched | ufc_python_webscrapper/webscrapper_ufc.py:167 | a key no insert wrote keeps its old row |
| EventStore.InsertAllLastWins | ufc_python_webscrapper/webscrapper_ufc.py:167 | each written key holds the last row written for it |
| EventStore.InsertAllReplay | ufc_python_webscrapper/webscrapper_ufc.py:167 | replaying the same inserts over their result changes nothing |
| EventStore.InsertAll | ufc_python_webscrapper/webscrapper_ufc.py:167 | the table after a sequence of upserts, in order; the InsertAll lemmas above state its keys, rows and size |
| EventStore.Database.constructor | ufc_python_webscrapper/webscrapper_ufc.py:29-39 | a database that holds no `events` table and no rows; the script entry points accept a database in any valid state, since they drop the table first |
| EventStore.Database.DropTable | ufc_python_webscrapper/webscrapper_ufc.py:105 | the table and all its rows are gone |
| EventStore.Database.CreateTable | ufc_python_webscrapper/webscrapper_ufc.py:42-53 | an existing table keeps its rows; a missing one is created empty |
| EventStore.Database.InsertEvent | ufc_python_webscrapper/webscrapper_ufc.py:56-71 | with the table present, the contents become the upsert of the row; without it, nothing changes and the call fails |
| EventStore.Database.SelectAll | ufc_python_webscrapper/webscrapper_ufc.py:75-76 | every stored row is returned exactly once, each under its own key, in an unspecified order |
| Upcoming.UpcomingSpec | ufc_python_webscrapper/webscrapper_ufc.py:77-95 | the loop keeps exactly the fetched rows whose stripped date parses to an instant at or after now, never more often than fetched |
| Upcoming.UpcomingMembers | ufc_python_webscrapper/webscrapper_ufc.py:78-95 | a row is kept exactly when it was fetched and its stripped date parses to an instant at or after now |
| Upcoming.UpcomingSubMultiset | ufc_python_webscrapper/webscrapper_ufc.py:78-95 | no row is kept more often than it was fetched |
| Upcoming.IsUpcoming | ufc_python_webscrapper/webscrapper_ufc.py:79-85 | the filter's test: the stripped date parses and lies at or after now; UpcomingMembers states what it keeps |
| Upcoming.Upcoming | ufc_python_webscrapper/webscrapper_ufc.py:77-95 | the rows the filter loop keeps, in fetched order; UpcomingSpec, UpcomingMembers and UpcomingSubMultiset state them |
| Upcoming.FirstUnparsed | ufc_python_webscrapper/webscrapper_ufc.py:98 | locates the first row whose raw date does not parse, where computing the sort keys raises |
| Upcoming.Key | ufc_python_webscrapper/webscrapper_ufc.py:98 | the sort key, the parsed raw date; FirstUnparsed and QueryFailsIff cover the rows where it raises, SortByDate orders by it |
| Upcoming.InsertByDate | ufc_python_webscrapper/webscrapper_ufc.py:98 | inserting into a date-sorted list keeps it sorted and adds exactly that row |
| Upcoming.SortByDate | ufc_python_webscrapper/webscrapper_ufc.py:98 | the sort returns a permutation of its input, in ascending date order |
| Upcoming.QueryFailsIff | ufc_python_webscrapper/webscrapper_ufc.py:98 | the query raises exactly when some kept row's raw date does not parse |
| Upcoming.Query | ufc_python_webscrapper/webscrapper_ufc.py:74-100 | the whole query: filter, key pass, sort, slice; QueryFailsIff, QueryWindow, QueryOnlyUpcoming and QueryEarliest state its result |
| Upcoming.QueryWindow | ufc_python_webscrapper/webscrapper_ufc.py:97-100 | a successful query returns at most `limit` rows, as many as `[:limit]` keeps, drawn from the upcoming rows, in ascending date order |
| Upcoming.QueryOnlyUpcoming | ufc_python_webscrapper/webscrapper_ufc.py:78-95 | every returned row was fetched, has a parseable date and lies at or after now |
| Upcoming.QueryEarliest | ufc_python_webscrapper/webscrapper_ufc.py:97-100 | every upcoming row left out is no earlier than every row returned |
| Upcoming.QueryDatabase | ufc_python_webscrapper/webscrapper_ufc.py:74-100 | the method's filter loop and the calls after it compute exactly the query specification, including its error |
| Scraper.Zip4 | ufc_python_webscrapper/webscrapper_ufc.py:142 | `zip` pairs the four lists position by position, as long as the shortest |
| Scraper.Roster | ufc_python_webscrapper/webscrapper_ufc.py:124-138 | the roster `all_fights` returns, or the error of the first row missing a link; RosterSpec states both |
| Scraper.RosterSpec | ufc_python_webscrapper/webscrapper_ufc.py:124-138 | `all_fights` succeeds exactly when every names-row has both links, and then gives one pairing per row, in document order |
| Scraper.RosterEntriesSplit | ufc_python_webscrapper/webscrapper_ufc.py:134-136 | each roster entry of space-free links splits back into its red and blue tokens |
| Scraper.AllFights | ufc_python_webscrapper/webscrapper_ufc.py:124-138 | the loop computes exactly the roster specification, including its error |
| Scraper.CardCore | ufc_python_webscrapper/webscrapper_ufc.py:146-151 | the fields both scripts read first, or the first error; CardCoreSpec states both |
| Scraper.VenueText | ufc_python_webscrapper/webscrapper_ufc.py:153-154 | the venue text or "N/A"; VenueTextSpec states both |
| Scraper.LocationText | ufc_python_webscrapper/webscrapper_ufc.py:156 | the location text or "N/A"; LocationTextSpec states both |
| Scraper.NewerCardRow | ufc_python_webscrapper/webscrapper_ufc.py:146-156 | the newer script's row for a card, or the error it raises; NewerCardRowSpec states both |
| Scraper.OlderCardRow | webscrapper_ufc.py:134-146 | the older script's row for a card, or the error it raises; OlderCardRowSpec relates it to the newer row |
| Scraper.CardCoreSpec | ufc_python_webscrapper/webscrapper_ufc.py:146-151 | the fields read first succeed exactly when the title link, date link and href exist, the path has two `/`, and the roster builds; the key is the href, the tag fits its column, the date is the date link's text cleaned and holds no `/` |
| Scraper.VenueTextSpec | ufc_python_webscrapper/webscrapper_ufc.py:153-154 | the venue is "N/A" without an `<h5>`, and otherwise that element's text stripped, hence trimmed |
| Scraper.LocationTextSpec | ufc_python_webscrapper/webscrapper_ufc.py:156 | the location is "N/A" without a `<span>`, and otherwise that element's text stripped, hence trimmed |
| Scraper.NewerCardRowSpec | ufc_python_webscrapper/webscrapper_ufc.py:146-156 | the newer script stores a row for a card exactly when its first fields succeed; its date is the date link's text cleaned, and its venue and location are the stripped `<h5>` and `<span>` texts, or "N/A" where those are missing |
| Scraper.OlderCardRowSpec | webscrapper_ufc.py:134-146 | the older script rejects exactly what the newer one rejects, plus cards with an empty roster; otherwise it stores the same row with its own location value |
| Scraper.ExtractNewer | ufc_python_webscrapper/webscrapper_ufc.py:146-156 | the newer loop body computes exactly the newer card row or its error |
| Scraper.ExtractOlder | webscrapper_ufc.py:134-146 | the older loop body computes exactly the older card row or its error |
| Scraper.Harvest | ufc_python_webscrapper/webscrapper_ufc.py:142-169 | the rows a listing loop inserts and how it ends; HarvestSpec states both |
| Scraper.HarvestSpec | ufc_python_webscrapper/webscrapper_ufc.py:142-169 | the loop inserts one row per card in order for a prefix of the cards; it completes exactly when every card yields a row, and otherwise stops at the first card that fails |
| Scraper.NewerListingCount | ufc_python_webscrapper/webscrapper_ufc.py:141-144 | the newer loop inserts at most 8 rows, and exactly min(cards, 8) when it completes |
| Scraper.ListingLoopNewer | ufc_python_webscrapper/webscrapper_ufc.py:141-169 | the table becomes the old table with the rows of the first 8 cards upserted in order, up to the first failure |
| Scraper.ListingLoopOlder | webscrapper_ufc.py:130-159 | the table becomes the old table with every card's row upserted in order, up to the first failure |
| Scraper.FreshTable | ufc_python_webscrapper/webscrapper_ufc.py:104-106 | a table filled from empty holds exactly the URLs inserted, each with its last row, and no more rows than inserts |
| Scraper.RunNewerScript | ufc_python_webscrapper/webscrapper_ufc.py:103-172 | after a run the table holds at most 8 rows, keyed by the URLs inserted; on completion `SELECT *` returns every stored row once, and the query's result is `Query` of those rows, so QueryWindow, QueryEarliest and QueryFailsIff apply: the earliest min(8, upcoming) upcoming rows in date order, or the error of an unparseable stored date |
| Scraper.RunOlderScript | webscrapper_ufc.py:85-159 | after a run the table holds exactly the URLs inserted, each with its last row |
| Countdown.Decimal | ufc_nodejs_api/client/src/Events.js:112 | a count prints as a non-empty string of digits without a leading zero |
| Countdown.DecimalRoundTrip | ufc_nodejs_api/client/src/Events.js:112 | reading the printed digits back gives the count |
| Countdown.DecimalInjective | ufc_nodejs_api/client/src/Events.js:112 | different counts print differently |
| Countdown.CountdownFields | ufc_nodejs_api/client/src/Events.js:108-109 | `hours` is between 0 and 23, and days*86400000 + hours*3600000 <= diff, with less than an hour to spare |
| Countdown.CountdownShape | ufc_nodejs_api/client/src/Events.js:106-118 | every countdown is one of the two fixed messages or starts with a digit, and with a minute or more to go it starts with a digit |
| Countdown.PassedIff | ufc_nodejs_api/client/src/Events.js:104-106 | "Event passed" appears exactly when diff < 0 |
| Countdown.DaysShown | ufc_nodejs_api/client/src/Events.js:111-112 | with a whole day or more to go, the text shows the whole days and the remaining whole hours, with `s` exactly when a count is above 1 |
| Countdown.Plural | ufc_nodejs_api/client/src/Events.js:112 | the `> 1 ? 's' : ''` suffix; DaysShown, HoursShown and MinutesShown state where it appears |
| Countdown.HoursShown | ufc_nodejs_api/client/src/Events.js:113-115 | with under a day but an hour or more to go, the text shows the whole hours and the remaining whole minutes |
| Countdown.MinutesShown | ufc_nodejs_api/client/src/Events.js:116-118 | with under an hour but a minute or more to go, the text shows the whole minutes |
| Countdown.StartingSoonIff | ufc_nodejs_api/client/src/Events.js:116-118 | "Starting soon!" appears exactly when 0 <= diff < 60000 |
| Countdown.Countdown | ufc_nodejs_api/client/src/Events.js:104-118 | the text for a time difference; PassedIff, DaysShown, HoursShown, MinutesShown, StartingSoonIff and CountdownShape state its cases |
| Countdown.EventInstant | ufc_nodejs_api/client/src/Events.js:96-101 | a valid event instant is this year's or next year's; a valid this-year instant before now is replaced by next year's, and an Invalid Date this year is kept |
| Countdown.RolloverSpec | ufc_nodejs_api/client/src/Events.js:96-101 | the instant lies before now exactly when both this year's and next year's do; a this-year instant at or after now is kept |
| Countdown.ParseEventDate | ufc_nodejs_api/client/src/Events.js:51-73 | epoch 0 when the pattern does not match, otherwise the rolled-over event instant; ParseAndCountdownAgree ties it to the countdown |
| Countdown.TimeUntilEvent | ufc_nodejs_api/client/src/Events.js:75-124 | "Date format error" for unmatched text, otherwise the countdown to the rolled-over instant; FormatErrorIff and EventPassedIff state its outcomes |
| Countdown.CountdownNotFormatError | ufc_nodejs_api/client/src/Events.js:85-87 | no countdown text reads "Date format error" |
| Countdown.FormatErrorIff | ufc_nodejs_api/client/src/Events.js:83-87 | "Date format error" appears exactly when the pattern does not match |
| Countdown.EventPassedIff | ufc_nodejs_api/client/src/Events.js:92-106 | "Event passed" appears exactly when the text matches and both this year's and next year's instants are valid and before now |
| Countdown.ParseAndCountdownAgree | ufc_nodejs_api/client/src/Events.js:57-69 | for matched text, the countdown is the one for the instant `parseEventDate` returns |
| Search.FilterSpec | ufc_nodejs_api/client/src/Events.js:18-22 | the filter returns a subsequence of the events that holds exactly the matching ones |
| Search.Matches | ufc_nodejs_api/client/src/Events.js:19-21 | the filter's test: the lowered term occurs in the lowered title, location or venue |
| Search.Filter | ufc_nodejs_api/client/src/Events.js:18-22 | `events.filter` with that test, in order; FilterSpec and FilterAppend state its result |
| Search.FilterEvents | ufc_nodejs_api/client/src/Events.js:16-27 | the search effect, the whole list for an empty term; FilterEventsIsFilter ties it to the filter |
| Search.FilterAppend | ufc_nodejs_api/client/src/Events.js:18-22 | filtering a concatenation is concatenating the filtered parts |
| Search.FilterIdempotent | ufc_nodejs_api/client/src/Events.js:18-22 | filtering the filtered list again changes nothing |
| Search.EmptyTermKeepsAll | ufc_nodejs_api/client/src/Events.js:17-25 | the filter with an empty term keeps every event |
| Search.FilterEventsIsFilter | ufc_nodejs_api/client/src/Events.js:16-27 | the search effect, including its empty-term shortcut, returns what the filter returns |
| Search.LowerIdempotent | ufc_nodejs_api/client/src/Events.js:19 | lowering twice is lowering once |
| Search.SearchIgnoresTermCase | ufc_nodejs_api/client/src/Events.js:19-21 | a term and its lowered form select the same events |

## Left out

- HTTP fetching, HTML parsing and BeautifulSoup's lookups are not modelled. What they yield is given as records (`Card`, `NamesRow`) and the function `pages`. A connection-level failure, where `requests.get` raises and the script ends, is not modelled; an HTTP error page is, as a page with whatever names-rows it holds (usually none).
- The MySQL driver and connection, `commit`, and `conn.close()` are not modelled. The table is a map and each upsert is atomic.
- EventStore.Upsert: keys are compared by exact string equality. MySQL compares the `event_url` primary key under the column's collation, which by default ignores letter case and, for PAD SPACE collations, trailing spaces; two URLs differing only that way would be one row in MySQL, keeping the first spelling, and two rows here. The scraped paths come from one site in one spelling, so the model does not carry a collation.
- `json.dumps` of the roster is not modelled; the roster is stored as a list of strings. The client's `JSON.parse` of it is outside the model.
- Scraper.Roster: the three exceptions a missing corner link can raise are one error. The three are AttributeError for a missing corner div, TypeError for a missing `<a>`, and KeyError for a missing `href`.
- EventStore.Database.InsertEvent: VARCHAR limits other than `event_type`'s are not modelled. Over-long titles, URLs or rosters are kept whole, though the 1024-character roster column could reject a long card.
- Upcoming.IsUpcoming: time zones are not modelled. The instant comparison stands for dateutil's aware or naive datetimes; comparing a naive date, such as one with an unknown zone name, against the aware `now` raises TypeError, and that is not modelled.
- Upcoming.SortByDate: Python's sort is stable, and this insertion sort is too, but stability is not stated as a property.
- The older script's `query_database()` only prints rows and is not modelled. The same goes for every `print` in both scripts.
- Scraper.OlderCardRow: what `find('span class')` returns is the parameter `storedLocation`; the lookup itself is not modelled.
- Countdown.TimeUntilEvent: both clock reads are the single `now`, and `new Date().getFullYear()` is the parameter `currentYear`. The `catch` that yields "Date unavailable" is not modelled, because the stored date is always a string here and `trim` cannot throw.
- Countdown.Decimal: JavaScript's exponent notation for numbers of 10^21 and above is not modelled.
- Countdown.Countdown: JavaScript Numbers are doubles; `Math.floor` of `/` and `%` is modelled on integers. `%` on integral doubles is exact, and for any difference under 2^40 ms (about 35 years) the rounded quotients lie too far from the next integer for `Math.floor` to differ; rounding near 2^53 is not modelled.
- `toLowerCase` is modelled for ASCII letters only; Unicode case mapping is not. Python's `title` is modelled for ASCII letters only.
- The client's `Array.sort` with `parseEventDate` as comparator is not modelled. Its comparator reads the clock, and the order it yields is up to the engine; only `parseEventDate` itself is modelled.
- Search.Matches: a stored `NULL` location would make `toLowerCase` throw in the client. Every location here is a string, so that crash is not modelled.
- React state, rendering, axios, and the Node server (`server.js`) are not part of this model.
