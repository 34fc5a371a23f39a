# fussball.de fixture scraper — Dafny model of the parser and the calendar projector

The service fetches a club team's match plan from fussball.de as an HTML
fragment and turns it into JSON match records or iCal events. This project
models the two pure transformations at its core and proves properties of them:

- **The fixture-table parser** (`MatchesService.parseMatches`). It walks the
  rows of the match-plan table. At every row index divisible by three it reads
  the date cell of the next row and the first and last club cells of the row
  after that. It then takes the leftmost `dd.MM.yy` date and the leftmost
  `HH:mm` time from the date text and classifies the fixture as a bye
  (*spielfrei*). It emits a record when a date was found and the fixture is
  not a hidden bye. It is modelled as a fold (`StrideFold.Reduce`) over a
  per-group function (`MatchesService.ParseGroup`). A group-by-group reference
  definition (`StrideFold.Groupwise`) is proved equal to the fold.
- **The calendar projector** (`CalendarService.createIcalEvents`). It drops
  byes and maps every other match to an event attribute record. The `start`
  is the kickoff minus the lead time (*vorlaufzeit*) and the `duration` is
  the match length (*spieldauer*) plus the lead time, summed field by field.
  The title and description are built from the team names, `geo` comes from
  the match's coordinates, and the remaining presentation fields are fixed.
  The subtraction of the lead time is modelled as civil date-time arithmetic
  that borrows across hour, day, month and year boundaries, with Gregorian
  leap years (`CivilTime`).

Files and modules:

| file | module | models |
|---|---|---|
| `wrappers.dfy` | `Wrappers` | `Option` (JavaScript `null`) and `Result` (a thrown error) |
| `text.dfy` | `Text` | ECMAScript `trim`, ASCII lower-casing, leftmost match of fixed-length `\d`/literal patterns |
| `match.dfy` | `Fixtures` | the `Match` record of `src/interfaces/match.interface.ts` and the bye filter |
| `matches_service.dfy` | `StrideFold`, `MatchesService` | `src/services/matches.service.ts` |
| `civil_time.dfy` | `CivilTime` | the part of luxon's `DateTime.minus` the projector uses |
| `calendar_service.dfy` | `CalendarService` | `src/services/calendar.service.ts` |

Inputs that the source obtains from code outside this model become
parameters or pre-extracted data:
- A table row is a `Row(dateText, clubTexts)`: the untrimmed text of its
  `td.column-date` cell and the untrimmed texts of its `td.column-club`
  cells. Selecting the rows and cells (cheerio) is not modelled.
- `MatchesForTeam` receives the fetched page as an `Option<string>`, where
  `None` is a failed fetch. It receives the row extraction as a function
  parameter.
- The calendar's matches carry an already parsed kickoff (`Match<CivilDateTime>`).
  The parser's matches carry the raw date text (`Match<string>`). The two
  components therefore do not compose as wired. Each is proved against its
  own contract.
- Coordinates are `real` values that are only copied.

Where the code and its tests disagree, or where a reader might expect otherwise, the model follows the code:
- The parser stores `date` as the raw `dd.MM.yy` text, with a two-digit year.
- A trailing group that has a date row but no teams row is not dropped. It
  emits a record with empty team names (`TruncatedBeforeTeamsRow`).
- The event's `location` is the home team's name. It is not
  `"<home>\n<location>"` as the test at
  `src/services/calendar.service.spec.ts:123` expects.
- `geo` is always built from `locationCoords`. When the coordinates are
  absent, the destructuring at line 50 of `calendar.service.ts` throws and
  the whole call fails. The model returns `Failure(LocationCoordsMissing)`
  for this case. The test at `src/services/calendar.service.spec.ts:147`
  expects `geo` to be left out instead.
- `match.time` is ignored by the projector: the kickoff comes from
  `match.date` alone. `match.location` and `match.spielfrei` do not reach the event
  either (`ProjectMatchIgnoresTimeAndLocation`).

## Model

| member | source | states |
|---|---|---|
| `Text.TrimSpec` | src/services/matches.service.ts:47-60 | `trim` removes only ECMAScript whitespace and line terminators, only from the two ends, and leaves none at either end |
| `Text.TrimIdempotent` | src/services/matches.service.ts:47-60 | trimming an already trimmed cell text changes nothing |
| `Text.SearchFrom` | src/services/matches.service.ts:63-64 | the regex scan returns the first start position at or after `from` where the pattern matches, and reports none only when no later position matches |
| `Text.FirstMatchSpec` | src/services/matches.service.ts:63-67 | `match` gives `null` exactly when no position matches; otherwise it gives the substring at the leftmost matching position |
| `MatchesService.IsByeIffSpielfreiIgnoringCase` | src/services/matches.service.ts:62 | the bye test holds exactly for the nine letters of `spielfrei`, each in either case |
| `MatchesService.ParseGroup` | src/services/matches.service.ts:46-77 | a record built for a group is a bye exactly when the away cell reads `spielfrei`, and a bye is built only when byes are shown |
| `MatchesService.ParseGroupYields` | src/services/matches.service.ts:62-69 | a group yields a record exactly when its trimmed date text contains `dd.dd.dd` and the group is not a bye or byes are shown |
| `MatchesService.ParseGroupDate` | src/services/matches.service.ts:63-71 | the record's date is the leftmost `dd.dd.dd` substring of the trimmed date text |
| `MatchesService.ParseGroupTimeAbsent` | src/services/matches.service.ts:64-67 | the record has no time exactly when the date text contains no `dd:dd` |
| `MatchesService.ParseGroupTime` | src/services/matches.service.ts:64-72 | a record's time, when present, is the leftmost `dd:dd` substring of the date text |
| `MatchesService.ParseGroupTeams` | src/services/matches.service.ts:51-75 | the record's bye flag is the away-cell test; its teams are the trimmed first and last club cells, both `spielfrei` in a bye; no location or coordinates are set |
| `StrideFold.ReduceIsGroupwise` | src/services/matches.service.ts:43-80 | the left fold with accumulator, resumed at any row, equals the accumulator followed by the records of the groups that start at or after that row |
| `StrideFold.ReduceFromStart` | src/services/matches.service.ts:43-80 | the whole reduce from `[]` equals the group-by-group concatenation |
| `StrideFold.GroupwiseLength` | src/services/matches.service.ts:45-46 | at most one record per group: no more than ⌈rows/3⌉ − g records come from groups g and later |
| `StrideFold.GroupwisePicks` | src/services/matches.service.ts:45-76 | each output record is the record of a listed group at or after g, and that group lies inside the table |
| `StrideFold.ContributingIncrease` | src/services/matches.service.ts:45-76 | the groups the records come from are listed in strictly ascending order |
| `StrideFold.ContributingComplete` | src/services/matches.service.ts:45-76 | a group is listed exactly when it yields a record |
| `StrideFold.GroupwiseTracesGroups` | src/services/matches.service.ts:45-76 | the three facts above together: the output is the subsequence of group records in ascending group order |
| `StrideFold.GroupwiseAll` | src/services/matches.service.ts:69-76 | a property every group record has, every output record has |
| `MatchesService.ParseMatches` | src/services/matches.service.ts:41-81 | `parseMatches` equals the group-by-group reference, has at most ⌈rows/3⌉ records, and has no bye when byes are hidden |
| `MatchesService.ParseMatchesFollowsGroupOrder` | src/services/matches.service.ts:43-80 | output record j is the record of group gs[j]; the gs are strictly ascending; every group that yields a record appears |
| `MatchesService.ParseMatchesEmpty` | src/services/matches.service.ts:43-45 | a table without rows yields no matches |
| `MatchesService.GroupWithoutDateIsSkipped` | src/services/matches.service.ts:63-69 | a group whose date text holds no `dd.dd.dd` yields nothing |
| `MatchesService.TruncatedBeforeDateRow` | src/services/matches.service.ts:47-50 | a trailing group without its date row reads empty text and yields nothing |
| `MatchesService.TruncatedBeforeTeamsRow` | src/services/matches.service.ts:51-60 | a trailing group with a dated date row but no teams row yields a non-bye record with empty team names |
| `MatchesService.ParseGroupHidingByes` | src/services/matches.service.ts:69-76 | for one group, hiding byes drops exactly the bye record |
| `MatchesService.GroupwiseNonByes` | src/services/matches.service.ts:69-76 | if every group's hidden-bye result is its shown-bye result without the bye, the concatenations are related the same way |
| `MatchesService.HidingByesIsFiltering` | src/services/matches.service.ts:69-76 | dropping byes from the `showSpielfrei = true` output gives exactly the `showSpielfrei = false` output |
| `MatchesService.MatchesForTeam` | src/services/matches.service.ts:29-38 | a failed fetch or an empty page gives `[]`; otherwise the page's rows are parsed; no byes when hidden |
| `Fixtures.NonByes` | src/services/calendar.service.ts:13-14 | the bye filter keeps no bye and never grows the list |
| `Fixtures.NonByesSuffixStep` | src/services/calendar.service.ts:13-14 | filtering a suffix keeps its first match exactly when that match is not a bye |
| `Fixtures.NonByePositionsPick` | src/services/calendar.service.ts:13-14 | each kept match is the input match at a listed position inside the suffix |
| `Fixtures.NonByePositionsIncrease` | src/services/calendar.service.ts:13-14 | the kept positions ascend strictly |
| `Fixtures.NonByePositionsComplete` | src/services/calendar.service.ts:13-14 | a position is kept exactly when its match is not a bye |
| `Fixtures.NonByesIsOrderedFilter` | src/services/calendar.service.ts:13-14 | the filter keeps exactly the non-bye matches, each once, in input order |
| `Fixtures.NonByesAll` | src/services/calendar.service.ts:13-14 | a property holds of all kept matches iff it holds of all non-bye input matches |
| `Fixtures.NonByesAppend` | src/services/calendar.service.ts:13-14 | filtering distributes over concatenation |
| `Fixtures.NonByesIdempotent` | src/services/calendar.service.ts:13-14 | filtering twice is filtering once |
| `CivilTime.DaysInMonth` | src/services/calendar.service.ts:22-34 | the Gregorian month lengths: 28 days exactly for February of a common year, 29 exactly for February of a leap year, 30 exactly for April, June, September and November, 31 for the other seven months |
| `CivilTime.YearLength` | src/services/calendar.service.ts:22-34 | the twelve months add up to 365 days, or 366 in a leap year |
| `CivilTime.PrevNextDay` | src/services/calendar.service.ts:22-34 | the previous and next calendar day undo each other across month and year ends |
| `CivilTime.ShiftDaysFromNext` | src/services/calendar.service.ts:22-34 | shifting from the next day by k is shifting from the day by k + 1 |
| `CivilTime.ShiftDaysFromPrev` | src/services/calendar.service.ts:22-34 | shifting from the previous day by k is shifting from the day by k − 1 |
| `CivilTime.ShiftDaysAdd` | src/services/calendar.service.ts:22-34 | shifting by a days and then by b days is shifting by a + b days |
| `CivilTime.MinusZero` | src/services/calendar.service.ts:22-25 | subtracting zero minutes changes nothing |
| `CivilTime.MinusAdd` | src/services/calendar.service.ts:22-25 | subtracting a and then b minutes is subtracting a + b |
| `CivilTime.PlusUndoesMinus` | src/services/calendar.service.ts:22-34 | adding the lead time back to the start restores the kickoff, and the other way round |
| `CivilTime.MinusOneIsPrevMinute` | src/services/calendar.service.ts:22-34 | one minute earlier borrows minute from hour, hour from day, and day from month and year |
| `CivilTime.MinusIsRepeatedPrevMinute` | src/services/calendar.service.ts:22-34 | n minutes earlier equals n single-minute steps back |
| `CivilTime.PrevMinuteIsBefore` | src/services/calendar.service.ts:22-34 | the previous minute is lexicographically earlier as `[y, m, d, h, min]` |
| `CivilTime.StepBackIsBefore` | src/services/calendar.service.ts:22-34 | one or more steps back give a strictly earlier date-time |
| `CivilTime.MinusMinutesOrder` | src/services/calendar.service.ts:22-34 | a positive lead time gives a strictly earlier start; zero gives the kickoff itself |
| `CalendarService.EventStart` | src/services/calendar.service.ts:22-34 | the start is a valid date-time that becomes the kickoff when the lead time is added back, is earlier than kickoff for a positive lead time, and equals it for zero |
| `CalendarService.EventDuration` | src/services/calendar.service.ts:42-45 | the duration spans the match length plus the lead time, in minutes |
| `CalendarService.ProjectMatch` | src/services/calendar.service.ts:15-71 | projecting a match fails exactly when it has no coordinates |
| `CalendarService.ProjectMatchDescribes` | src/services/calendar.service.ts:15-71 | a projected event starts the lead time before kickoff; its duration is the field-wise sum with no carry; its title is `home vs. away` and its description is `Fußballspiel: ` + title; geo is (lat, lon) in order; status is CONFIRMED, busy status BUSY; organizer and location are the home team; the category is `Fußballspiel` |
| `CalendarService.StartIsUnique` | src/services/calendar.service.ts:22-25 | only one date-time lies a given number of minutes before a kickoff, so the start is fully determined |
| `CalendarService.ProjectAll` | src/services/calendar.service.ts:15-72 | the map succeeds iff every match has coordinates; it then yields one event per match, in order, each the projection of its match |
| `CalendarService.CreateIcalEvents` | src/services/calendar.service.ts:12-73 | fails exactly when a non-bye match lacks coordinates; otherwise yields as many events as there are non-bye matches |
| `CalendarService.CreateIcalEventsDescribesNonByes` | src/services/calendar.service.ts:12-73 | event j describes the j-th non-bye match; the positions used ascend; every non-bye match is used and no bye is |
| `CalendarService.CreateIcalEventsIgnoresByes` | src/services/calendar.service.ts:13-14 | filtering byes before the call changes nothing |
| `CalendarService.ProjectMatchIgnoresTimeAndLocation` | src/services/calendar.service.ts:15-71 | changing a match's time, location or bye flag does not change its event |
| `CalendarService.EventEndsWithMatch` | src/services/calendar.service.ts:22-45 | start plus duration is kickoff plus the match length |
| `CalendarService.ExampleSeptemberEvening` | src/services/calendar.service.spec.ts:48-70 | kickoff 2023-09-22 18:00 with 2 h play and 1 h lead gives start `[2023, 9, 22, 17, 0]`, duration 3 h 0 min and title `Team A vs. Team B` |
| `CalendarService.ExampleNewYear` | src/services/calendar.service.ts:22-34 | 2024-01-01 00:30 minus one hour is 2023-12-31 23:30 |
| `CalendarService.ExampleLeapDay` | src/services/calendar.service.ts:22-34 | 2024-03-01 00:15 minus 30 minutes is 2024-02-29 23:45 |
| `CalendarService.ExampleCommonYearFebruary` | src/services/calendar.service.ts:22-34 | 2023-03-01 00:15 minus 30 minutes is 2023-02-28 23:45 |

## Left out

- The HTTP fetch in `getMatchesForTeams` and its error logging. It is network I/O. Its outcome is the `html` parameter of `MatchesForTeam`.
- cheerio's HTML parsing and CSS selection of rows and cells. Each row is given as its already extracted cell texts.
- The `.text()` of a row with several `td.column-date` cells concatenates them. The model takes that concatenation as the row's one `dateText`.
- `toLowerCase`: Unicode lower-casing is modelled as ASCII case folding. No non-ASCII code point lower-cases to one of the letters of `spielfrei`, so the bye test is unaffected.
- String positions: JavaScript indexes strings in UTF-16 code units and the model uses code points. The matched patterns are ASCII, so the substring a match returns is the same.
- luxon's ISO parsing of `match.date` and the Europe/Berlin zone. The kickoff is an already parsed civil date-time.
- `CivilTime.MinusMinutes`: the civil result (n minutes earlier, characterised by `MinusIsRepeatedPrevMinute`, `PlusUndoesMinus` and `MinusMinutesOrder`) is right only away from daylight-saving transitions. luxon subtracts the lead time from the absolute instant and converts back in Europe/Berlin, so a start that crosses a transition is one hour off from the civil one.
- Lead times and match lengths with fractional hours or minutes are not modelled. `Duration` fields are integers.
- Invalid kickoffs, where luxon yields `NaN` fields, are not modelled.
- The geocoder service and controller. They call a foreign library and the Nominatim network service.
- The matches controller, the app module, `main.ts` and `instrument.ts`: routing, dependency injection, the hard-coded configuration, the external `ics.createEvents` encoder and its error rethrow, Sentry and startup.
- The `console.log` calls in `createIcalEvents`.
