/** The calendar projector: drops byes and turns every remaining match into
    the attribute record the iCal encoder expects. */
module CalendarService {
  import opened Wrappers
  import opened Fixtures
  import opened CivilTime

  /** An hours-and-minutes pair, as the encoder's duration object. */
  datatype Duration = Duration(hours: int, minutes: int)

  /** The caller's timing configuration: match length (`spieldauer`), lead
      time before kickoff (`vorlaufzeit`) and whether byes are shown. */
  datatype Config = Config(spieldauer: Duration, vorlaufzeit: Duration, spielfreiAnzeigen: bool)

  datatype Geo = Geo(lat: real, lon: real)

  datatype Organizer = Organizer(name: string)

  /** The attributes one event carries. `start` is the encoder's local
      start array `[year, month, day, hour, minute]`. */
  datatype Event = Event(
    start: CivilDateTime,
    duration: Duration,
    title: string,
    description: string,
    status: string,
    busyStatus: string,
    organizer: Organizer,
    geo: Geo,
    location: string,
    calName: string,
    categories: seq<string>,
    startInputType: string,
    startOutputType: string)

  /** Destructuring the absent `locationCoords` of a match throws. */
  datatype ProjectionError = LocationCoordsMissing

  const CalName: string := "Fußballspiele \U{26BD}"
  const Category: string := "Fußballspiel"

  /** The length of a duration in minutes. */
  function TotalMinutes(d: Duration): int {
    d.hours * 60 + d.minutes
  }

  /** The event opens the lead time before kickoff. */
  function EventStart(kickoff: CivilDateTime, vorlaufzeit: Duration): (r: CivilDateTime)
    ensures PlusMinutes(r, TotalMinutes(vorlaufzeit)) == kickoff
    ensures TotalMinutes(vorlaufzeit) > 0 ==> Before(r, kickoff)
    ensures TotalMinutes(vorlaufzeit) == 0 ==> r == kickoff
  {
    PlusUndoesMinus(kickoff, TotalMinutes(vorlaufzeit));
    MinusMinutesOrder(kickoff, TotalMinutes(vorlaufzeit));
    MinusMinutes(kickoff, TotalMinutes(vorlaufzeit))
  }

  /** The event lasts the match plus the lead time; hours and minutes are
      added separately and minutes of 60 or more are not carried. */
  function EventDuration(config: Config): (d: Duration)
    ensures TotalMinutes(d) == TotalMinutes(config.spieldauer) + TotalMinutes(config.vorlaufzeit)
  {
    Duration(
      config.spieldauer.hours + config.vorlaufzeit.hours,
      config.spieldauer.minutes + config.vorlaufzeit.minutes)
  }

  /** The event the projector builds for one match, or the error the
      destructuring of absent coordinates raises. */
  function ProjectMatch(m: Match<CivilDateTime>, config: Config): (r: Result<Event, ProjectionError>)
    ensures r.Failure? <==> m.locationCoords.None?
  {
    match m.locationCoords
    case None => Failure(LocationCoordsMissing)
    case Some(coords) =>
      Success(Event(
        EventStart(m.date, config.vorlaufzeit),
        EventDuration(config),
        m.homeTeam + " vs. " + m.awayTeam,
        "Fußballspiel: " + m.homeTeam + " vs. " + m.awayTeam,
        "CONFIRMED",
        "BUSY",
        Organizer(m.homeTeam),
        Geo(coords.lat, coords.lon),
        m.homeTeam,
        CalName,
        [Category],
        "local",
        "local"))
  }

  /** What an event built from match `m` under `config` looks like: it
      starts exactly the lead time before kickoff, lasts the summed
      duration, is titled and described by the two team names, copies the
      coordinates, and carries the fixed presentation fields, with the home
      team as organizer and as location. */
  ghost predicate Describes(e: Event, m: Match<CivilDateTime>, config: Config) {
    && m.locationCoords.Some?
    && PlusMinutes(e.start, TotalMinutes(config.vorlaufzeit)) == m.date
    && e.duration.hours == config.spieldauer.hours + config.vorlaufzeit.hours
    && e.duration.minutes == config.spieldauer.minutes + config.vorlaufzeit.minutes
    && e.title == m.homeTeam + " vs. " + m.awayTeam
    && e.description == "Fußballspiel: " + e.title
    && e.geo.lat == m.locationCoords.value.lat && e.geo.lon == m.locationCoords.value.lon
    && e.status == "CONFIRMED" && e.busyStatus == "BUSY"
    && e.organizer.name == m.homeTeam
    && e.location == m.homeTeam
    && e.calName == CalName
    && e.categories == [Category]
    && e.startInputType == "local" && e.startOutputType == "local"
  }

  /** A projected event describes its match. */
  lemma ProjectMatchDescribes(m: Match<CivilDateTime>, config: Config)
    requires m.locationCoords.Some?
    ensures ProjectMatch(m, config).Success?
    ensures Describes(ProjectMatch(m, config).value, m, config)
  {
    assert "Fußballspiel: " + m.homeTeam + " vs. " + m.awayTeam
        == "Fußballspiel: " + (m.homeTeam + " vs. " + m.awayTeam);
  }

  /** The start is determined by `Describes`: only one date-time lies the
      lead time before kickoff. */
  lemma StartIsUnique(s1: CivilDateTime, s2: CivilDateTime, lead: int)
    requires PlusMinutes(s1, lead) == PlusMinutes(s2, lead)
    ensures s1 == s2
  {
    PlusUndoesMinus(s1, lead);
    PlusUndoesMinus(s2, lead);
  }

  /** Maps the projection over the matches in order; the first failure
      aborts the whole map. */
  function ProjectAll(ms: seq<Match<CivilDateTime>>, config: Config): (r: Result<seq<Event>, ProjectionError>)
    ensures r.Success? <==> forall i :: 0 <= i < |ms| ==> ms[i].locationCoords.Some?
    ensures r.Success? ==> |r.value| == |ms|
    ensures r.Success? ==> forall i :: 0 <= i < |ms| ==> ProjectMatch(ms[i], config) == Success(r.value[i])
  {
    if ms == [] then Success([])
    else
      match ProjectMatch(ms[0], config)
      case Failure(e) => Failure(e)
      case Success(event) =>
        match ProjectAll(ms[1..], config)
        case Failure(e) => Failure(e)
        case Success(events) =>
          assert forall i :: 1 <= i < |ms| ==> ms[i] == ms[1..][i - 1];
          Success([event] + events)
  }

  /** `createIcalEvents`: drops the byes, then projects each remaining match
      in order. It fails exactly when some non-bye match lacks coordinates,
      and otherwise yields one event per non-bye match. */
  function CreateIcalEvents(matches: seq<Match<CivilDateTime>>, config: Config): (r: Result<seq<Event>, ProjectionError>)
    ensures r.Success? <==>
      forall i :: 0 <= i < |matches| && !matches[i].spielfrei ==> matches[i].locationCoords.Some?
    ensures r.Success? ==> |r.value| == |NonByes(matches)|
  {
    NonByesAll(matches, (m: Match<CivilDateTime>) => m.locationCoords.Some?);
    ProjectAll(NonByes(matches), config)
  }

  /** One event per non-bye match, in the matches' order, each describing
      its match; no bye ever yields an event. */
  lemma CreateIcalEventsDescribesNonByes(matches: seq<Match<CivilDateTime>>, config: Config)
    requires CreateIcalEvents(matches, config).Success?
    ensures var events, pos := CreateIcalEvents(matches, config).value, NonByePositions(matches, 0);
      && |events| == |pos|
      && StrictlyIncreasing(pos)
      && (forall j :: 0 <= j < |events| ==>
            pos[j] < |matches| && !matches[pos[j]].spielfrei && Describes(events[j], matches[pos[j]], config))
      && (forall i :: 0 <= i < |matches| ==> (i in pos <==> !matches[i].spielfrei))
  {
    var kept := NonByes(matches);
    var events := CreateIcalEvents(matches, config).value;
    NonByesIsOrderedFilter(matches);
    forall j | 0 <= j < |events|
      ensures Describes(events[j], kept[j], config)
    {
      ProjectMatchDescribes(kept[j], config);
    }
  }

  /** Filtering byes again before projecting changes nothing. */
  lemma CreateIcalEventsIgnoresByes(matches: seq<Match<CivilDateTime>>, config: Config)
    ensures CreateIcalEvents(NonByes(matches), config) == CreateIcalEvents(matches, config)
  {
    NonByesIdempotent(matches);
  }

  /** The projection ignores the match's `time`, `location` and `spielfrei`
      fields: the kickoff comes from `date` alone and the event's location
      is the home team's name. */
  lemma ProjectMatchIgnoresTimeAndLocation(m: Match<CivilDateTime>, config: Config, time: Option<string>, location: Option<string>, spielfrei: bool)
    ensures ProjectMatch(m.(time := time, location := location, spielfrei := spielfrei), config) == ProjectMatch(m, config)
  {
  }

  /** The event ends when the match ends: start plus duration is kickoff
      plus the match length. */
  lemma EventEndsWithMatch(m: Match<CivilDateTime>, config: Config)
    requires m.locationCoords.Some?
    ensures var e := ProjectMatch(m, config).value;
      PlusMinutes(e.start, TotalMinutes(e.duration)) == PlusMinutes(m.date, TotalMinutes(config.spieldauer))
  {
    var lead, play := TotalMinutes(config.vorlaufzeit), TotalMinutes(config.spieldauer);
    MinusAdd(m.date, lead, -(play + lead));
  }

  /** The worked example: a kickoff on 22 September 2023 at 18:00 with a
      two-hour match and a one-hour lead time. */
  lemma ExampleSeptemberEvening()
    ensures var m := Match(DateTime(2023, 9, 22, 18, 0), None, "Team A", "Team B", false, Some("Stadium 1"), Some(Coords(51.1657, 10.4515)));
      var config := Config(Duration(2, 0), Duration(1, 0), true);
      var e := ProjectMatch(m, config).value;
      && e.start == DateTime(2023, 9, 22, 17, 0)
      && e.duration == Duration(3, 0)
      && e.title == "Team A vs. Team B"
      && e.location == "Team A"
      && e.geo == Geo(51.1657, 10.4515)
  {
    var kickoff := DateTime(2023, 9, 22, 18, 0);
    DivModUnique(1020, 1440, 0, 1020);
    DivModUnique(1020, 60, 17, 0);
    assert MinusMinutes(kickoff, 60) == DateTime(2023, 9, 22, 17, 0);
  }

  /** Borrowing across a year boundary. */
  lemma ExampleNewYear()
    ensures EventStart(DateTime(2024, 1, 1, 0, 30), Duration(1, 0)) == DateTime(2023, 12, 31, 23, 30)
  {
    DivModUnique(-30, 1440, -1, 1410);
    DivModUnique(1410, 60, 23, 30);
    assert ShiftDays(Date(2024, 1, 1), -1) == Date(2023, 12, 31);
  }

  /** Borrowing into the leap day of a leap year. */
  lemma ExampleLeapDay()
    ensures EventStart(DateTime(2024, 3, 1, 0, 15), Duration(0, 30)) == DateTime(2024, 2, 29, 23, 45)
  {
    DivModUnique(-15, 1440, -1, 1425);
    DivModUnique(1425, 60, 23, 45);
    assert IsLeapYear(2024);
    assert PrevDay(Date(2024, 3, 1)) == Date(2024, 2, 29);
    assert ShiftDays(Date(2024, 3, 1), -1) == Date(2024, 2, 29);
  }

  /** Borrowing into 28 February of a common year. */
  lemma ExampleCommonYearFebruary()
    ensures EventStart(DateTime(2023, 3, 1, 0, 15), Duration(0, 30)) == DateTime(2023, 2, 28, 23, 45)
  {
    DivModUnique(-15, 1440, -1, 1425);
    DivModUnique(1425, 60, 23, 45);
    assert !IsLeapYear(2023);
    assert PrevDay(Date(2023, 3, 1)) == Date(2023, 2, 28);
    assert ShiftDays(Date(2023, 3, 1), -1) == Date(2023, 2, 28);
  }
}
