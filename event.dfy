/**
 * Calendar events. `eventCreate` parses and checks the date, the time, the
 * duration and the name in that order, stores copies of the name and the
 * location, and caches the text the calendar shows for the event.
 *
 * The event's fields are written once, while `eventCreate` builds it, and
 * never changed by the code modelled here, so they are `const` fields of a
 * class: events keep their identity when they are put in a list.
 */
module Events {
  import opened LibC
  import DateTime

  /** The longest name and location an event stores (assumed values). */
  const MAX_LENGTH_OF_NAME: nat := 1024
  const MAX_LENGTH_OF_LOCATION: nat := 1024
  /** The size of the buffer `durationString` writes into (assumed value). */
  const MAX_DURATION_STRING: nat := 40
  /** The sizes of the buffers `dateString` and `timeString` write into. */
  const MAX_DATE_STRING: nat := 20
  const MAX_TIME_STRING: nat := 8

  datatype EventError =
    | NoError
    | DateInvalid
    | TimeInvalid
    | DurationInvalid
    | NameInvalid
    | ReadError
    | InternalError

  /**
   * `dateString`, `timeString` and `durationString`, which format a date, a
   * time and a duration for display; their bodies are not part of this
   * model, so they are parameters.
   */
  datatype Renderers = Renderers(
    dateString: DateTime.Date -> seq<char>,
    timeString: DateTime.Time -> seq<char>,
    durationString: int -> seq<char>)

  class Event {
    const date: DateTime.Date
    const time: DateTime.Time
    const duration: int
    const name: seq<char>
    /** None when the event has no location. */
    const location: Option<seq<char>>
    /** The display text and the length `eventString` reported for it. */
    const formattedString: seq<char>
    const formattedStringLength: int

    constructor (date: DateTime.Date, time: DateTime.Time, duration: int, name: seq<char>,
                 location: Option<seq<char>>, formattedString: seq<char>, formattedStringLength: int)
      ensures this.date == date && this.time == time && this.duration == duration
      ensures this.name == name && this.location == location
      ensures this.formattedString == formattedString
      ensures this.formattedStringLength == formattedStringLength
    {
      this.date := date;
      this.time := time;
      this.duration := duration;
      this.name := name;
      this.location := location;
      this.formattedString := formattedString;
      this.formattedStringLength := formattedStringLength;
    }
  }

  /** `durationValid`: durations are non-negative. */
  predicate DurationValid(duration: int) {
    duration >= 0
  }

  /** What `eventSetName`/`eventSetLocation` return, and what they leave in the field. */
  datatype Stored = Stored(error: EventError, text: Option<seq<char>>)

  /** The length `strnlen` gives a string that may be NULL (0 for NULL). */
  function OptLength(s: Option<seq<char>>, max: nat): nat {
    match s
    case None => 0
    case Some(t) => DateTime.StrnLen(t, max)
  }

  /**
   * `eventSetName(name, &field)` where the field held `previous`: a copy of
   * at most MAX_LENGTH_OF_NAME characters, or NAME_INVALID for a NULL or
   * empty name with the field untouched.
   */
  function SetName(name: Option<seq<char>>, previous: Option<seq<char>>): (r: Stored)
    ensures r.error == NoError <==> name.Some? && |name.value| > 0
    ensures r.error != NoError ==> r.error == NameInvalid && r.text == previous
    ensures r.error == NoError ==> r.text == Some(Prefix(name.value, MAX_LENGTH_OF_NAME))
  {
    var length := OptLength(name, MAX_LENGTH_OF_NAME);
    if length > 0 then Stored(NoError, Some(name.value[..length]))
    else Stored(NameInvalid, previous)
  }

  /**
   * `eventSetLocation`: the field is cleared, then a non-empty location is
   * copied (at most MAX_LENGTH_OF_LOCATION characters).
   */
  function SetLocation(location: Option<seq<char>>): (r: Stored)
    ensures r.error == NoError
    ensures r.text.None? <==> location.None? || |location.value| == 0
    ensures r.text.Some? ==> location.Some? && r.text.value == Prefix(location.value, MAX_LENGTH_OF_LOCATION)
  {
    var length := OptLength(location, MAX_LENGTH_OF_LOCATION);
    if length > 0 then Stored(NoError, Some(location.value[..length]))
    else Stored(NoError, None)
  }

  /**
   * The display text of an event: the name, "@ location " when there is a
   * location, the duration, a newline, then "date, time".
   */
  function DisplayString(name: seq<char>, location: Option<seq<char>>,
                         durationText: seq<char>, dateText: seq<char>, timeText: seq<char>): seq<char>
  {
    name + " " + (if location.Some? then "@ " + location.value + " " else [])
      + durationText + "\n" + dateText + ", " + timeText
  }

  /**
   * `eventString`: the length is added up piece by piece first, then the text
   * is built by successive `strcat`/`strncat` calls; the rendered date, time
   * and duration are cut to their buffers' sizes.
   */
  method EventString(name: seq<char>, location: Option<seq<char>>, date: DateTime.Date, time: DateTime.Time,
                     duration: int, render: Renderers) returns (text: seq<char>, length: int)
    ensures text == DisplayString(name, location,
      Prefix(render.durationString(duration), MAX_DURATION_STRING),
      Prefix(render.dateString(date), MAX_DATE_STRING),
      Prefix(render.timeString(time), MAX_TIME_STRING))
    ensures length == |text|
  {
    length := |name| + 1;
    if location.Some? {
      length := length + |location.value| + 3;
    }
    var durationText := render.durationString(duration);
    length := length + DateTime.StrnLen(durationText, MAX_DURATION_STRING) + 1;
    var dateText := render.dateString(date);
    length := length + DateTime.StrnLen(dateText, MAX_DATE_STRING) + 2;
    var timeText := render.timeString(time);
    length := length + DateTime.StrnLen(timeText, MAX_TIME_STRING);

    text := [];
    text := text + name;
    text := text + " ";
    if location.Some? {
      text := text + "@ ";
      text := text + location.value;
      text := text + " ";
    }
    text := text + Prefix(durationText, MAX_DURATION_STRING);
    text := text + "\n";
    text := text + Prefix(dateText, MAX_DATE_STRING);
    text := text + ", ";
    text := text + Prefix(timeText, MAX_TIME_STRING);
  }

  /** The error `eventCreate` reports: the first failing check, in the source's order. */
  function CreateError(stDate: seq<char>, stTime: seq<char>, duration: int,
                       name: Option<seq<char>>): EventError
  {
    if DateTime.DateParse(stDate, DateTime.ZERO_DATE).error != DateTime.NoError then DateInvalid
    else if DateTime.TimeParse(stTime, DateTime.ZERO_TIME).error != DateTime.NoError then TimeInvalid
    else if !DurationValid(duration) then DurationInvalid
    else if !(name.Some? && |name.value| > 0) then NameInvalid
    else NoError
  }

  /** What an event holds, apart from the text cached for display. */
  datatype EventValue = EventValue(date: DateTime.Date, time: DateTime.Time, duration: int,
                                   name: seq<char>, location: Option<seq<char>>)

  function ValueOf(e: Event): EventValue {
    EventValue(e.date, e.time, e.duration, e.name, e.location)
  }

  /** The values of a sequence of events, in order. */
  function ValuesOf(es: seq<Event>): (vs: seq<EventValue>)
    ensures |vs| == |es| && forall i :: 0 <= i < |es| ==> vs[i] == ValueOf(es[i])
  {
    if es == [] then [] else ValuesOf(es[..|es| - 1]) + [ValueOf(es[|es| - 1])]
  }

  /** The values of the events from `k` on are those of the whole sequence from `k` on. */
  lemma ValuesOfDrop(es: seq<Event>, k: nat)
    requires k <= |es|
    ensures ValuesOf(es[k..]) == ValuesOf(es)[k..]
  {
  }

  /**
   * What a new event holds when every check passes: the parsed date and
   * time, the duration, the name cut to MAX_LENGTH_OF_NAME and the location
   * as `eventSetLocation` stores it.
   */
  function CreatedValue(stDate: seq<char>, stTime: seq<char>, duration: int,
                        name: seq<char>, location: Option<seq<char>>): EventValue
  {
    EventValue(DateTime.DateParse(stDate, DateTime.ZERO_DATE).date,
               DateTime.TimeParse(stTime, DateTime.ZERO_TIME).time,
               duration, Prefix(name, MAX_LENGTH_OF_NAME), SetLocation(location).text)
  }

  /**
   * `eventCreate(&e, stDate, stTime, duration, name, location)`. Either every
   * check passes and a complete event comes back, or the first failing check
   * is reported and no event comes back. The out-parameter `date`/`time`
   * fields of the fresh struct start out undefined; `ZERO_DATE`/`ZERO_TIME`
   * stand for them, and they only survive when the event is discarded.
   */
  method EventCreate(stDate: seq<char>, stTime: seq<char>, duration: int,
                     name: Option<seq<char>>, location: Option<seq<char>>,
                     render: Renderers) returns (error: EventError, e: Event?)
    ensures error == CreateError(stDate, stTime, duration, name)
    ensures error == NoError <==> e != null
    ensures e != null ==> fresh(e) && name.Some? && ValueOf(e) == CreatedValue(stDate, stTime, duration, name.value, location)
    ensures e != null ==> e.formattedString == DisplayString(e.name, e.location,
      Prefix(render.durationString(e.duration), MAX_DURATION_STRING),
      Prefix(render.dateString(e.date), MAX_DATE_STRING),
      Prefix(render.timeString(e.time), MAX_TIME_STRING))
    ensures e != null ==> e.formattedStringLength == |e.formattedString|
  {
    error := NoError;
    e := null;
    var storedName: Option<seq<char>> := None;
    var storedLocation: Option<seq<char>> := None;
    var date := DateTime.DateParse(stDate, DateTime.ZERO_DATE);
    if date.error == DateTime.NoError {
      var time := DateTime.TimeParse(stTime, DateTime.ZERO_TIME);
      if time.error == DateTime.NoError {
        if DurationValid(duration) {
          if name.Some? && |name.value| > 0 {
            storedName := SetName(name, storedName).text;
            storedLocation := SetLocation(location).text;
            var text, length := EventString(storedName.value, storedLocation, date.date, time.time,
                                            duration, render);
            e := new Event(date.date, time.time, duration, storedName.value, storedLocation, text, length);
          } else {
            error := NameInvalid;
          }
        } else {
          error := DurationInvalid;
        }
      } else {
        error := TimeInvalid;
      }
    } else {
      error := DateInvalid;
    }
  }

  // ---------------------------------------------------------------------------
  // Properties of event creation

  /**
   * An event that is created holds a date and a time that passed validation,
   * a non-negative duration and a non-empty name.
   */
  lemma CreatedEventValid(stDate: seq<char>, stTime: seq<char>, duration: int, name: Option<seq<char>>)
    requires CreateError(stDate, stTime, duration, name) == NoError
    ensures DateTime.ValidDate(DateTime.DateParse(stDate, DateTime.ZERO_DATE).date)
    ensures DateTime.AcceptedTime(DateTime.TimeParse(stTime, DateTime.ZERO_TIME).time)
    ensures duration >= 0 && name.Some? && |name.value| > 0
  {
    DateTime.DateLengthGate(stDate, DateTime.ZERO_DATE);
    DateTime.TimeLengthGate(stTime, DateTime.ZERO_TIME);
    DateTime.DateParseOutcome(stDate, DateTime.ZERO_DATE);
    DateTime.TimeParseOutcome(stTime, DateTime.ZERO_TIME);
  }

  /** A name is stored whole up to MAX_LENGTH_OF_NAME characters and cut there beyond it. */
  lemma NameTruncation(name: seq<char>, previous: Option<seq<char>>)
    requires |name| > 0
    ensures var t := SetName(Some(name), previous).text.value;
      |t| <= MAX_LENGTH_OF_NAME && t == name[..|t|] &&
      (|name| <= MAX_LENGTH_OF_NAME ==> t == name) &&
      (|name| > MAX_LENGTH_OF_NAME ==> |t| == MAX_LENGTH_OF_NAME)
  {
  }

  /** A missing location and an empty one are both stored as no location. */
  lemma EmptyLocationIsNone()
    ensures SetLocation(None).text == SetLocation(Some("")).text == None
  {
  }

  /** The computed length is the length of the text the pieces make up. */
  lemma DisplayStringLength(name: seq<char>, location: Option<seq<char>>,
                            durationText: seq<char>, dateText: seq<char>, timeText: seq<char>)
    ensures |DisplayString(name, location, durationText, dateText, timeText)| ==
      |name| + 1 + (if location.Some? then |location.value| + 3 else 0)
      + |durationText| + 1 + |dateText| + 2 + |timeText|
  {
  }

  // ---------------------------------------------------------------------------
  // The cases of the unit tests

  const VALID_DATE: seq<char> := "2010-10-10"
  const VALID_TIME: seq<char> := "18:05"

  /** A valid date, time, duration, name and location make an event with those values. */
  lemma CreateValidEvent()
    ensures CreateError(VALID_DATE, VALID_TIME, 73, Some("Blah")) == NoError
    ensures DateTime.DateParse(VALID_DATE, DateTime.ZERO_DATE).date == DateTime.Date(10, 10, 2010)
    ensures DateTime.TimeParse(VALID_TIME, DateTime.ZERO_TIME).time == DateTime.Time(18, 5)
    ensures SetName(Some("Blah"), None).text == Some("Blah")
    ensures SetLocation(Some("Office")).text == Some("Office")
  {
    DateTime.ParseEventDate(VALID_DATE, DateTime.ZERO_DATE);
    DateTime.ParseValidTime(DateTime.ZERO_TIME);
  }

  lemma CreateNegativeDuration()
    ensures CreateError(VALID_DATE, VALID_TIME, -1, Some("Blah")) == DurationInvalid
  {
    DateTime.ParseEventDate(VALID_DATE, DateTime.ZERO_DATE);
    DateTime.ParseValidTime(DateTime.ZERO_TIME);
  }

  lemma CreateBadTime()
    ensures CreateError(VALID_DATE, "24:01", 75, Some("Blah")) == TimeInvalid
  {
    DateTime.ParseEventDate(VALID_DATE, DateTime.ZERO_DATE);
    DateTime.ParseBadMinutes(DateTime.ZERO_TIME);
  }

  lemma CreateBadDate()
    ensures CreateError("0-01-01", VALID_TIME, 75, Some("Blah")) == DateInvalid
  {
    DateTime.ParseYearZero("0-01-01", DateTime.ZERO_DATE);
  }

  lemma CreateWithoutName()
    ensures CreateError(VALID_DATE, VALID_TIME, 75, Some("")) == NameInvalid
    ensures CreateError(VALID_DATE, VALID_TIME, 75, None) == NameInvalid
  {
    DateTime.ParseEventDate(VALID_DATE, DateTime.ZERO_DATE);
    DateTime.ParseValidTime(DateTime.ZERO_TIME);
  }
}
