/**
 * Saving and loading agree: a calendar file written by `saveCalendar`
 * loads back, through `loadCalendar`, the events it was written from, as
 * long as each event's fields survive the file format.
 */
module RoundTrip {
  import opened LibC
  import opened InputFiles
  import opened CalendarFiles
  import DateTime
  import Events

  /**
   * An event the file format carries unchanged: a valid date whose year has
   * at most four digits, an accepted time, a duration the `%10i` field reads
   * back, a name of EVENT_NAME_MIN_LENGTH to MAX_LENGTH_OF_NAME characters
   * on one line and not starting with white space (the space before it in
   * the format would swallow it), and a location, if any, that is a
   * non-empty line of at most MAX_LENGTH_OF_LOCATION characters. Neither
   * holds a NUL: both are the contents of C strings.
   */
  predicate Storable(v: Events.EventValue) {
    DateTime.ValidDate(v.date) && v.date.year <= 9999 && v.date.day >= -9 &&
    DateTime.AcceptedTime(v.time) && v.time.minutes <= 99 &&
    0 <= v.duration < Pow10(DURATION_FIELD_WIDTH) &&
    EVENT_NAME_MIN_LENGTH <= |v.name| <= Events.MAX_LENGTH_OF_NAME && !IsSpace(v.name[0]) &&
    (forall i :: 0 <= i < |v.name| ==> v.name[i] != '\n') && NoNul(v.name) &&
    (v.location.Some? ==>
       0 < |v.location.value| <= Events.MAX_LENGTH_OF_LOCATION &&
       (forall i :: 0 <= i < |v.location.value| ==> v.location.value[i] != '\n') && NoNul(v.location.value))
  }

  /**
   * `x` is found in `s` at `q`. It is defined character by character so that
   * only the lemmas that need it see the slice (AtSlice).
   */
  predicate At(s: seq<char>, q: nat, x: seq<char>)
    decreases |x|
  {
    q + |x| <= |s| && (|x| == 0 || (s[q] == x[0] && At(s, q + 1, x[1..])))
  }

  lemma {:induction false} AtSlice(s: seq<char>, q: nat, x: seq<char>)
    ensures At(s, q, x) <==> q + |x| <= |s| && s[q..q + |x|] == x
    decreases |x|
  {
    if |x| > 0 && q + |x| <= |s| {
      AtSlice(s, q + 1, x[1..]);
      assert s[q..q + |x|] == [s[q]] + s[q + 1..q + |x|];
      assert x == [x[0]] + x[1..];
    }
  }

  lemma FoundAt(s: seq<char>, q: nat, x: seq<char>)
    requires Found(s, q, x)
    ensures At(s, q, x)
  {
    AtSlice(s, q, x);
  }

  lemma AtConcat(s: seq<char>, q: nat, x: seq<char>, y: seq<char>)
    requires At(s, q, x + y)
    ensures At(s, q, x) && At(s, q + |x|, y)
  {
    AtSlice(s, q, x + y);
    AtSlice(s, q, x);
    AtSlice(s, q + |x|, y);
    FoundConcat(s, q, x, y);
  }

  /** `x` is found in `s` at `q`, as a slice: the form the lemmas about whole records use. */
  predicate Found(s: seq<char>, q: nat, x: seq<char>) {
    q + |x| <= |s| && s[q..q + |x|] == x
  }

  lemma FoundConcat(s: seq<char>, q: nat, x: seq<char>, y: seq<char>)
    requires Found(s, q, x + y)
    ensures Found(s, q, x) && Found(s, q + |x|, y)
  {
    assert s[q..q + |x|] == (x + y)[..|x|];
    assert s[q + |x|..q + |x| + |y|] == (x + y)[|x|..];
  }

  lemma FoundSplit(s: seq<char>, q: nat, x: seq<char>, a: seq<char>, b: seq<char>)
    requires Found(s, q, x) && x == a + b
    ensures Found(s, q, a) && Found(s, q + |a|, b) && |x| == |a| + |b|
  {
    FoundConcat(s, q, a, b);
  }

  lemma AtChar(s: seq<char>, q: nat, c: char)
    requires At(s, q, [c])
    ensures q < |s| && s[q] == c
  {
  }

  /** A duration the `%10i` field reads back is written as its plain decimal digits. */
  lemma DurationDigits(n: int)
    requires 0 <= n < Pow10(DURATION_FIELD_WIDTH)
    ensures var d := FormatInt(n, 0);
      d == Decimal(n) && AllDigits(d) && 1 <= |d| <= DURATION_FIELD_WIDTH && DigitsValue(d) == n
  {
    assert FormatInt(n, 0) == [] + Decimal(n);
    DecimalLength(n, DURATION_FIELD_WIDTH);
    DecimalValue(n);
  }

  /** White space from `pos` up to a non-space character at `q` is skipped. */
  lemma {:induction false} SkipSpaces(s: seq<char>, pos: nat, q: nat)
    requires pos <= q < |s| && !IsSpace(s[q])
    requires forall i :: pos <= i < q ==> IsSpace(s[i])
    ensures SkipSpace(s, pos) == q
    decreases q - pos
  {
    if pos < q {
      SkipSpaces(s, pos + 1, q);
    }
  }

  /** One space before a non-space character is skipped. */
  lemma SkipOneSpace(s: seq<char>, k: nat)
    requires k + 1 < |s| && IsSpace(s[k]) && !IsSpace(s[k + 1])
    ensures SkipSpace(s, k) == k + 1
  {
    NoSkipAtNonSpace(s, k + 1);
  }

  lemma AtFirst(s: seq<char>, q: nat, x: seq<char>)
    requires At(s, q, x) && |x| > 0
    ensures q < |s| && s[q] == x[0]
  {
  }

  /** `%<width>s` over white space and then a token of exactly `width` characters at `q`. */
  lemma TokenAt(s: seq<char>, pos: nat, q: nat, t: seq<char>, width: nat)
    requires At(s, q, t) && q + width < |s|
    requires pos <= q && forall i :: pos <= i < q ==> IsSpace(s[i])
    requires |t| == width >= 1 && forall i :: 0 <= i < |t| ==> !IsSpace(t[i])
    ensures ScanToken(s, pos, width) == Scanned(true, t, q + width, false)
  {
    AtFirst(s, q, t);
    AtSlice(s, q, t);
    SkipSpaces(s, pos, q);
    ScanTokenRun(s, q, t, width);
  }

  /** `%10i` over one space and then the digits `d` of `n`, followed by a space. */
  lemma DurationAt(s: seq<char>, k: nat, d: seq<char>, n: int)
    requires AllDigits(d) && 1 <= |d| <= DURATION_FIELD_WIDTH && DigitsValue(d) == n
    requires k < |s| && s[k] == ' ' && At(s, k + 1, d) && k + 1 + |d| < |s| && s[k + 1 + |d|] == ' '
    ensures ScanInt(s, SkipSpace(s, k), DURATION_FIELD_WIDTH) == IntScan(true, n, k + 1 + |d|, false)
  {
    AtFirst(s, k + 1, d);
    AtSlice(s, k + 1, d);
    SkipOneSpace(s, k);
    ScanDigitRun(s, k + 1, d, DURATION_FIELD_WIDTH);
  }

  /**
   * `fscanf` with `EVENT_LEADING_FORMAT` over white space and then the first
   * line of a record, up to its name: the date, time and duration fields,
   * and the space before the name skipped.
   */
  lemma LeadingAt(s: seq<char>, pos: nat, q: nat, fd: seq<char>, ft: seq<char>, d: seq<char>, n: int)
    requires q + 18 + |d| < |s|
    requires pos <= q && forall i :: pos <= i < q ==> IsSpace(s[i])
    requires |fd| == DATE_FIELD_WIDTH && forall i :: 0 <= i < |fd| ==> !IsSpace(fd[i])
    requires |ft| == TIME_FIELD_WIDTH && forall i :: 0 <= i < |ft| ==> !IsSpace(ft[i])
    requires AllDigits(d) && 1 <= |d| <= DURATION_FIELD_WIDTH && DigitsValue(d) == n
    requires At(s, q, fd) && s[q + 10] == ' ' && At(s, q + 11, ft) && s[q + 16] == ' '
    requires At(s, q + 17, d) && s[q + 17 + |d|] == ' ' && !IsSpace(s[q + 18 + |d|])
    ensures ScanLeading(s, pos) == Leading(3, fd, ft, n, q + 18 + |d|, false)
  {
    TokenAt(s, pos, q, fd, DATE_FIELD_WIDTH);
    AtFirst(s, q + 11, ft);
    SkipOneSpace(s, q + 10);
    TokenAt(s, q + 11, q + 11, ft, TIME_FIELD_WIDTH);
    SkipOneSpace(s, q + 17 + |d|);
    DurationAt(s, q + 16, d, n);
  }

  /** A line holding `t` and ended by a newline at `p`. */
  lemma LineAt(s: seq<char>, p: nat, t: seq<char>)
    requires At(s, p, t) && forall i :: 0 <= i < |t| ==> t[i] != '\n'
    requires p + |t| < |s| && s[p + |t|] == '\n'
    ensures ReadLine(s, p) == Line(t, p + |t| + 1, true)
  {
    AtSlice(s, p, t);
    forall i | p <= i < p + |t|
      ensures s[i] != '\n'
    {
      assert s[i] == t[i - p];
    }
    LineEndAt(s, p, p + |t|);
  }

  /** The pieces of a record found at `q`: its first line field by field, then the location part. */
  lemma RecordSplit(s: seq<char>, q: nat, fd: seq<char>, ft: seq<char>, d: seq<char>, name: seq<char>, lp: seq<char>)
    requires |fd| == DATE_FIELD_WIDTH && |ft| == TIME_FIELD_WIDTH
    requires At(s, q, fd + " " + ft + " " + d + " " + name + "\n" + lp + "\n")
    ensures At(s, q, fd) && s[q + 10] == ' ' && At(s, q + 11, ft) && s[q + 16] == ' '
    ensures At(s, q + 17, d) && s[q + 17 + |d|] == ' ' && At(s, q + 18 + |d|, name)
    ensures q + 19 + |d| + |name| + |lp| < |s|
    ensures s[q + 18 + |d| + |name|] == '\n' && At(s, q + 19 + |d| + |name|, lp)
    ensures s[q + 19 + |d| + |name| + |lp|] == '\n'
  {
    var x1 := fd + " ";
    var x2 := x1 + ft;
    var x3 := x2 + " ";
    var x4 := x3 + d;
    var x5 := x4 + " ";
    var x6 := x5 + name;
    var x7 := x6 + "\n";
    var x8 := x7 + lp;
    AtConcat(s, q, x8, "\n");
    AtChar(s, q + |x8|, '\n');
    AtConcat(s, q, x7, lp);
    AtConcat(s, q, x6, "\n");
    AtChar(s, q + |x6|, '\n');
    AtConcat(s, q, x5, name);
    AtConcat(s, q, x4, " ");
    AtChar(s, q + |x4|, ' ');
    AtConcat(s, q, x3, d);
    AtConcat(s, q, x2, " ");
    AtChar(s, q + |x2|, ' ');
    AtConcat(s, q, x1, ft);
    AtConcat(s, q, fd, " ");
    AtChar(s, q + |fd|, ' ');
  }

  /** `eventCreate` on the fields of the record of a storable event gives that event back. */
  lemma CreatedOfRecord(v: Events.EventValue, next: nat)
    requires Storable(v)
    ensures Created(NoError, DateTime.FormatDate(v.date), DateTime.FormatTime(v.time), v.duration,
                    v.name, v.location, next, false)
         == EventRead(NoError, Events.NoError, Some(v), next, false)
  {
    var fd := DateTime.FormatDate(v.date);
    var ft := DateTime.FormatTime(v.time);
    assert fd + [] == fd && ft + [] == ft;
    DateTime.DateRoundTrip(v.date, [], DateTime.ZERO_DATE);
    DateTime.TimeRoundTrip(v.time, [], DateTime.ZERO_TIME);
    assert Prefix(v.name, Events.MAX_LENGTH_OF_NAME) == v.name;
    if v.location.Some? {
      assert Prefix(v.location.value, Events.MAX_LENGTH_OF_LOCATION) == v.location.value;
    }
  }

  /** A name line ended by a newline and the line after it make `readEventFromFile` create the event. */
  lemma LinesRead(s: seq<char>, p: nat, date: seq<char>, time: seq<char>, duration: int,
                  name: seq<char>, n1: nat, location: Line)
    requires p <= |s| && n1 <= |s| && EVENT_NAME_MIN_LENGTH <= |name|
    requires ReadLine(s, p) == Line(name, n1, true) && ReadLine(s, n1) == location
    ensures ReadEventLines(s, p, false, date, time, duration)
         == Created(LocationField(location).error, date, time, duration, name, LocationField(location).text,
                    location.next, !location.newline)
  {
  }

  /**
   * After the leading fields, a name line and then a location line (or an
   * empty line when there is no location) give the complete event.
   */
  lemma LinesAt(s: seq<char>, p: nat, date: seq<char>, time: seq<char>, duration: int,
                name: seq<char>, location: Option<seq<char>>)
    requires EVENT_NAME_MIN_LENGTH <= |name| && forall i :: 0 <= i < |name| ==> name[i] != '\n'
    requires At(s, p, name) && p + |name| < |s| && s[p + |name|] == '\n'
    requires location.Some? ==>
      var l := location.value;
      0 < |l| && (forall i :: 0 <= i < |l| ==> l[i] != '\n') &&
      At(s, p + |name| + 1, l) && p + |name| + 1 + |l| < |s| && s[p + |name| + 1 + |l|] == '\n'
    requires location.None? ==> p + |name| + 1 < |s| && s[p + |name| + 1] == '\n'
    ensures ReadEventLines(s, p, false, date, time, duration)
         == Created(NoError, date, time, duration, name, location,
                    p + |name| + 1 + (if location.Some? then |location.value| + 1 else 1), false)
  {
    var n1 := p + |name| + 1;
    LineAt(s, p, name);
    if location.Some? {
      LineAt(s, n1, location.value);
    } else {
      LineAt(s, n1, []);
    }
    LinesRead(s, p, date, time, duration, name, n1, ReadLine(s, n1));
  }

  /** Where reading the record of `v` found at `q` stops: before the blank line's newline when there is a location line. */
  function RecordEnd(v: Events.EventValue, q: nat): nat {
    q + |RecordText(v)| - (if v.location.Some? then 1 else 0)
  }

  /** The location part of a record: the location and its newline, or nothing. */
  function LocationPart(location: Option<seq<char>>): seq<char> {
    if location.Some? then location.value + "\n" else []
  }

  /** `readEventFromFile` once the leading fields are read up to `p` and the lines after them give `r`. */
  lemma ReadEventOf(s: seq<char>, pos: nat, p: nat, fd: seq<char>, ft: seq<char>, n: int, r: EventRead)
    requires pos <= |s| && p <= |s|
    requires ScanLeading(s, pos) == Leading(3, fd, ft, n, p, false)
    requires ReadEventLines(s, p, false, fd, ft, n) == r
    ensures ReadEvent(s, pos, false) == r
  {
  }

  /**
   * Field texts that the leading format and the two line reads take apart
   * again: a date and a time of full width without white space, the digits
   * of the duration `n`, a name on one line long enough to be accepted and
   * not starting with white space, and a non-empty location on one line.
   */
  predicate FieldTexts(fd: seq<char>, ft: seq<char>, d: seq<char>, n: int, name: seq<char>, location: Option<seq<char>>) {
    |fd| == DATE_FIELD_WIDTH && (forall i :: 0 <= i < |fd| ==> !IsSpace(fd[i])) &&
    |ft| == TIME_FIELD_WIDTH && (forall i :: 0 <= i < |ft| ==> !IsSpace(ft[i])) &&
    AllDigits(d) && 1 <= |d| <= DURATION_FIELD_WIDTH && DigitsValue(d) == n &&
    EVENT_NAME_MIN_LENGTH <= |name| && !IsSpace(name[0]) && (forall i :: 0 <= i < |name| ==> name[i] != '\n') &&
    (location.Some? ==> 0 < |location.value| && forall i :: 0 <= i < |location.value| ==> location.value[i] != '\n')
  }

  /**
   * `readEventFromFile` over white space and then a record with the field
   * texts `fd`, `ft`, `d` (the digits of `n`), the name and the location.
   */
  lemma ReadFields(s: seq<char>, pos: nat, q: nat, fd: seq<char>, ft: seq<char>, d: seq<char>, n: int,
                   name: seq<char>, location: Option<seq<char>>)
    requires FieldTexts(fd, ft, d, n, name, location)
    requires At(s, q, fd + " " + ft + " " + d + " " + name + "\n" + LocationPart(location) + "\n")
    requires pos <= q && forall i :: pos <= i < q ==> IsSpace(s[i])
    ensures q + 20 + |d| + |name| + |LocationPart(location)| <= |s|
    ensures ReadEvent(s, pos, false)
         == Created(NoError, fd, ft, n, name, location,
                    q + 19 + |d| + |name| + (if location.Some? then |location.value| + 1 else 1), false)
  {
    var lp := LocationPart(location);
    RecordSplit(s, q, fd, ft, d, name, lp);
    var p := q + 18 + |d|;
    AtFirst(s, p, name);
    if location.Some? {
      AtConcat(s, p + |name| + 1, location.value, "\n");
      AtChar(s, p + |name| + 1 + |location.value|, '\n');
    }
    LinesAt(s, p, fd, ft, n, name, location);
    LeadingAt(s, pos, q, fd, ft, d, n);
    ReadEventOf(s, pos, p, fd, ft, n, Created(NoError, fd, ft, n, name, location,
                q + 19 + |d| + |name| + (if location.Some? then |location.value| + 1 else 1), false));
  }

  /** The record of a storable event, field by field. */
  lemma RecordFields(v: Events.EventValue)
    requires Storable(v)
    ensures var fd := DateTime.FormatDate(v.date);
      var ft := DateTime.FormatTime(v.time);
      var d := FormatInt(v.duration, 0);
      FieldTexts(fd, ft, d, v.duration, v.name, v.location) &&
      RecordText(v) == fd + " " + ft + " " + d + " " + v.name + "\n" + LocationPart(v.location) + "\n"
  {
    DateTime.FormatDateShape(v.date);
    DateTime.FormatTimeShape(v.time);
    DurationDigits(v.duration);
  }

  /**
   * `readEventFromFile` over white space and then the record `saveCalendar`
   * writes for a storable event reads that event back without error.
   */
  lemma ReadRecord(s: seq<char>, pos: nat, q: nat, v: Events.EventValue)
    requires Storable(v) && Found(s, q, RecordText(v))
    requires pos <= q && forall i :: pos <= i < q ==> IsSpace(s[i])
    ensures RecordEnd(v, q) <= |s|
    ensures ReadEvent(s, pos, false) == EventRead(NoError, Events.NoError, Some(v), RecordEnd(v, q), false)
  {
    RecordFields(v);
    FoundAt(s, q, RecordText(v));
    ReadFields(s, pos, q, DateTime.FormatDate(v.date), DateTime.FormatTime(v.time), FormatInt(v.duration, 0),
               v.duration, v.name, v.location);
    CreatedOfRecord(v, RecordEnd(v, q));
  }

  /**
   * Only white space left: `fscanf` reaches the end of the file before its
   * first conversion, so the read reports FILE_EOF and nothing more is loaded.
   */
  lemma EndOfFile(s: seq<char>, pos: nat)
    requires pos <= |s| && forall i :: pos <= i < |s| ==> IsSpace(s[i])
    ensures ReadEvent(s, pos, false) == EventRead(Eof, Events.ReadError, None, |s|, true)
    ensures LoadEvents(s, pos, false) == Loaded(Eof, [])
  {
    assert SkipSpace(s, pos) == |s|;
  }

  /** A file holding only white space, the empty file among them, loads no event and no error. */
  lemma LoadBlank(filename: seq<char>, s: seq<char>)
    requires forall i :: 0 <= i < |s| ==> IsSpace(s[i])
    ensures Load(Some(filename), Some(s)) == Loaded(NoError, [])
  {
    EndOfFile(s, 0);
  }

  /** The lines of a record: all of it but the newline of its blank line. */
  function RecordLines(v: Events.EventValue): seq<char> {
    DateTime.FormatDate(v.date) + " " + DateTime.FormatTime(v.time) + " " + FormatInt(v.duration, 0) + " " + v.name + "\n"
      + (if v.location.Some? then v.location.value + "\n" else [])
  }

  lemma RecordEndsLine(v: Events.EventValue)
    ensures RecordText(v) == RecordLines(v) + "\n"
  {
  }

  /** The last character of a record is the newline of its blank line. */
  lemma RecordLast(s: seq<char>, q: nat, v: Events.EventValue)
    requires Found(s, q, RecordText(v))
    ensures 0 < |RecordText(v)| && s[q + |RecordText(v)| - 1] == '\n'
  {
    RecordEndsLine(v);
    FoundConcat(s, q, RecordLines(v), "\n");
    var k := q + |RecordLines(v)|;
    assert s[k] == s[k..k + 1][0];
  }

  /** What is left of a record once it is read: nothing, or the newline of its blank line. */
  lemma RecordGap(s: seq<char>, q: nat, v: Events.EventValue)
    requires Found(s, q, RecordText(v))
    ensures RecordEnd(v, q) <= q + |RecordText(v)|
    ensures forall i :: RecordEnd(v, q) <= i < q + |RecordText(v)| ==> IsSpace(s[i])
  {
    var k := q + |RecordText(v)|;
    if v.location.Some? {
      RecordLast(s, q, v);
      assert RecordEnd(v, q) == k - 1;
      assert IsSpace(s[k - 1]);
    } else {
      assert RecordEnd(v, q) == k;
    }
  }


  /**
   * The text of `s` from `pos` on: white space up to `q`, the records of
   * the storable events `vs` from `q`, and white space up to the end.
   */
  predicate SavedAt(s: seq<char>, pos: nat, q: nat, vs: seq<Events.EventValue>) {
    (forall i :: 0 <= i < |vs| ==> Storable(vs[i])) &&
    Found(s, q, SaveText(vs)) && (forall i :: q + |SaveText(vs)| <= i < |s| ==> IsSpace(s[i])) &&
    pos <= q && forall i :: pos <= i < q ==> IsSpace(s[i])
  }

  /** Saved text starts with the record of its first event, and the text of the others follows. */
  lemma SaveSplit(s: seq<char>, q: nat, vs: seq<Events.EventValue>, rest: seq<char>)
    requires vs != [] && rest == SaveText(vs[1..]) && Found(s, q, SaveText(vs))
    ensures Found(s, q, RecordText(vs[0])) && Found(s, q + |RecordText(vs[0])|, rest)
    ensures |RecordText(vs[0])| + |rest| == |SaveText(vs)|
  {
    SaveTextCons(vs);
    FoundSplit(s, q, SaveText(vs), RecordText(vs[0]), rest);
  }

  lemma SaveTextCons(vs: seq<Events.EventValue>)
    requires vs != []
    ensures SaveText(vs) == RecordText(vs[0]) + SaveText(vs[1..])
  {
  }


  lemma StorableTail(vs: seq<Events.EventValue>)
    requires vs != [] && forall i :: 0 <= i < |vs| ==> Storable(vs[i])
    ensures Storable(vs[0]) && forall i :: 0 <= i < |vs[1..]| ==> Storable(vs[1..][i])
  {
    forall i | 0 <= i < |vs[1..]|
      ensures Storable(vs[1..][i])
    {
      assert vs[1..][i] == vs[i + 1];
    }
  }

  /** Past the first record of saved text: the records of the other events, after a gap of white space. */
  lemma SavedTail(s: seq<char>, pos: nat, q: nat, vs: seq<Events.EventValue>)
    requires vs != [] && SavedAt(s, pos, q, vs)
    ensures Storable(vs[0]) && Found(s, q, RecordText(vs[0]))
    ensures SavedAt(s, RecordEnd(vs[0], q), q + |RecordText(vs[0])|, vs[1..])
  {
    SaveSplit(s, q, vs, SaveText(vs[1..]));
    StorableTail(vs);
    RecordGap(s, q, vs[0]);
  }

  /**
   * The first record of saved text is read back without error; reading
   * stops at `e`, from where the rest is saved text again.
   */
  lemma SavedFirst(s: seq<char>, pos: nat, q: nat, vs: seq<Events.EventValue>)
    requires vs != [] && Storable(vs[0]) && Found(s, q, RecordText(vs[0]))
    requires pos <= q && forall i :: pos <= i < q ==> IsSpace(s[i])
    requires SavedAt(s, RecordEnd(vs[0], q), q + |RecordText(vs[0])|, vs[1..])
    ensures exists e: nat, q': nat ::
      e <= |s| && SavedAt(s, e, q', vs[1..]) &&
      ReadEvent(s, pos, false) == EventRead(NoError, Events.NoError, Some(vs[0]), e, false)
  {
    ReadRecord(s, pos, q, vs[0]);
  }

  /**
   * Reading events one after the other from `pos` gives the values `vs`
   * without error, and then the end of the file.
   */
  predicate ReadsBack(s: seq<char>, pos: nat, vs: seq<Events.EventValue>)
    requires pos <= |s|
    decreases |vs|
  {
    var r := ReadEvent(s, pos, false);
    if vs == [] then r.error == Eof && r.value.None?
    else r.error == NoError && r.value == Some(vs[0]) && ReadsBack(s, r.next, vs[1..])
  }

  /** Saved text with white space around it is read back event by event. */
  lemma {:induction false} SavedReadBack(s: seq<char>, pos: nat, q: nat, vs: seq<Events.EventValue>)
    requires pos <= |s| && SavedAt(s, pos, q, vs)
    ensures ReadsBack(s, pos, vs)
    decreases |vs|
  {
    if vs == [] {
      EndOfFile(s, pos);
    } else {
      SavedTail(s, pos, q, vs);
      SavedFirst(s, pos, q, vs);
      var e: nat, q': nat :| e <= |s| && SavedAt(s, e, q', vs[1..]) &&
        ReadEvent(s, pos, false) == EventRead(NoError, Events.NoError, Some(vs[0]), e, false);
      SavedReadBack(s, e, q', vs[1..]);
    }
  }

  /** Reads that give `vs` and then the end of the file: `loadCalendar`'s loop loads `vs` and stops there. */
  lemma {:induction false} LoadReadBack(s: seq<char>, pos: nat, vs: seq<Events.EventValue>)
    requires pos <= |s| && ReadsBack(s, pos, vs)
    ensures LoadEvents(s, pos, false) == Loaded(Eof, vs)
    decreases |vs|
  {
    if vs != [] {
      var r := ReadEvent(s, pos, false);
      LoadReadBack(s, r.next, vs[1..]);
      ConsSplit(vs);
    }
  }

  lemma ConsSplit<T>(xs: seq<T>)
    requires xs != []
    ensures [xs[0]] + xs[1..] == xs
  {
  }

  /** The record of a storable event holds no NUL. */
  lemma RecordNoNul(v: Events.EventValue)
    requires Storable(v)
    ensures NoNul(RecordText(v))
  {
    DateTime.FormatNoNul(v.date, v.time);
    FormatIntNoNul(v.duration, 0);
    var text := DateTime.FormatDate(v.date);
    NoNulConcat(text, " ");
    text := text + " ";
    NoNulConcat(text, DateTime.FormatTime(v.time));
    text := text + DateTime.FormatTime(v.time);
    NoNulConcat(text, " ");
    text := text + " ";
    NoNulConcat(text, FormatInt(v.duration, 0));
    text := text + FormatInt(v.duration, 0);
    NoNulConcat(text, " ");
    text := text + " ";
    NoNulConcat(text, v.name);
    text := text + v.name;
    NoNulConcat(text, "\n");
    text := text + "\n";
    var location := if v.location.Some? then v.location.value + "\n" else [];
    if v.location.Some? {
      NoNulConcat(v.location.value, "\n");
    }
    NoNulConcat(text, location);
    text := text + location;
    NoNulConcat(text, "\n");
  }

  /** What `saveCalendar` writes for storable events holds no NUL: `loadCalendar` can be given it. */
  lemma {:induction false} SaveTextNoNul(vs: seq<Events.EventValue>)
    requires forall i :: 0 <= i < |vs| ==> Storable(vs[i])
    ensures NoNul(SaveText(vs))
    decreases |vs|
  {
    if vs != [] {
      StorableTail(vs);
      RecordNoNul(vs[0]);
      SaveTextNoNul(vs[1..]);
      NoNulConcat(RecordText(vs[0]), SaveText(vs[1..]));
    }
  }

  /**
   * Saving and loading agree: loading the text `saveCalendar` writes for a
   * list of storable events gives back those events, in order, without error;
   * that text holds no NUL, as `loadCalendar` requires.
   */
  lemma LoadOfSave(filename: seq<char>, vs: seq<Events.EventValue>)
    requires forall i :: 0 <= i < |vs| ==> Storable(vs[i])
    ensures NoNul(SaveText(vs))
    ensures Load(Some(filename), Some(SaveText(vs))) == Loaded(NoError, vs)
  {
    SaveTextNoNul(vs);
    var s := SaveText(vs);
    assert s[0..|s|] == s;
    SavedReadBack(s, 0, 0, vs);
    LoadReadBack(s, 0, vs);
  }
}
