/**
 * Date and time validation of the calendar: a length gate on the text, a
 * width-limited `sscanf` of the fields, then a check of each field in a
 * fixed order. `dateParse` and `timeParse` write their result through an
 * out-parameter; here they return the error code together with the value the
 * out-parameter holds afterwards.
 */
module DateTime {
  import opened LibC

  const DATETIME_MIN_DATE_STR_LEN: nat := 6
  const DATETIME_MAX_DATE_STR_LEN: nat := 20
  const DATETIME_MIN_TIME_STR_LEN: nat := 3
  const DATETIME_MAX_TIME_STR_LEN: nat := 8

  const NUM_MONTHS_IN_YEAR := 12
  const MAX_HOURS := 24
  const MAX_MINUTES := 59

  /** sscanf's return value when input ends before the first conversion. */
  const EOF := -1

  datatype DateTimeError =
    | NoError
    | StrTooShort
    | StrTooLong
    | YearInvalid
    | MonthInvalid
    | DayInvalid
    | HourInvalid
    | MinutesInvalid
    | Invalid

  datatype Date = Date(day: int, month: int, year: int)

  datatype Time = Time(hour: int, minutes: int)

  const ZERO_DATE := Date(0, 0, 0)
  const ZERO_TIME := Time(0, 0)

  /** An error code and the value left in the caller's out-parameter. */
  datatype DateResult = DateResult(error: DateTimeError, date: Date)

  datatype TimeResult = TimeResult(error: DateTimeError, time: Time)

  // ---------------------------------------------------------------------------
  // The length gate

  /** `strnlen(s, max)`: the length of the text, counting at most `max`. */
  function StrnLen(s: seq<char>, max: nat): (n: nat)
    ensures n <= max && n <= |s|
    ensures n < max ==> n == |s|
  {
    if |s| < max then |s| else max
  }

  /**
   * `checkStrLength`: text of `max` characters or more is too long, text
   * shorter than `min` (and shorter than `max`) too short.
   */
  function CheckStrLength(s: seq<char>, min: nat, max: nat): (r: DateTimeError)
    ensures r == StrTooLong <==> |s| >= max
    ensures r == StrTooShort <==> |s| < min && |s| < max
    ensures r == NoError <==> min <= |s| < max
    ensures r in {NoError, StrTooShort, StrTooLong}
  {
    var len := StrnLen(s, max);
    if len != max then
      if len < min then StrTooShort else NoError
    else StrTooLong
  }

  // ---------------------------------------------------------------------------
  // Scanning the fields

  /** What `sscanf` returns and stores for a two- or three-field format. */
  datatype FieldScan = FieldScan(count: int, first: int, second: int, third: int)

  /**
   * `sscanf(s, "%4d-%2d-%2d", &year, &month, &day)`: the number of fields
   * converted (EOF when the text ends before the first), and the first
   * `count` values; fields that were not converted are reported as 0.
   */
  function ScanDate(s: seq<char>): (r: FieldScan)
    ensures r.count in {EOF, 0, 1, 2, 3}
  {
    var y := ScanInt(s, 0, 4);
    if !y.ok then FieldScan(if y.hitEnd then EOF else 0, 0, 0, 0)
    else if !ScanLiteral(s, y.next, '-').ok then FieldScan(1, y.value, 0, 0)
    else
      var m := ScanInt(s, y.next + 1, 2);
      if !m.ok then FieldScan(1, y.value, 0, 0)
      else if !ScanLiteral(s, m.next, '-').ok then FieldScan(2, y.value, m.value, 0)
      else
        var d := ScanInt(s, m.next + 1, 2);
        if !d.ok then FieldScan(2, y.value, m.value, 0)
        else FieldScan(3, y.value, m.value, d.value)
  }

  /** `sscanf(s, "%2d:%2d", &hour, &minutes)`. */
  function ScanTime(s: seq<char>): (r: FieldScan)
    ensures r.count in {EOF, 0, 1, 2}
  {
    var h := ScanInt(s, 0, 2);
    if !h.ok then FieldScan(if h.hitEnd then EOF else 0, 0, 0, 0)
    else if !ScanLiteral(s, h.next, ':').ok then FieldScan(1, h.value, 0, 0)
    else
      var m := ScanInt(s, h.next + 1, 2);
      if !m.ok then FieldScan(1, h.value, 0, 0)
      else FieldScan(2, h.value, m.value, 0)
  }

  // ---------------------------------------------------------------------------
  // Validation

  /** `isLeapYear`, with the source's order of tests. */
  predicate IsLeapYear(year: int) {
    if year % 400 == 0 then true
    else if year % 100 == 0 then false
    else year % 4 == 0
  }

  function CheckYear(year: int): (r: DateTimeError)
    ensures r == NoError <==> year >= 1
    ensures r != NoError ==> r == YearInvalid
  {
    if year < 1 then YearInvalid else NoError
  }

  function CheckMonth(month: int): (r: DateTimeError)
    ensures r == NoError <==> 1 <= month <= 12
    ensures r != NoError ==> r == MonthInvalid
  {
    if month < 1 || month > NUM_MONTHS_IN_YEAR then MonthInvalid else NoError
  }

  /** The `days_in_month` table of `checkDay`. */
  const DAYS_IN_MONTH: seq<int> := [31, 28, 31, 30, 31, 30, 31, 31, 30, 31, 30, 31]

  /** `checkDay`: only an upper bound on the day; the month is already checked. */
  function CheckDay(year: int, month: int, day: int): (r: DateTimeError)
    requires 1 <= month <= 12
    ensures r == NoError || r == DayInvalid
  {
    var maxDays := if IsLeapYear(year) && month == 2 then 29 else DAYS_IN_MONTH[month - 1];
    if maxDays < day then DayInvalid else NoError
  }

  /** `validateDate`: year, then month, then day; the first failure is reported. */
  function ValidateDate(year: int, month: int, day: int): (r: DateTimeError)
    ensures r in {NoError, YearInvalid, MonthInvalid, DayInvalid}
  {
    var result := CheckYear(year);
    if result == NoError then
      var result' := CheckMonth(month);
      if result' == NoError then CheckDay(year, month, day) else result'
    else result
  }

  /**
   * `validateTime` as written: the upper test on the minutes compares the
   * constant MAX_MINUTES with 59, so only negative minutes and minutes past
   * 24:00 are rejected.
   */
  function ValidateTime(hour: int, minutes: int): (r: DateTimeError)
    ensures r in {NoError, HourInvalid, MinutesInvalid}
  {
    if hour > MAX_HOURS || hour < 0 then HourInvalid
    else if MAX_MINUTES > 59 || minutes < 0 then MinutesInvalid
    else if hour == MAX_HOURS && minutes > 0 then MinutesInvalid
    else NoError
  }

  // ---------------------------------------------------------------------------
  // Parsing

  /** `parseDateString`: the out-parameter is reset, then filled only on success. */
  function ParseDateString(s: seq<char>): (r: DateResult)
    ensures r.error != NoError ==> r.date == ZERO_DATE
    ensures r.error == Invalid <==> ScanDate(s).count != 3
  {
    var sc := ScanDate(s);
    if sc.count != 3 then DateResult(Invalid, ZERO_DATE)
    else
      var e := ValidateDate(sc.first, sc.second, sc.third);
      if e == NoError then DateResult(NoError, Date(sc.third, sc.second, sc.first))
      else DateResult(e, ZERO_DATE)
  }

  /**
   * `dateParse(s, &date)` where `date` held `previous` before the call. A length
   * error returns before `parseDateString`, so the out-parameter keeps `previous`.
   */
  function DateParse(s: seq<char>, previous: Date): (r: DateResult)
  {
    var e := CheckStrLength(s, DATETIME_MIN_DATE_STR_LEN, DATETIME_MAX_DATE_STR_LEN);
    if e == NoError then ParseDateString(s) else DateResult(e, previous)
  }

  function ParseTimeString(s: seq<char>): (r: TimeResult)
    ensures r.error != NoError ==> r.time == ZERO_TIME
    ensures r.error == Invalid <==> ScanTime(s).count != 2
  {
    var sc := ScanTime(s);
    if sc.count != 2 then TimeResult(Invalid, ZERO_TIME)
    else
      var e := ValidateTime(sc.first, sc.second);
      if e == NoError then TimeResult(NoError, Time(sc.first, sc.second))
      else TimeResult(e, ZERO_TIME)
  }

  function TimeParse(s: seq<char>, previous: Time): (r: TimeResult)
  {
    var e := CheckStrLength(s, DATETIME_MIN_TIME_STR_LEN, DATETIME_MAX_TIME_STR_LEN);
    if e == NoError then ParseTimeString(s) else TimeResult(e, previous)
  }

  // ---------------------------------------------------------------------------
  // The text the calendar file stores

  /** `"%04d-%02d-%02d"` of year, month and day. */
  function FormatDate(d: Date): seq<char> {
    FormatInt(d.year, 4) + "-" + FormatInt(d.month, 2) + "-" + FormatInt(d.day, 2)
  }

  /** `"%02d:%02d"` of hour and minutes. */
  function FormatTime(t: Time): seq<char> {
    FormatInt(t.hour, 2) + ":" + FormatInt(t.minutes, 2)
  }

  /** A date and a time as they are written hold no NUL. */
  lemma FormatNoNul(d: Date, t: Time)
    ensures NoNul(FormatDate(d)) && NoNul(FormatTime(t))
  {
    FormatIntNoNul(d.year, 4);
    FormatIntNoNul(d.month, 2);
    FormatIntNoNul(d.day, 2);
    NoNulConcat(FormatInt(d.year, 4), "-");
    NoNulConcat(FormatInt(d.year, 4) + "-", FormatInt(d.month, 2));
    NoNulConcat(FormatInt(d.year, 4) + "-" + FormatInt(d.month, 2), "-");
    NoNulConcat(FormatInt(d.year, 4) + "-" + FormatInt(d.month, 2) + "-", FormatInt(d.day, 2));
    FormatIntNoNul(t.hour, 2);
    FormatIntNoNul(t.minutes, 2);
    NoNulConcat(FormatInt(t.hour, 2), ":");
    NoNulConcat(FormatInt(t.hour, 2) + ":", FormatInt(t.minutes, 2));
  }

  // ---------------------------------------------------------------------------
  // Reference definitions

  /** The Gregorian rule: every fourth year, except centuries not divisible by 400. */
  predicate GregorianLeap(year: int) {
    year % 4 == 0 && (year % 100 != 0 || year % 400 == 0)
  }

  /** The length of a month in the Gregorian calendar. */
  function DaysInMonth(year: int, month: int): int {
    if month == 2 then (if GregorianLeap(year) then 29 else 28)
    else if month == 4 || month == 6 || month == 9 || month == 11 then 30
    else 31
  }

  /** A date every field check accepts. */
  predicate ValidDate(d: Date) {
    d.year >= 1 && 1 <= d.month <= 12 && d.day <= DaysInMonth(d.year, d.month)
  }

  /** A time `validateTime` accepts. */
  predicate AcceptedTime(t: Time) {
    0 <= t.hour <= MAX_HOURS && t.minutes >= 0 && (t.hour == MAX_HOURS ==> t.minutes == 0)
  }

  // ---------------------------------------------------------------------------
  // Validation lemmas

  /**
   * The leap year test agrees with the Gregorian rule (divisibility does not
   * depend on how `%` rounds, so C's truncating remainder gives the same).
   */
  lemma LeapYearRule(year: int)
    ensures IsLeapYear(year) <==> GregorianLeap(year)
  {
    if year % 400 == 0 {
      assert year % 4 == 0 && year % 100 == 0;
    } else if year % 100 == 0 {
      assert year % 4 == 0;
    }
  }

  /** The month table with its leap-year correction gives the month's length. */
  lemma CheckDayBound(year: int, month: int, day: int)
    requires 1 <= month <= 12
    ensures CheckDay(year, month, day) == NoError <==> day <= DaysInMonth(year, month)
  {
    LeapYearRule(year);
  }

  /**
   * `validateDate` accepts exactly the valid dates, and a date with several
   * bad fields is reported by the first of year, month and day.
   */
  lemma ValidateDatePrecedence(year: int, month: int, day: int)
    ensures ValidateDate(year, month, day) == NoError <==> ValidDate(Date(day, month, year))
    ensures year < 1 ==> ValidateDate(year, month, day) == YearInvalid
    ensures year >= 1 && !(1 <= month <= 12) ==> ValidateDate(year, month, day) == MonthInvalid
    ensures year >= 1 && 1 <= month <= 12 && day > DaysInMonth(year, month) ==>
      ValidateDate(year, month, day) == DayInvalid
  {
    if year >= 1 && 1 <= month <= 12 {
      CheckDayBound(year, month, day);
    }
  }

  /** The day has no lower bound: day 0 and negative days pass. */
  lemma NoLowerDayBound(year: int, month: int, day: int)
    requires year >= 1 && 1 <= month <= 12 && day <= 0
    ensures ValidateDate(year, month, day) == NoError
  {
    ValidateDatePrecedence(year, month, day);
  }

  /** February has 29 days exactly in leap years. */
  lemma February(year: int)
    requires year >= 1
    ensures ValidateDate(year, 2, 29) == NoError <==> IsLeapYear(year)
    ensures ValidateDate(year, 2, 30) == DayInvalid
  {
    ValidateDatePrecedence(year, 2, 29);
    ValidateDatePrecedence(year, 2, 30);
    LeapYearRule(year);
  }

  /** How `validateTime` classifies an hour and minutes. */
  lemma ValidateTimeClasses(hour: int, minutes: int)
    ensures ValidateTime(hour, minutes) == HourInvalid <==> hour < 0 || hour > 24
    ensures ValidateTime(hour, minutes) == MinutesInvalid <==>
      0 <= hour <= 24 && (minutes < 0 || (hour == 24 && minutes > 0))
    ensures ValidateTime(hour, minutes) == NoError <==> AcceptedTime(Time(hour, minutes))
  {
  }

  /** Because MAX_MINUTES > 59 is false, any non-negative minutes pass before 24:00. */
  lemma MinutesUnbounded(hour: int, minutes: int)
    requires 0 <= hour < 24 && minutes >= 0
    ensures ValidateTime(hour, minutes) == NoError
  {
  }

  // ---------------------------------------------------------------------------
  // Parsing lemmas

  /**
   * The length gate: at least 20 characters is too long, fewer than 6 too
   * short, and on either error the out-parameter is left as it was.
   */
  lemma DateLengthGate(s: seq<char>, previous: Date)
    ensures DateParse(s, previous).error == StrTooLong <==> |s| >= 20
    ensures DateParse(s, previous).error == StrTooShort <==> |s| < 6
    ensures |s| < 6 || |s| >= 20 ==> DateParse(s, previous).date == previous
  {
  }

  lemma TimeLengthGate(s: seq<char>, previous: Time)
    ensures TimeParse(s, previous).error == StrTooLong <==> |s| >= 8
    ensures TimeParse(s, previous).error == StrTooShort <==> |s| < 3
    ensures |s| < 3 || |s| >= 8 ==> TimeParse(s, previous).time == previous
  {
  }

  /**
   * Past the length gate, `dateParse` succeeds exactly when three fields are
   * scanned and they form a valid date, which is then returned; every other
   * outcome leaves 0-0-0, and a short scan is DATETIME_INVALID.
   */
  lemma DateParseOutcome(s: seq<char>, previous: Date)
    requires 6 <= |s| < 20
    ensures var r := DateParse(s, previous);
      var sc := ScanDate(s);
      (r.error == NoError <==> sc.count == 3 && ValidDate(Date(sc.third, sc.second, sc.first))) &&
      (r.error == NoError ==> r.date == Date(sc.third, sc.second, sc.first)) &&
      (sc.count != 3 ==> r.error == Invalid) &&
      (sc.count == 3 ==> r.error == ValidateDate(sc.first, sc.second, sc.third)) &&
      (r.error != NoError ==> r.date == ZERO_DATE)
  {
    var sc := ScanDate(s);
    ValidateDatePrecedence(sc.first, sc.second, sc.third);
  }

  lemma TimeParseOutcome(s: seq<char>, previous: Time)
    requires 3 <= |s| < 8
    ensures var r := TimeParse(s, previous);
      var sc := ScanTime(s);
      (r.error == NoError <==> sc.count == 2 && AcceptedTime(Time(sc.first, sc.second))) &&
      (r.error == NoError ==> r.time == Time(sc.first, sc.second)) &&
      (sc.count != 2 ==> r.error == Invalid) &&
      (sc.count == 2 ==> r.error == ValidateTime(sc.first, sc.second)) &&
      (r.error != NoError ==> r.time == ZERO_TIME)
  {
  }

  // ---------------------------------------------------------------------------
  // Reading back what the calendar file writes

  /** A date whose fields fit `%4d`, `%2d` and `%2d` once written zero-padded. */
  predicate FitsDateFormat(d: Date) {
    0 <= d.year <= 9999 && -9 <= d.month <= 99 && -9 <= d.day <= 99
  }

  predicate FitsTimeFormat(t: Time) {
    -9 <= t.hour <= 99 && -9 <= t.minutes <= 99
  }

  lemma FormatDateShape(d: Date)
    requires FitsDateFormat(d)
    ensures |FormatDate(d)| == 10
    ensures forall i :: 0 <= i < 10 ==> !IsSpace(FormatDate(d)[i])
  {
    assert Pow10(4) == 10000 && Pow10(2) == 100 && Pow10(1) == 10;
    FormatIntWidth(d.year, 4);
    FormatIntWidth(d.month, 2);
    FormatIntWidth(d.day, 2);
    var f := FormatDate(d);
    forall i | 0 <= i < 10
      ensures !IsSpace(f[i])
    {
      if i == 0 || i == 5 || i == 8 {
        assert f[i] == FormatInt(d.year, 4)[0] || f[i] == FormatInt(d.month, 2)[0] || f[i] == FormatInt(d.day, 2)[0];
        assert f[i] == '-' || IsDigit(f[i]);
      }
    }
  }

  lemma FormatTimeShape(t: Time)
    requires FitsTimeFormat(t)
    ensures |FormatTime(t)| == 5
    ensures forall i :: 0 <= i < 5 ==> !IsSpace(FormatTime(t)[i])
  {
    assert Pow10(2) == 100 && Pow10(1) == 10;
    FormatIntWidth(t.hour, 2);
    FormatIntWidth(t.minutes, 2);
    var f := FormatTime(t);
    forall i | 0 <= i < 5
      ensures !IsSpace(f[i])
    {
      if i == 0 || i == 3 {
        assert f[i] == FormatInt(t.hour, 2)[0] || f[i] == FormatInt(t.minutes, 2)[0];
        assert f[i] == '-' || IsDigit(f[i]);
      }
    }
  }

  /** The three fields at their offsets in a written date. */
  lemma DateFields(s: seq<char>, d: Date)
    requires FitsDateFormat(d)
    requires var f := FormatDate(d); |f| <= |s| && s[..|f|] == f
    ensures |s| >= 10
    ensures s[0..4] == FormatInt(d.year, 4) && s[4] == '-'
    ensures s[5..7] == FormatInt(d.month, 2) && s[7] == '-'
    ensures s[8..10] == FormatInt(d.day, 2)
  {
    FormatDateShape(d);
    assert Pow10(4) == 10000 && Pow10(2) == 100 && Pow10(1) == 10;
    FormatIntWidth(d.year, 4);
    FormatIntWidth(d.month, 2);
    FormatIntWidth(d.day, 2);
    SplitFields(s, FormatInt(d.year, 4), '-', FormatInt(d.month, 2), '-', FormatInt(d.day, 2));
  }

  /** The pieces of `a + [x] + b + [y] + c` at the start of `s`, at their offsets. */
  lemma SplitFields(s: seq<char>, a: seq<char>, x: char, b: seq<char>, y: char, c: seq<char>)
    requires var f := a + [x] + b + [y] + c; |f| <= |s| && s[..|f|] == f
    ensures s[0..|a|] == a && s[|a|] == x
    ensures s[|a| + 1..|a| + 1 + |b|] == b && s[|a| + 1 + |b|] == y
    ensures s[|a| + 2 + |b|..|a| + 2 + |b| + |c|] == c
  {
    var f := a + [x] + b + [y] + c;
    forall i | 0 <= i < |f|
      ensures s[i] == f[i]
    {
      assert s[..|f|][i] == s[i];
    }
    assert s[0..|a|] == a;
    assert s[|a| + 1..|a| + 1 + |b|] == b;
    assert s[|a| + 2 + |b|..|a| + 2 + |b| + |c|] == c;
  }

  /** `sscanf("%4d-%2d-%2d")` reads the three fields of a written date. */
  lemma ScanWrittenDate(s: seq<char>, d: Date)
    requires FitsDateFormat(d)
    requires var f := FormatDate(d); |f| <= |s| && s[..|f|] == f
    ensures ScanDate(s) == FieldScan(3, d.year, d.month, d.day)
  {
    DateFields(s, d);
    ScanFieldAt(s, 0, d.year, 4);
    ScanFieldAt(s, 5, d.month, 2);
    ScanFieldAt(s, 8, d.day, 2);
    ScanDateOf(s, 4, d.year, d.month, d.day);
  }

  /** `%<width>d` reads back a value written with `%0<width>d` that fits the width. */
  lemma ScanFieldAt(s: seq<char>, pos: nat, n: int, width: nat)
    requires width == 2 || width == 4
    requires -(Pow10(width - 1) as int) < n < Pow10(width)
    requires pos + width <= |s| && s[pos..pos + width] == FormatInt(n, width)
    ensures var r := ScanInt(s, pos, width); r.ok && r.value == n && r.next == pos + width
  {
    FormatIntWidth(n, width);
    ScanFormattedInt(s, pos, n, width);
  }

  /** ScanDate once each of its directives is known to succeed; the year takes `yl` characters. */
  lemma ScanDateOf(s: seq<char>, yl: nat, year: int, month: int, day: int)
    requires 1 <= yl <= 4 && |s| >= yl + 6 && s[yl] == '-' && s[yl + 3] == '-'
    requires var r := ScanInt(s, 0, 4); r.ok && r.value == year && r.next == yl
    requires var r := ScanInt(s, yl + 1, 2); r.ok && r.value == month && r.next == yl + 3
    requires var r := ScanInt(s, yl + 4, 2); r.ok && r.value == day
    ensures ScanDate(s) == FieldScan(3, year, month, day)
  {
  }

  lemma TimeFields(s: seq<char>, t: Time)
    requires FitsTimeFormat(t)
    requires var f := FormatTime(t); |f| <= |s| && s[..|f|] == f
    ensures |s| >= 5
    ensures s[0..2] == FormatInt(t.hour, 2) && s[2] == ':'
    ensures s[3..5] == FormatInt(t.minutes, 2)
  {
    assert Pow10(2) == 100 && Pow10(1) == 10;
    FormatIntWidth(t.hour, 2);
    FormatIntWidth(t.minutes, 2);
    SplitPair(s, FormatInt(t.hour, 2), ':', FormatInt(t.minutes, 2));
  }

  lemma SplitPair(s: seq<char>, a: seq<char>, x: char, b: seq<char>)
    requires var f := a + [x] + b; |f| <= |s| && s[..|f|] == f
    ensures s[0..|a|] == a && s[|a|] == x
    ensures s[|a| + 1..|a| + 1 + |b|] == b
  {
    var f := a + [x] + b;
    forall i | 0 <= i < |f|
      ensures s[i] == f[i]
    {
      assert s[..|f|][i] == s[i];
    }
    assert s[0..|a|] == a;
    assert s[|a| + 1..|a| + 1 + |b|] == b;
  }

  lemma ScanWrittenTime(s: seq<char>, t: Time)
    requires FitsTimeFormat(t)
    requires var f := FormatTime(t); |f| <= |s| && s[..|f|] == f
    ensures ScanTime(s) == FieldScan(2, t.hour, t.minutes, 0)
  {
    TimeFields(s, t);
    ScanFieldAt(s, 0, t.hour, 2);
    ScanFieldAt(s, 3, t.minutes, 2);
    ScanTimeOf(s, t.hour, t.minutes);
  }

  lemma ScanTimeOf(s: seq<char>, hour: int, minutes: int)
    requires |s| >= 5 && s[2] == ':'
    requires var r := ScanInt(s, 0, 2); r.ok && r.value == hour && r.next == 2
    requires var r := ScanInt(s, 3, 2); r.ok && r.value == minutes
    ensures ScanTime(s) == FieldScan(2, hour, minutes, 0)
  {
  }

  /**
   * A valid date written as `%04d-%02d-%02d` parses back to itself, whatever
   * text follows it within the length limit.
   */
  lemma DateRoundTrip(d: Date, rest: seq<char>, previous: Date)
    requires ValidDate(d) && d.year <= 9999 && d.day >= -9
    requires |rest| < 10
    ensures DateParse(FormatDate(d) + rest, previous) == DateResult(NoError, d)
  {
    var s := FormatDate(d) + rest;
    FormatDateShape(d);
    assert s[..|FormatDate(d)|] == FormatDate(d);
    ScanWrittenDate(s, d);
    ValidateDatePrecedence(d.year, d.month, d.day);
  }

  /**
   * An accepted time written as `%02d:%02d` parses back to itself; minutes
   * up to 99 come back unchanged.
   */
  lemma TimeRoundTrip(t: Time, rest: seq<char>, previous: Time)
    requires AcceptedTime(t) && t.minutes <= 99
    requires |rest| < 3
    ensures TimeParse(FormatTime(t) + rest, previous) == TimeResult(NoError, t)
  {
    var s := FormatTime(t) + rest;
    assert Pow10(2) == 100 && Pow10(1) == 10;
    FormatIntWidth(t.hour, 2);
    FormatIntWidth(t.minutes, 2);
    assert s[..|FormatTime(t)|] == FormatTime(t);
    ScanWrittenTime(s, t);
    ValidateTimeClasses(t.hour, t.minutes);
  }

  // ---------------------------------------------------------------------------
  // The cases of the unit tests

  /** `sscanf("%4d-%2d-%2d")` of one to four year digits, then two and two digits. */
  lemma ScanDigitDate(s: seq<char>, yd: seq<char>, md: seq<char>, dd: seq<char>)
    requires 1 <= |yd| <= 4 && |md| == 2 && |dd| == 2
    requires AllDigits(yd) && AllDigits(md) && AllDigits(dd)
    requires s == yd + "-" + md + "-" + dd
    ensures ScanDate(s) == FieldScan(3, DigitsValue(yd), DigitsValue(md), DigitsValue(dd))
  {
    assert s[..|s|] == yd + ['-'] + md + ['-'] + dd;
    SplitFields(s, yd, '-', md, '-', dd);
    ScanDigitRun(s, 0, yd, 4);
    ScanDigitRun(s, |yd| + 1, md, 2);
    ScanDigitRun(s, |yd| + 4, dd, 2);
    ScanDateOf(s, |yd|, DigitsValue(yd), DigitsValue(md), DigitsValue(dd));
  }

  /** `sscanf("%2d:%2d")` of digits in the 2-2 layout. */
  lemma ScanDigitTime(s: seq<char>, hd: seq<char>, md: seq<char>)
    requires |hd| == 2 && |md| == 2 && AllDigits(hd) && AllDigits(md)
    requires s == hd + ":" + md
    ensures ScanTime(s) == FieldScan(2, DigitsValue(hd), DigitsValue(md), 0)
  {
    assert s[..|s|] == hd + [':'] + md;
    SplitPair(s, hd, ':', md);
    ScanDigitRun(s, 0, hd, 2);
    ScanDigitRun(s, 3, md, 2);
    ScanTimeOf(s, DigitsValue(hd), DigitsValue(md));
  }

  /** `dateParse` once the scan of its text is known. */
  lemma DateParseOfScan(s: seq<char>, previous: Date, year: int, month: int, day: int)
    requires 6 <= |s| < 20 && ScanDate(s) == FieldScan(3, year, month, day)
    ensures var e := ValidateDate(year, month, day);
      DateParse(s, previous) == DateResult(e, if e == NoError then Date(day, month, year) else ZERO_DATE)
  {
  }

  /** `dateParse` of year, month and day digits separated by '-'. */
  lemma DateParseDigits(s: seq<char>, previous: Date, yd: seq<char>, md: seq<char>, dd: seq<char>)
    requires 1 <= |yd| <= 4 && |md| == 2 && |dd| == 2 && |s| >= 6
    requires AllDigits(yd) && AllDigits(md) && AllDigits(dd)
    requires s == yd + "-" + md + "-" + dd
    ensures var e := ValidateDate(DigitsValue(yd), DigitsValue(md), DigitsValue(dd));
      DateParse(s, previous) ==
        DateResult(e, if e == NoError then Date(DigitsValue(dd), DigitsValue(md), DigitsValue(yd)) else ZERO_DATE)
  {
    ScanDigitDate(s, yd, md, dd);
    DateParseOfScan(s, previous, DigitsValue(yd), DigitsValue(md), DigitsValue(dd));
  }

  lemma ParseValidDate(s: seq<char>, previous: Date)
    requires s == "2010-05-24"
    ensures DateParse(s, previous) == DateResult(NoError, Date(24, 5, 2010))
  {
    FourDigitsValue("2010");
    TwoDigitsValue("05");
    TwoDigitsValue("24");
    assert DigitsValue("2010") == 2010 && DigitsValue("05") == 5 && DigitsValue("24") == 24;
    assert ValidateDate(2010, 5, 24) == NoError;
    DateParseDigits(s, previous, "2010", "05", "24");
  }

  lemma ParseLeapDay(s: seq<char>, previous: Date)
    requires s == "2016-02-29"
    ensures DateParse(s, previous).error == NoError
  {
    FourDigitsValue("2016");
    TwoDigitsValue("02");
    TwoDigitsValue("29");
    assert DigitsValue("2016") == 2016 && DigitsValue("02") == 2 && DigitsValue("29") == 29;
    assert ValidateDate(2016, 2, 29) == NoError;
    DateParseDigits(s, previous, "2016", "02", "29");
  }

  lemma ParseLeapCentury(s: seq<char>, previous: Date)
    requires s == "2000-02-29"
    ensures DateParse(s, previous).error == NoError
  {
    FourDigitsValue("2000");
    TwoDigitsValue("02");
    TwoDigitsValue("29");
    assert DigitsValue("2000") == 2000 && DigitsValue("02") == 2 && DigitsValue("29") == 29;
    assert ValidateDate(2000, 2, 29) == NoError;
    DateParseDigits(s, previous, "2000", "02", "29");
  }

  lemma ParseNonLeapDay(s: seq<char>, previous: Date)
    requires s == "1900-02-29"
    ensures DateParse(s, previous).error == DayInvalid
  {
    FourDigitsValue("1900");
    TwoDigitsValue("02");
    TwoDigitsValue("29");
    assert DigitsValue("1900") == 1900 && DigitsValue("02") == 2 && DigitsValue("29") == 29;
    assert ValidateDate(1900, 2, 29) == DayInvalid;
    DateParseDigits(s, previous, "1900", "02", "29");
  }

  lemma ParseBadDay(s: seq<char>, previous: Date)
    requires s == "2010-12-32"
    ensures DateParse(s, previous).error == DayInvalid
  {
    FourDigitsValue("2010");
    TwoDigitsValue("12");
    TwoDigitsValue("32");
    assert DigitsValue("2010") == 2010 && DigitsValue("12") == 12 && DigitsValue("32") == 32;
    assert ValidateDate(2010, 12, 32) == DayInvalid;
    DateParseDigits(s, previous, "2010", "12", "32");
  }

  lemma ParseBadMonth(s: seq<char>, previous: Date)
    requires s == "2010-13-32"
    ensures DateParse(s, previous).error == MonthInvalid
  {
    FourDigitsValue("2010");
    TwoDigitsValue("13");
    TwoDigitsValue("32");
    assert DigitsValue("2010") == 2010 && DigitsValue("13") == 13 && DigitsValue("32") == 32;
    assert ValidateDate(2010, 13, 32) == MonthInvalid;
    DateParseDigits(s, previous, "2010", "13", "32");
  }

  lemma ParseBadYear(s: seq<char>, previous: Date)
    requires s == "0-13-32"
    ensures DateParse(s, previous).error == YearInvalid
  {
    TwoDigitsValue("13");
    TwoDigitsValue("32");
    assert DigitsValue("0") == 0 && DigitsValue("13") == 13 && DigitsValue("32") == 32;
    assert ValidateDate(0, 13, 32) == YearInvalid;
    DateParseDigits(s, previous, "0", "13", "32");
  }

  lemma ParseEventDate(s: seq<char>, previous: Date)
    requires s == "2010-10-10"
    ensures DateParse(s, previous) == DateResult(NoError, Date(10, 10, 2010))
  {
    FourDigitsValue("2010");
    TwoDigitsValue("10");
    assert DigitsValue("2010") == 2010 && DigitsValue("10") == 10;
    assert ValidateDate(2010, 10, 10) == NoError;
    DateParseDigits(s, previous, "2010", "10", "10");
  }

  lemma ParseYearZero(s: seq<char>, previous: Date)
    requires s == "0-01-01"
    ensures DateParse(s, previous).error == YearInvalid
  {
    TwoDigitsValue("01");
    assert DigitsValue("0") == 0 && DigitsValue("01") == 1;
    assert ValidateDate(0, 1, 1) == YearInvalid;
    DateParseDigits(s, previous, "0", "01", "01");
  }

  lemma ParseValidTime(previous: Time)
    ensures TimeParse("18:05", previous) == TimeResult(NoError, Time(18, 5))
  {
    ScanDigitTime("18:05", "18", "05");
  }

  lemma ParseBadHour(previous: Time)
    ensures TimeParse("25:00", previous).error == HourInvalid
  {
    ScanDigitTime("25:00", "25", "00");
  }

  lemma ParseBadMinutes(previous: Time)
    ensures TimeParse("24:01", previous).error == MinutesInvalid
  {
    ScanDigitTime("24:01", "24", "01");
  }

  /** Minutes up to 99 are accepted before 24:00. */
  lemma ParseLargeMinutes(previous: Time)
    ensures TimeParse("23:75", previous) == TimeResult(NoError, Time(23, 75))
  {
    ScanDigitTime("23:75", "23", "75");
  }

  lemma ParseTextTime(previous: Time)
    ensures TimeParse("Adfdds", previous) == TimeResult(Invalid, ZERO_TIME)
  {
  }

  /** The month field is followed by a digit where '-' is expected. */
  lemma ParseMissingSeparator(s: seq<char>, previous: Date)
    requires s == "2010-04032"
    ensures DateParse(s, previous) == DateResult(Invalid, ZERO_DATE)
  {
    assert s[..4] == "2010" && s[5..7] == "04" && s[4] == '-' && s[7] == '0';
    ScanDigitRun(s, 0, "2010", 4);
    ScanDigitRun(s, 5, "04", 2);
    assert ScanDate(s).count == 2;
    assert CheckStrLength(s, DATETIME_MIN_DATE_STR_LEN, DATETIME_MAX_DATE_STR_LEN) == NoError;
  }
}
