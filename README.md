# Calendar core: dates and times, events, event lists, calendar files

A model in Dafny of the core of a small C calendar program. It covers four
pieces:

- **Dates and times.** `dateParse` and `timeParse` check the length of a
  date or time text, read it with `sscanf("%4d-%2d-%2d")` or
  `sscanf("%2d:%2d")`, and validate the fields in a fixed order: year, month
  and day, or hour and minutes.
- **Events.** `eventCreate` checks the date, the time, the duration and the
  name in that order. It stores the name cut to MAX_LENGTH_OF_NAME and the
  location cut to MAX_LENGTH_OF_LOCATION. It also caches the text the
  calendar shows for the event.
- **Event lists.** A singly linked list with head, tail and a cursor
  (`current`). Events are appended at the tail and walked with
  reset/next.
- **Calendar files.** `loadCalendar` reads records and appends them to a
  list. Each record is a line `date time duration name`, an optional
  location line and a blank line. Names and locations have no length limit
  in the file: they are read with `fgets` into a buffer that starts at 512
  characters and doubles whenever a line does not fit. `saveCalendar`
  writes a list back in the same format, and `calendarErrorString` gives
  the message for each file error.

Module layout:

| file | module | models |
|---|---|---|
| `libc.dfy` | `LibC` | the C library pieces the core relies on: `strnlen`-style prefixes, white space, `%Nd`/`%Ns` scanning, `%0Nd` printing, `fgets` counting |
| `date_time.dfy` | `DateTime` | `src/date_time.c` |
| `event.dfy` | `Events` | `src/event.c` |
| `event_list.dfy` | `EventLists` | `src/event_list.c`, as a class over linked nodes |
| `input_file.dfy` | `InputFiles` | an open `FILE` for reading: its text, position and end-of-file indicator, with `fscanf` of the leading fields and `fgets` |
| `calendar_file.dfy` | `CalendarFiles` | `src/calendar_file.c`: the read buffer as a class, the loading and saving loops as methods, and the functions that specify them |
| `round_trip.dfy` | `RoundTrip` | the theorem that a file written by `saveCalendar` loads back the events it was written from |

`dateParse` and `timeParse` write through an out-parameter. Here they
return the error code together with the value that out-parameter holds
afterwards. The caller's previous value is a parameter, because a length
error returns before the out-parameter is touched.

Where the code and its surrounding documentation or tests disagree, the
model follows the code:

- A file holding nothing but white space, the empty file among them, loads
  with FILE_NO_ERROR. `readEventFromFile` reports FILE_EOF, and
  `loadCalendar` maps FILE_EOF to FILE_NO_ERROR (`src/calendar_file.c:145-147`).
  The unit test in `tests/src/calendar_file_test.c:23` expects FILE_EOF
  (`RoundTrip.LoadBlank`).
- When `eventCreate` rejects a record during loading, the loop stops. The
  file error is still whatever the reads reported, NoError included
  (`CalendarFiles.LoadEvents`).
- `loadCalendar` appends to the list it is given; it does not replace the
  list's contents.
- `validateTime` tests `MAX_MINUTES > 59` where it evidently means
  `minutes > 59` (`src/date_time.c:253`). So minutes from 0 to 99 are
  accepted before 24:00 (`DateTime.MinutesUnbounded`,
  `DateTime.ParseLargeMinutes`).
- `checkDay` has no lower bound: day 0 and negative days pass
  (`DateTime.NoLowerDayBound`).
- `src/calendar_file.h` declares no FILE_EMPTY_LIST, yet `saveCalendar` and
  `calendarErrorString` use it. The model includes it as `EmptyList`.

Assumed constants, since the headers that would define them are not part of
this model:

- EVENT_NAME_MIN_LENGTH = 3;
- MAX_LENGTH_OF_NAME = MAX_LENGTH_OF_LOCATION = 1024;
- MAX_DURATION_STRING = 40;
- FILE_DATE_FORMAT = `"%04d-%02d-%02d"` and FILE_TIME_FORMAT = `"%02d:%02d"`.

## Model

| member | source | states |
|---|---|---|
| DateTime.StrnLen | src/date_time.c:77 | the length counted is at most `max` and at most the text's length, and is the whole length when below `max` |
| DateTime.CheckStrLength | src/date_time.c:70-88 | too long exactly when the text has `max` or more characters; too short exactly when it is shorter than `min` and than `max`; no error exactly in between |
| DateTime.ScanDate | src/date_time.c:106 | the conversion count of `%4d-%2d-%2d` is EOF or 0 to 3 |
| DateTime.ScanTime | src/date_time.c:229 | the conversion count of `%2d:%2d` is EOF or 0 to 2 |
| DateTime.CheckYear | src/date_time.c:166-175 | no error exactly for years of at least 1, DATETIME_YEAR_INVALID otherwise |
| DateTime.CheckMonth | src/date_time.c:180-189 | no error exactly for months 1 to 12, DATETIME_MONTH_INVALID otherwise |
| DateTime.CheckDay | src/date_time.c:196-217 | the only outcomes are no error and DATETIME_DAY_INVALID |
| DateTime.ValidateDate | src/date_time.c:128-142 | reports no error or the year, month or day error |
| DateTime.ValidateTime | src/date_time.c:246-260 | reports no error or the hour or minutes error |
| DateTime.ParseDateString | src/date_time.c:95-122 | on any error the date is reset to 0-0-0; DATETIME_INVALID exactly when fewer than three fields are scanned |
| DateTime.ParseTimeString | src/date_time.c:219-244 | on any error the time is reset to 0:00; DATETIME_INVALID exactly when fewer than two fields are scanned |
| DateTime.LeapYearRule | src/date_time.c:147-161 | `isLeapYear` agrees with the Gregorian rule for every year, negative years included |
| DateTime.CheckDayBound | src/date_time.c:196-217 | the day passes exactly when it does not exceed the Gregorian length of its month |
| DateTime.ValidateDatePrecedence | src/date_time.c:128-142 | no error exactly for valid dates; a bad year is reported before a bad month, and a bad month before a bad day |
| DateTime.NoLowerDayBound | src/date_time.c:212-214 | day 0 and negative days pass validation |
| DateTime.February | src/date_time.c:201-210 | 29 February is valid exactly in leap years, 30 February never |
| DateTime.ValidateTimeClasses | src/date_time.c:246-260 | the hour error exactly for hours outside 0 to 24; the minutes error exactly for negative minutes or minutes past 24:00; no error exactly for accepted times |
| DateTime.MinutesUnbounded | src/date_time.c:253 | before 24:00 any non-negative minutes pass, because the upper test compares the constant and not the minutes |
| DateTime.DateLengthGate | src/date_time.c:42-52 | a date text of 20 characters or more is too long and one under 6 too short; on either error the previous date is kept |
| DateTime.TimeLengthGate | src/date_time.c:54-64 | a time text of 8 characters or more is too long and one under 3 too short; on either error the previous time is kept |
| DateTime.DateParseOutcome | src/date_time.c:42-52 | past the length gate, success exactly when three fields are scanned and form a valid date, which is returned; every other outcome leaves 0-0-0 |
| DateTime.TimeParseOutcome | src/date_time.c:54-64 | past the length gate, success exactly when two fields are scanned and pass validation, and that time is returned; every other outcome leaves 0:00 |
| DateTime.FormatDateShape | src/calendar_file.c:205-208 | a date whose fields fit the format is written as 10 characters without white space |
| DateTime.FormatTimeShape | src/calendar_file.c:205-207 | a time whose fields fit the format is written as 5 characters without white space |
| DateTime.ScanWrittenDate | src/date_time.c:106 | `%4d-%2d-%2d` reads back the three fields of a date written with `%04d-%02d-%02d` |
| DateTime.ScanWrittenTime | src/date_time.c:229 | `%2d:%2d` reads back the two fields of a time written with `%02d:%02d` |
| DateTime.DateRoundTrip | src/date_time.c:42-122 | a valid date of at most four year digits, written and followed by short text, parses back to itself |
| DateTime.TimeRoundTrip | src/date_time.c:54-64 | an accepted time with minutes up to 99, written and followed by short text, parses back to itself |
| DateTime.DateParseDigits | src/date_time.c:95-122 | a date text of digit groups parses to the validation outcome of their values |
| DateTime.ParseValidDate | tests/src/date_test.c:5-15 | "2010-05-24" parses to 24 May 2010 |
| DateTime.ParseMissingSeparator | tests/src/date_test.c:17-27 | "2010-04032" is DATETIME_INVALID and leaves 0-0-0 |
| DateTime.ParseLeapDay | tests/src/date_test.c:29-38 | "2016-02-29" is valid |
| DateTime.ParseLeapCentury | tests/src/date_test.c:36 | "2000-02-29" is valid |
| DateTime.ParseNonLeapDay | tests/src/date_test.c:40-51 | "1900-02-29" is DATETIME_DAY_INVALID |
| DateTime.ParseBadDay | tests/src/date_test.c:57 | "2010-12-32" is DATETIME_DAY_INVALID |
| DateTime.ParseBadMonth | tests/src/date_test.c:60 | "2010-13-32" is DATETIME_MONTH_INVALID, the month being checked before the day |
| DateTime.ParseBadYear | tests/src/date_test.c:63 | "0-13-32" is DATETIME_YEAR_INVALID, the year being checked first |
| DateTime.ParseEventDate | tests/src/event_test.c:18 | the test date "2010-10-10" parses to 10 October 2010 |
| DateTime.ParseYearZero | tests/src/event_test.c:84 | "0-01-01" is DATETIME_YEAR_INVALID |
| DateTime.ParseValidTime | tests/src/date_test.c:86-95 | "18:05" parses to 18:05 |
| DateTime.ParseTextTime | tests/src/date_test.c:97-106 | "Adfdds" is DATETIME_INVALID and leaves 0:00 |
| DateTime.ParseBadHour | tests/src/date_test.c:108-114 | "25:00" is DATETIME_HOUR_INVALID |
| DateTime.ParseBadMinutes | tests/src/date_test.c:116-122 | "24:01" is DATETIME_MINUTES_INVALID |
| DateTime.ParseLargeMinutes | src/date_time.c:253 | "23:75" is accepted as 23:75 |
| Events.Event.constructor | src/event.c:44-61 | a new event holds exactly the fields it is given |
| Events.SetName | src/event.c:152-178 | no error exactly for a non-empty name, which is stored cut to MAX_LENGTH_OF_NAME; otherwise EVENT_NAME_INVALID and the field keeps its value |
| Events.SetLocation | src/event.c:180-206 | never an error; no location is stored exactly when it is missing or empty, otherwise it is stored cut to MAX_LENGTH_OF_LOCATION |
| Events.EventString | src/event.c:98-150 | the text built by the successive cats is the name, "@ location " when there is one, the duration cut to its buffer, a newline, then "date, time" cut to their buffers; the length added up first equals the text's length |
| Events.ValuesOf | src/event.h:34-41 | one value per event, in order, each holding the fields of that `struct Event` |
| Events.EventCreate | src/event.c:34-85 | the error is the first failing check of date, time, duration and name; an event comes back exactly when there is no error, holding the parsed date and time, the duration, the stored name and location, and the display text and its length |
| Events.CreatedEventValid | src/event.c:51-56 | a created event has a valid date, an accepted time, a non-negative duration and a non-empty name |
| Events.NameTruncation | src/event.c:160-169 | a name is kept whole up to MAX_LENGTH_OF_NAME characters and cut at that length beyond it |
| Events.EmptyLocationIsNone | src/event.c:188-203 | a missing location and an empty one are both stored as no location |
| Events.DisplayStringLength | src/event.c:106-119 | the length `eventString` adds up is the length of the text it builds |
| Events.CreateValidEvent | tests/src/event_test.c:32-56 | the test's event is created with its date, time, name and location |
| Events.CreateNegativeDuration | tests/src/event_test.c:58-67 | a duration of -1 is EVENT_DURATION_INVALID |
| Events.CreateBadTime | tests/src/event_test.c:69-78 | "24:01" is EVENT_TIME_INVALID |
| Events.CreateBadDate | tests/src/event_test.c:80-89 | "0-01-01" is EVENT_DATE_INVALID |
| Events.CreateWithoutName | tests/src/event_test.c:91-110 | an empty or missing name is EVENT_NAME_INVALID |
| EventLists.Node.constructor | src/event_list.c:88-92 | a new node holds its event and no successor |
| EventLists.EventList.Remaining | src/event_list.c:66-77 | the events still ahead of the cursor are at most the list's events |
| EventLists.EventList.constructor | src/event_list.c:15-27 | a new list is empty and its cursor is NULL |
| EventLists.EventList.ResetPosition | src/event_list.c:56-58 | the contents are unchanged and the cursor walks them all again from the head |
| EventLists.EventList.Next | src/event_list.c:66-77 | NULL once the cursor is past the tail; otherwise the event at the cursor, the one at its position in the list, and the cursor moves on one |
| EventLists.EventList.InsertLast | src/event_list.c:82-111 | refused exactly for NULL; otherwise the event is appended at the tail, and a cursor still inside the list will reach it too; the cursor itself is not moved |
| EventLists.EventList.Destroy | src/event_list.c:36-50 | the walk from the head releases exactly the list's events, in order |
| EventLists.RemainingAfterAppends | src/event_list.c:82-111 | after appends that leave the cursor where it was, a NULL cursor is still NULL, and the events ahead of a cursor on a node have the values of those that were ahead of it, then the values appended |
| EventLists.InsertThreeAndWalk | tests/src/event_list_test.c:46-76 | three events appended are returned in order by reset and next, then NULL |
| EventLists.InsertNullThenOne | tests/src/event_list_test.c:78-91 | NULL is refused and the list stays empty; after one insertion the head and tail are the same node |
| InputFiles.ScanLeading | src/calendar_file.c:309-310 | `fscanf(f, "%10s %5s %10i ")` returns EOF exactly when only white space is left; three conversions consume input and give non-empty date and time tokens no longer than the field widths; the end-of-file indicator is set only at the end |
| InputFiles.LineEnd | src/calendar_file.c:495-504 | where a line ends: no newline before it, and a newline there unless the input ends |
| InputFiles.InputFile.ScanEventLeading | src/calendar_file.c:309-310 | the file's position and end-of-file indicator advance as the scan says |
| InputFiles.InputFile.Fgets | src/calendar_file.c:495-496 | NULL exactly when nothing is left; otherwise it copies up to n - 1 characters, stopping after a newline, and NUL-terminates them; end-of-file is set when reading ran into the end |
| CalendarFiles.ErrorString | src/calendar_file.c:244-277 | every message starts with "Calendar File: " followed by the error's own text |
| CalendarFiles.ErrorMessage | src/calendar_file.c:248-269 | every error has a non-empty message |
| CalendarFiles.MessageInitial | src/calendar_file.c:248-269 | each message starts with its error's own letter |
| CalendarFiles.ErrorStringsDiffer | src/calendar_file.c:244-277 | different errors have different messages |
| CalendarFiles.ReadLine | src/calendar_file.c:477-536 | the text the reading loop collects is the line up to its newline, character for character; the next line starts after the newline, or reading stops at the end |
| CalendarFiles.GrownSize | src/calendar_file.c:512-519 | doubling from a size reaches one that holds what is needed, and overshoots by less than double |
| CalendarFiles.GrownSizeDoubles | src/calendar_file.c:512-519 | doubling a buffer of BUFFER_CHUNK times a power of two gives one of BUFFER_CHUNK times a power of two no smaller |
| CalendarFiles.SizeAfterDoubles | src/calendar_file.c:477-536 | reading a line keeps the read buffer BUFFER_CHUNK times a power of two, so from BUFFER_CHUNK it stays that way |
| CalendarFiles.ArrayStrnLen | src/calendar_file.c:500-501 | the index of the first NUL, or `max` when there is none before it |
| CalendarFiles.Realloc | src/calendar_file.c:512-513 | a new buffer of the new size that starts with the old one's contents |
| CalendarFiles.ReadEventLines | src/calendar_file.c:316-345 | reading the name and location lines advances and stops at the end when end-of-file is reported |
| CalendarFiles.ReadEvent | src/calendar_file.c:297-359 | an event value comes back exactly when `eventCreate` succeeded; FILE_NO_ERROR only after reading something and before the end; the only errors are FILE_EOF and FILE_INVALID_FORMAT |
| CalendarFiles.CalendarFile.constructor | src/calendar_file.c:96-119 | the file is open, the buffer holds BUFFER_CHUNK characters and no event error is recorded |
| CalendarFiles.CalendarFile.Grow | src/calendar_file.c:512-519 | the buffer doubles and keeps its contents |
| CalendarFiles.CalendarFile.ReadChunk | src/calendar_file.c:495-501 | one `fgets` into the free part of the buffer: the characters read follow those already there, and the new length is that of the text read since the line began |
| CalendarFiles.CalendarFile.ReadVariableLengthString | src/calendar_file.c:477-536 | the buffer holds the line read without its newline; FILE_EOF exactly when no newline ended it; the buffer has grown to the first doubled size that held the line, and once more when a non-empty last line had no newline |
| CalendarFiles.CalendarFile.BufferText | src/calendar_file.c:386-404 | the copy out of the buffer is the text up to its terminator |
| CalendarFiles.CalendarFile.ReadEventName | src/calendar_file.c:369-412 | the name line read; FILE_INVALID_FORMAT when it is shorter than EVENT_NAME_MIN_LENGTH, FILE_EOF when no newline ended it |
| CalendarFiles.CalendarFile.ReadEventLocation | src/calendar_file.c:424-454 | the location line read; FILE_EOF when no newline ended it; a location only when the line is not empty and ended by a newline |
| CalendarFiles.CalendarFile.ReadEventFromFile | src/calendar_file.c:297-359 | the error, the event error, the event created and the file position are those of `ReadEvent` on the file's text |
| CalendarFiles.CalendarFile.ReadEventRest | src/calendar_file.c:316-345 | after the three leading fields, the outcome is that of `ReadEventLines` |
| CalendarFiles.LoadStep | src/calendar_file.c:130-139 | one pass of the loop: an event is read and, when it was created, appended to the list; the loop goes on exactly when the event was created and the read reported no error; the list's cursor is not moved |
| CalendarFiles.Append | src/calendar_file.c:134-136 | inserting an event appends its value to the values of the list and leaves its cursor where it was; NULL is refused |
| CalendarFiles.LoadEventsStep | src/calendar_file.c:126-139 | the events loaded from a position are the one read there, then those loaded after it |
| CalendarFiles.ProgressStep | src/calendar_file.c:126-139 | one pass keeps the loop invariant, with the event read appended when it was created |
| CalendarFiles.LoadPass | src/calendar_file.c:126-139 | one pass keeps the list's values equal to those loaded so far and its cursor where it was, and the file position advances while the loop goes on |
| CalendarFiles.LoadAll | src/calendar_file.c:126-139 | the loop appends to the list exactly the events `LoadEvents` gives, reports its error, and leaves the list's cursor where it was |
| CalendarFiles.LoadCalendar | src/calendar_file.c:85-177 | FILE_NO_FILENAME without a filename, FILE_ERROR when the file does not open, otherwise FILE_EOF mapped to FILE_NO_ERROR; the list's values grow by the events loaded, in file order; the cursor stays where it was, so a NULL cursor stays NULL and the events ahead of a cursor on a node are followed by those loaded |
| CalendarFiles.SaveTextAppend | src/calendar_file.c:204-223 | writing one more event appends its record to the text |
| CalendarFiles.SavePrefixStep | src/calendar_file.c:204-223 | the text for the first k + 1 events is that for k, then the next record |
| CalendarFiles.WriteRecord | src/calendar_file.c:205-221 | the three `fprintf` calls write the record of the event: its first line, its location line when it has one, and a blank line |
| CalendarFiles.StartWriting | src/calendar_file.c:198-199 | after the reset and the first `next` nothing is written and the loop invariant holds |
| CalendarFiles.WriteStep | src/calendar_file.c:204-223 | one pass writes the record of the current event and moves the cursor on |
| CalendarFiles.WritingDone | src/calendar_file.c:204 | once the cursor is past the tail, every record has been written in list order |
| CalendarFiles.WriteAll | src/calendar_file.c:198-223 | the text written is the records of the list's events, in order, and the cursor ends past the tail |
| CalendarFiles.SaveCalendar | src/calendar_file.c:182-238 | FILE_EMPTY_LIST for an empty list before the filename is looked at, then FILE_NO_FILENAME, then FILE_ERROR when the file does not open; otherwise no error and the file holds the records of the list's events in order; on every error the list, its cursor included, is left as it was |
| RoundTrip.ReadRecord | src/calendar_file.c:297-359 | over white space, the record of a storable event reads that event back without error and stops at the record's end |
| RoundTrip.CreatedOfRecord | src/event.c:34-85 | `eventCreate` on the fields written for a storable event gives that event back |
| RoundTrip.LeadingAt | src/calendar_file.c:309-310 | the leading format reads the date, time and duration of a record's first line and skips the space before the name |
| RoundTrip.LinesAt | src/calendar_file.c:328-341 | after the leading fields, a name line and a location or empty line give the complete event |
| RoundTrip.EndOfFile | src/calendar_file.c:346-356 | with only white space left the read reports FILE_EOF and nothing more is loaded |
| RoundTrip.LoadBlank | src/calendar_file.c:145-147 | a file of white space only, the empty file among them, loads no event and FILE_NO_ERROR |
| RoundTrip.SavedTail | src/calendar_file.c:204-223 | past the first record of saved text come the records of the other events, after white space |
| RoundTrip.SavedReadBack | src/calendar_file.c:126-139 | saved text is read back event by event, then the end of the file |
| RoundTrip.LoadReadBack | src/calendar_file.c:126-147 | reads that give a list of events and then the end make the loading loop load exactly those events |
| DateTime.FormatNoNul | src/calendar_file.c:205-207 | a date and a time as they are written hold no NUL |
| RoundTrip.RecordNoNul | src/calendar_file.c:205-221 | the record written for a storable event holds no NUL |
| RoundTrip.SaveTextNoNul | src/calendar_file.c:204-223 | the text written for storable events holds no NUL |
| RoundTrip.LoadOfSave | src/calendar_file.c:85-238 | loading the text `saveCalendar` writes for storable events gives back those events, in order, with FILE_NO_ERROR; that text holds no NUL, as `loadCalendar` requires |

## Left out

- `eventDestroy` (`src/event.c:214-231`) and the `free` calls of the other functions are not modelled: memory is managed by Dafny; `EventLists.EventList.Destroy` keeps only the walk over the nodes.
- A failing `malloc` (EVENT_INTERNAL_ERROR, FILE_INTERNAL_ERROR, a NULL list) is not modelled: allocation always succeeds in Dafny, so those paths cannot be reached.
- `fopen` is a parameter: `loadCalendar` takes the file's contents as an option (None when it does not open), and `saveCalendar` takes whether the file can be created. `fclose` and the writing to disk are not modelled.
- CalendarFiles.CalendarFile.ReadVariableLengthString: never reports FILE_ERROR, because `fgets` is modelled without read errors. In the source, a NULL from `fgets` without end of file makes the loop spin forever.
- CalendarFiles.LoadCalendar: requires a file without NUL characters. A NUL makes `strnlen` stop early, and an empty read then indexes `read_buffer[-1]`.
- Every text in the model is the contents of a C string up to its terminator, so no text holds a NUL. `strnlen`, the `name[0] != '\0'` test of `eventSetName` and the length checks are modelled as lengths. A NUL inside a text would count here as an ordinary character, where C stops at it.
- CalendarFiles.LoadCalendar: the events ahead of a cursor on a node are stated by their values, those that were ahead of it and then those loaded, not as the same event objects.
- `%i` in the leading format is read as decimal only. Octal and hexadecimal prefixes are not modelled.
- `int` overflow is not modelled. Integers are unbounded, and `%10i` values fit in ten characters.
- `dateString`, `timeString` and `durationString` are not part of this model: they are parameters of the display text (`Events.Renderers`).
- The default branch of `calendarErrorString` is not modelled: it cannot be reached with a value of the enumeration.
- The user interface and program entry (`src/ui_assignment.c`, `src/assignment.c`) are not part of this model.
- RoundTrip.LoadOfSave: the round trip holds only for storable events. These have a valid date with at most four year digits, an accepted time, a duration of at most ten digits, a name of 3 to 1024 characters on one line not starting with white space, and a location that is a non-empty line of at most 1024 characters; neither holds a NUL. Others do not survive the file format.
- DateTime.DateRoundTrip: stated for days of at least -9 and years of at most 9999, the values whose written form fits the scan widths.
- DateTime.TimeRoundTrip: stated for minutes up to 99, the values whose written form fits `%2d`.
