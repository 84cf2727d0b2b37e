/**
 * Reading calendar files into an event list and writing event lists back.
 *
 * A calendar file holds one record per event: a line with the date, the
 * time, the duration and the name, an optional line with the location, and
 * a blank line. Names and locations have no length limit in the file, so
 * they are read into a buffer that starts at BUFFER_CHUNK characters and
 * doubles whenever a line does not fit.
 */
module CalendarFiles {
  import opened LibC
  import opened InputFiles
  import DateTime
  import Events
  import EventLists

  /** The initial size of the read buffer. */
  const BUFFER_CHUNK: nat := 512

  /** Shortest name a calendar file may give an event. */
  const EVENT_NAME_MIN_LENGTH: nat := 3

  /** Prefix of every error message. */
  const MODULE_IDENT: seq<char> := "Calendar File: "

  datatype FileError =
    | NoError
    | Eof
    | Error
    | InvalidFormat
    | NoFilename
    | InternalError
    | EmptyList

  /** `calendarErrorString`: the message for an error, after the module's prefix. */
  function ErrorString(e: FileError): (text: seq<char>)
    ensures |text| > |MODULE_IDENT| && text[..|MODULE_IDENT|] == MODULE_IDENT
    ensures text[|MODULE_IDENT|..] == ErrorMessage(e)
  {
    MODULE_IDENT + ErrorMessage(e)
  }

  function ErrorMessage(e: FileError): (text: seq<char>)
    ensures |text| > 0
  {
    match e
    case NoError => "No error."
    case Eof => "EOF reached."
    case Error => "Unable to read/write file."
    case InvalidFormat => "File has invalid format."
    case NoFilename => "Blank filename provided."
    case InternalError => "Internal error, trying to recover."
    case EmptyList => "Attempted to save empty list."
  }

  /** The first letter of each message; no two errors share one. */
  function Initial(e: FileError): char {
    match e
    case NoError => 'N'
    case Eof => 'E'
    case Error => 'U'
    case InvalidFormat => 'F'
    case NoFilename => 'B'
    case InternalError => 'I'
    case EmptyList => 'A'
  }

  lemma MessageInitial(e: FileError)
    ensures ErrorMessage(e)[0] == Initial(e)
  {
    match e
    case NoError => assert ErrorMessage(e)[..1] == "N";
    case Eof => assert ErrorMessage(e)[..1] == "E";
    case Error => assert ErrorMessage(e)[..1] == "U";
    case InvalidFormat => assert ErrorMessage(e)[..1] == "F";
    case NoFilename => assert ErrorMessage(e)[..1] == "B";
    case InternalError => assert ErrorMessage(e)[..1] == "I";
    case EmptyList => assert ErrorMessage(e)[..1] == "A";
  }

  /** Different errors have different messages. */
  lemma ErrorStringsDiffer(e1: FileError, e2: FileError)
    requires e1 != e2
    ensures ErrorString(e1) != ErrorString(e2)
  {
    var k := |MODULE_IDENT|;
    MessageInitial(e1);
    MessageInitial(e2);
    assert ErrorString(e1)[k] == Initial(e1);
    assert ErrorString(e2)[k] == Initial(e2);
  }

  // ---------------------------------------------------------------------------
  // Lines and the read buffer

  /** A line of the file: its text without the newline, where the next line starts, and whether a newline ended it. */
  datatype Line = Line(text: seq<char>, next: nat, newline: bool)

  function ReadLine(s: seq<char>, pos: nat): (r: Line)
    requires pos <= |s|
    ensures pos <= r.next <= |s|
    ensures |r.text| == LineEnd(s, pos) - pos
    ensures forall i :: 0 <= i < |r.text| ==> r.text[i] == s[pos + i] && r.text[i] != '\n'
    ensures r.newline <==> LineEnd(s, pos) < |s|
    ensures r.next == if r.newline then LineEnd(s, pos) + 1 else |s|
  {
    var e := LineEnd(s, pos);
    if e < |s| then Line(s[pos..e], e + 1, true) else Line(s[pos..], |s|, false)
  }

  /** The first size reached from `size` by doubling that holds `need` characters. */
  function GrownSize(size: nat, need: nat): (r: nat)
    requires size >= 1
    ensures r >= size && r >= need
    ensures r == size || r < 2 * need
    decreases need - size
  {
    if need <= size then size else GrownSize(2 * size, need)
  }

  /**
   * The size of the read buffer after a line is read into a buffer of
   * `size`: just large enough for the line, its newline and the terminator;
   * a last line without a newline costs one doubling more.
   */
  function SizeAfter(size: nat, line: Line): nat
    requires size >= 1
  {
    if line.newline then GrownSize(size, |line.text| + 2)
    else if line.text == [] then size
    else 2 * GrownSize(size, |line.text| + 1)
  }

  /** 2 to the power `k`. */
  function Pow2(k: nat): (r: nat)
    ensures r >= 1
  {
    if k == 0 then 1 else 2 * Pow2(k - 1)
  }

  /** Doubling a buffer of BUFFER_CHUNK times 2^k gives one of BUFFER_CHUNK times a larger power of two. */
  lemma {:induction false} GrownSizeDoubles(k: nat, need: nat)
    ensures exists j: nat :: j >= k && GrownSize(BUFFER_CHUNK * Pow2(k), need) == BUFFER_CHUNK * Pow2(j)
    decreases need - BUFFER_CHUNK * Pow2(k)
  {
    var size := BUFFER_CHUNK * Pow2(k);
    if need <= size {
      assert GrownSize(size, need) == BUFFER_CHUNK * Pow2(k);
    } else {
      assert 2 * size == BUFFER_CHUNK * Pow2(k + 1);
      GrownSizeDoubles(k + 1, need);
    }
  }

  /** Reading a line keeps the read buffer BUFFER_CHUNK times a power of two. */
  lemma SizeAfterDoubles(k: nat, line: Line)
    ensures exists j: nat :: j >= k && SizeAfter(BUFFER_CHUNK * Pow2(k), line) == BUFFER_CHUNK * Pow2(j)
  {
    if line.newline {
      GrownSizeDoubles(k, |line.text| + 2);
    } else if line.text == [] {
      assert SizeAfter(BUFFER_CHUNK * Pow2(k), line) == BUFFER_CHUNK * Pow2(k);
    } else {
      GrownSizeDoubles(k, |line.text| + 1);
      var j: nat :| j >= k && GrownSize(BUFFER_CHUNK * Pow2(k), |line.text| + 1) == BUFFER_CHUNK * Pow2(j);
      assert SizeAfter(BUFFER_CHUNK * Pow2(k), line) == BUFFER_CHUNK * Pow2(j + 1);
    }
  }

  /** `strnlen` on a character array: the index of the first NUL, or `max` when there is none before it. */
  method ArrayStrnLen(a: array<char>, max: nat) returns (n: nat)
    requires max <= a.Length
    ensures n <= max
    ensures forall i :: 0 <= i < n ==> a[i] != '\0'
    ensures n < max ==> a[n] == '\0'
  {
    n := 0;
    while n < max && a[n] != '\0'
      invariant n <= max
      invariant forall i :: 0 <= i < n ==> a[i] != '\0'
    {
      n := n + 1;
    }
  }

  /** `realloc` to a larger size: a new array that starts with the old one's contents. */
  method Realloc(a: array<char>, n: nat) returns (b: array<char>)
    requires a.Length <= n
    ensures fresh(b) && b.Length == n
    ensures forall i :: 0 <= i < a.Length ==> b[i] == a[i]
  {
    b := new char[n](_ => '\0');
    forall i | 0 <= i < a.Length {
      b[i] := a[i];
    }
  }

  lemma {:induction false} LineEndAt(s: seq<char>, pos: nat, e: nat)
    requires pos <= e <= |s|
    requires forall i :: pos <= i < e ==> s[i] != '\n'
    requires e < |s| ==> s[e] == '\n'
    ensures LineEnd(s, pos) == e
    decreases e - pos
  {
    if pos < e {
      LineEndAt(s, pos + 1, e);
    }
  }

  /** The characters the buffer must hold for the line at `start`: the line, its newline if any, and the terminator. */
  ghost function NeedOf(data: seq<char>, start: nat): nat
    requires start <= |data|
  {
    var e := LineEnd(data, start);
    if e < |data| then e - start + 2 else e - start + 1
  }

  /** A read that ends at a newline leaves the buffer at its final size. */
  lemma NewlineExit(data: seq<char>, start: nat, pos: nat, size: nat, oldSize: nat)
    requires start < pos <= |data| && data[pos - 1] == '\n'
    requires forall i :: start <= i < pos - 1 ==> data[i] != '\n'
    requires 1 <= oldSize && pos - start < size
    requires GrownSize(size, NeedOf(data, start)) == GrownSize(oldSize, NeedOf(data, start))
    ensures var line := ReadLine(data, start);
      line.newline && line.next == pos && |line.text| == pos - start - 1 && size == SizeAfter(oldSize, line)
  {
    LineEndAt(data, start, pos - 1);
  }

  /** A read that runs into the end of the file. */
  lemma EofExit(data: seq<char>, start: nat, size: nat, oldSize: nat, ended: bool)
    requires start <= |data| && 1 <= oldSize <= size
    requires forall i :: start <= i < |data| ==> data[i] != '\n'
    requires ended ==> start < |data| && size == 2 * GrownSize(oldSize, NeedOf(data, start))
    requires !ended ==> start == |data| && GrownSize(size, NeedOf(data, start)) == GrownSize(oldSize, NeedOf(data, start))
    ensures var line := ReadLine(data, start);
      !line.newline && line.next == |data| && |line.text| == |data| - start && size == SizeAfter(oldSize, line)
  {
    LineEndAt(data, start, |data|);
  }

  /**
   * Doubling the buffer after a read that filled it, or that ran into the
   * end of the file, keeps the size on course for the final one.
   */
  lemma GrowStep(data: seq<char>, start: nat, pos: nat, size: nat, oldSize: nat)
    requires start < pos <= |data| && 1 <= oldSize
    requires forall i :: start <= i < pos ==> data[i] != '\n'
    requires pos - start == size - 1 || (pos == |data| && pos - start < size - 1)
    requires GrownSize(size, NeedOf(data, start)) == GrownSize(oldSize, NeedOf(data, start))
    ensures pos < |data| ==> GrownSize(2 * size, NeedOf(data, start)) == GrownSize(oldSize, NeedOf(data, start))
    ensures pos == |data| ==> 2 * size == 2 * GrownSize(oldSize, NeedOf(data, start))
  {
    var e := LineEnd(data, start);
    assert e >= pos;
  }

  // ---------------------------------------------------------------------------
  // Reading one event: the specification

  /** The outcome of reading a name or location line: the file error and the text kept. */
  datatype Field = Field(error: FileError, text: Option<seq<char>>)

  /**
   * `readEventName` on the line read: a name shorter than
   * EVENT_NAME_MIN_LENGTH is an invalid format, even on the last line.
   */
  function NameField(line: Line): Field {
    if |line.text| < EVENT_NAME_MIN_LENGTH then Field(InvalidFormat, None)
    else Field(if line.newline then NoError else Eof, Some(line.text))
  }

  /**
   * `readEventLocation` on the line read: the text is kept only when a
   * newline ended it and it is not empty.
   */
  function LocationField(line: Line): Field {
    Field(if line.newline then NoError else Eof, if line.newline && |line.text| > 0 then Some(line.text) else None)
  }

  /**
   * The outcome of `readEventFromFile`: the file error, the `event_error`
   * left in the CalendarFile, the event created (if any), and where reading
   * stopped with the end-of-file indicator.
   */
  datatype EventRead = EventRead(error: FileError, eventError: Events.EventError,
                                 value: Option<Events.EventValue>, next: nat, eof: bool)

  /** `eventCreate` on the fields read, reported with the file error `error`. */
  function Created(error: FileError, date: seq<char>, time: seq<char>, duration: int,
                   name: seq<char>, location: Option<seq<char>>, next: nat, eof: bool): EventRead
  {
    var e := Events.CreateError(date, time, duration, Some(name));
    EventRead(error, e,
              if e == Events.NoError then Some(Events.CreatedValue(date, time, duration, name, location)) else None,
              next, eof)
  }

  /**
   * What follows the leading fields `date`, `time` and `duration` of an
   * event at `pos`: the name line, then (when the name line ended with a
   * newline) the location line, and the event created from them.
   */
  function ReadEventLines(s: seq<char>, pos: nat, eof: bool, date: seq<char>, time: seq<char>, duration: int): (r: EventRead)
    requires pos <= |s| && (eof ==> pos == |s|)
    ensures pos <= r.next <= |s| && (r.eof ==> r.next == |s|)
  {
    var nameLine := ReadLine(s, pos);
    var name := NameField(nameLine);
    var eof1 := eof || !nameLine.newline;
    if name.error == InvalidFormat then EventRead(InvalidFormat, Events.ReadError, None, nameLine.next, eof1)
    else if name.error == Eof then Created(Eof, date, time, duration, name.text.value, None, nameLine.next, eof1)
    else
      var locationLine := ReadLine(s, nameLine.next);
      var location := LocationField(locationLine);
      Created(location.error, date, time, duration, name.text.value, location.text, locationLine.next,
              eof1 || !locationLine.newline)
  }

  /**
   * `readEventFromFile` from position `pos` of the file text `s`, with the
   * end-of-file indicator `eof`: the leading fields, then the name line,
   * then (when the name line ended with a newline) the location line.
   */
  function ReadEvent(s: seq<char>, pos: nat, eof: bool): (r: EventRead)
    requires pos <= |s| && (eof ==> pos == |s|)
    ensures pos <= r.next <= |s| && (r.eof ==> r.next == |s|)
    ensures r.value.Some? <==> r.eventError == Events.NoError
    ensures r.error == NoError ==> pos < r.next && !r.eof
    ensures r.error in {NoError, Eof, InvalidFormat}
  {
    var lead := ScanLeading(s, pos);
    var eof1 := eof || lead.hitEnd;
    if lead.count != 3 then EventRead(if eof1 then Eof else InvalidFormat, Events.ReadError, None, lead.next, eof1)
    else ReadEventLines(s, lead.next, eof1, lead.date, lead.time, lead.duration)
  }

  /**
   * `struct CalendarFile`: the file being loaded, the read buffer and its
   * size, and the outcome of creating the last event read.
   */
  class CalendarFile {
    const file: InputFile
    var readBuffer: array<char>
    var bufferSize: nat
    var eventError: Events.EventError

    ghost predicate Valid()
      reads this, file
    {
      file.Valid() && NoNul(file.data) && bufferSize == readBuffer.Length && bufferSize >= 2
    }

    /** The state `loadCalendar` sets up once the file is open and the first buffer allocated. */
    constructor (file: InputFile)
      requires file.Valid() && NoNul(file.data)
      ensures Valid() && this.file == file && fresh(readBuffer)
      ensures bufferSize == BUFFER_CHUNK && eventError == Events.NoError
    {
      this.file := file;
      readBuffer := new char[BUFFER_CHUNK](_ => '\0');
      bufferSize := BUFFER_CHUNK;
      eventError := Events.NoError;
    }

    /** Doubles the read buffer, keeping its contents. */
    method Grow()
      requires Valid()
      modifies this
      ensures Valid() && eventError == old(eventError)
      ensures fresh(readBuffer) && bufferSize == 2 * old(bufferSize)
      ensures forall i :: 0 <= i < old(bufferSize) ==> readBuffer[i] == old(readBuffer[i])
    {
      readBuffer := Realloc(readBuffer, bufferSize * 2);
      bufferSize := bufferSize * 2;
    }

    /** Terminates the string in the read buffer at `k`, keeping what comes before. */
    method Terminate(k: nat)
      requires Valid() && k < bufferSize
      modifies readBuffer
      ensures readBuffer[k] == '\0'
      ensures forall i :: 0 <= i < k ==> readBuffer[i] == old(readBuffer[i])
    {
      readBuffer[k] := '\0';
    }

    /**
     * One `fgets` into the free part of the read buffer, followed by the
     * `strnlen` of the whole buffer: the length of the line read so far.
     */
    method ReadChunk(ghost start: nat, at: nat, remaining: nat) returns (got: bool, length: nat)
      requires Valid() && start <= file.pos
      requires remaining >= 2 && at + remaining == bufferSize
      requires file.pos < |file.data| ==> start + at == file.pos
      requires file.pos < |file.data| ==> forall i :: 0 <= i < at ==> readBuffer[i] == file.data[start + i]
      modifies file, readBuffer
      ensures Valid() && file.pos <= |file.data|
      ensures got <==> old(file.pos) < |file.data|
      ensures !got ==> file.pos == old(file.pos) && unchanged(readBuffer)
      ensures got ==> old(file.pos) < file.pos && length == file.pos - start && length < bufferSize
      ensures got ==> forall i :: 0 <= i < length ==> readBuffer[i] == file.data[start + i]
      ensures got ==> readBuffer[length] == '\0'
      ensures forall i :: old(file.pos) <= i < file.pos - 1 ==> file.data[i] != '\n'
      ensures got && file.data[file.pos - 1] != '\n' ==> length == bufferSize - 1 || file.pos == |file.data|
      ensures file.eof == (old(file.eof) || (file.pos == |file.data| && file.pos < old(file.pos) + remaining - 1 &&
        (!got || file.data[file.pos - 1] != '\n')))
    {
      got := file.Fgets(readBuffer, at, remaining);
      length := ArrayStrnLen(readBuffer, bufferSize - 1);
      if got {
        assert length == file.pos - start by {
          assert forall i :: 0 <= i < file.pos - start ==> readBuffer[i] != '\0';
        }
      }
    }

    /**
     * The state of `readVariableLengthString` at the head of its loop. The
     * line starting at `start` is read into the buffer: `len` characters of
     * it are there so far. While `more`, the next `fgets` goes to `at` with
     * room for `remaining` characters; `ended` records a read that ran into
     * the end of the file and still doubled the buffer.
     */
    ghost predicate Reading(data: seq<char>, start: nat, oldSize: nat, oldEof: bool, need: nat, target: nat,
                            len: nat, ended: bool, at: nat, remaining: nat, more: bool, error: FileError)
      reads this, file, readBuffer
    {
      Valid() && file.data == data && 1 <= oldSize <= bufferSize &&
      start <= file.pos <= |data| && start + len <= file.pos && len < bufferSize &&
      (forall i :: start <= i < start + len ==> data[i] != '\n') &&
      (forall i :: 0 <= i < len ==> readBuffer[i] == data[start + i]) &&
      (!ended ==> GrownSize(bufferSize, need) == target) &&
      (ended ==> start < file.pos == |data| && bufferSize == 2 * target) &&
      (more ==> error == NoError && len == file.pos - start && remaining >= 2 && at + remaining == bufferSize && len <= at) &&
      (more && !ended ==> at == len && file.eof == oldEof && (at > 0 ==> file.pos < |data|)) &&
      (more && ended ==> readBuffer[len] == '\0') &&
      (!more ==> readBuffer[len] == '\0' && (error == NoError || error == Eof)) &&
      (!more && error == NoError ==>
        !ended && file.pos == start + len + 1 && data[start + len] == '\n' && file.eof == oldEof && len + 1 < bufferSize) &&
      (!more && error == Eof ==> file.pos == |data| && len == file.pos - start && file.eof && (!ended ==> len == 0))
    }

    /**
     * One pass of the loop of `readVariableLengthString`: an `fgets` into the
     * free part of the buffer, then either the line is complete, or the
     * buffer is doubled for the rest of it, or the file has ended.
     */
    method ReadStep(ghost data: seq<char>, ghost start: nat, ghost oldSize: nat, ghost oldEof: bool,
                    ghost need: nat, ghost target: nat, ghost len: nat, ghost ended: bool, at: nat, remaining: nat)
      returns (more: bool, error: FileError, at': nat, remaining': nat, ghost len': nat, ghost ended': bool)
      requires Reading(data, start, oldSize, oldEof, need, target, len, ended, at, remaining, true, NoError)
      requires need == NeedOf(data, start) && target == GrownSize(oldSize, need)
      modifies this, file, readBuffer
      ensures Reading(data, start, oldSize, oldEof, need, target, len', ended', at', remaining', more, error)
      ensures eventError == old(eventError)
      ensures readBuffer == old(readBuffer) || fresh(readBuffer)
      ensures more ==> old(file.pos) < file.pos
    {
      more, error, at', remaining', len', ended' := true, NoError, at, remaining, len, ended;
      var got, length := ReadChunk(start, at, remaining);
      if got {
        if readBuffer[length - 1] == '\n' {
          Terminate(length - 1);
          len' := length - 1;
          more := false;
        } else {
          ended' := file.pos == |data|;
          GrowStep(data, start, file.pos, bufferSize, oldSize);
          len' := length;
          remaining' := bufferSize + 1;
          at' := bufferSize - 1;
          Grow();
        }
      } else {
        if file.eof {
          error := Eof;
          more := false;
        } else {
          assert false;
        }
        readBuffer[at] := '\0';
      }
    }

    /**
     * `readVariableLengthString`: reads the rest of the current line into the
     * read buffer, without its newline, doubling the buffer as often as the
     * line needs. A line cut short by the end of the file is reported as
     * FILE_EOF and still stored.
     */
    method ReadVariableLengthString() returns (error: FileError)
      requires Valid()
      modifies this, readBuffer, file
      ensures Valid() && eventError == old(eventError)
      ensures readBuffer == old(readBuffer) || fresh(readBuffer)
      ensures var line := ReadLine(file.data, old(file.pos));
        (error == if line.newline then NoError else Eof) &&
        file.pos == line.next &&
        file.eof == (old(file.eof) || !line.newline) &&
        |line.text| < bufferSize &&
        (forall i :: 0 <= i < |line.text| ==> readBuffer[i] == line.text[i]) &&
        readBuffer[|line.text|] == '\0' &&
        bufferSize == SizeAfter(old(bufferSize), line)
    {
      ghost var data := file.data;
      ghost var start := file.pos;
      ghost var oldSize := bufferSize;
      ghost var need := NeedOf(data, start);
      ghost var target := GrownSize(oldSize, need);
      ghost var ended := false;
      ghost var len: nat := 0;

      error := NoError;
      var notUpToEol := true;
      var at: nat := 0;
      var remaining: nat := bufferSize;
      while notUpToEol
        invariant Reading(data, start, oldSize, old(file.eof), need, target, len, ended, at, remaining, notUpToEol, error)
        invariant eventError == old(eventError)
        invariant readBuffer == old(readBuffer) || fresh(readBuffer)
        decreases |data| - file.pos, notUpToEol
      {
        notUpToEol, error, at, remaining, len, ended :=
          ReadStep(data, start, oldSize, old(file.eof), need, target, len, ended, at, remaining);
      }
      if error == NoError {
        NewlineExit(data, start, file.pos, bufferSize, oldSize);
      } else {
        EofExit(data, start, bufferSize, oldSize, ended);
      }
    }

    /** The text of the read buffer up to its terminator, copied out (`strnlen`, `malloc` and `strncat`). */
    method BufferText(ghost text: seq<char>) returns (copy: seq<char>)
      requires Valid() && |text| < bufferSize && NoNul(text)
      requires forall i :: 0 <= i < |text| ==> readBuffer[i] == text[i]
      requires readBuffer[|text|] == '\0'
      ensures copy == text
    {
      var length := ArrayStrnLen(readBuffer, bufferSize);
      assert length == |text| by {
        assert forall i :: 0 <= i < |text| ==> readBuffer[i] != '\0';
      }
      copy := readBuffer[..length];
    }

    /** `readEventName`: the rest of the line, kept as the name when it is long enough. */
    method ReadEventName() returns (error: FileError, name: Option<seq<char>>)
      requires Valid()
      modifies this, readBuffer, file
      ensures Valid() && eventError == old(eventError)
      ensures readBuffer == old(readBuffer) || fresh(readBuffer)
      ensures var line := ReadLine(file.data, old(file.pos));
        file.pos == line.next && file.eof == (old(file.eof) || !line.newline) &&
        error == NameField(line).error && name == NameField(line).text
    {
      ghost var line := ReadLine(file.data, file.pos);
      name := None;
      error := ReadVariableLengthString();
      if error == NoError || error == Eof {
        assert NoNul(line.text) by {
          assert forall i :: 0 <= i < |line.text| ==> line.text[i] == file.data[old(file.pos) + i];
        }
        var text := BufferText(line.text);
        if |text| < EVENT_NAME_MIN_LENGTH {
          error := InvalidFormat;
        } else {
          name := Some(text);
        }
      }
    }

    /** `readEventLocation`: the rest of the line, kept as the location when a newline ended it and it is not empty. */
    method ReadEventLocation() returns (error: FileError, location: Option<seq<char>>)
      requires Valid()
      modifies this, readBuffer, file
      ensures Valid() && eventError == old(eventError)
      ensures readBuffer == old(readBuffer) || fresh(readBuffer)
      ensures var line := ReadLine(file.data, old(file.pos));
        file.pos == line.next && file.eof == (old(file.eof) || !line.newline) &&
        error == LocationField(line).error && location == LocationField(line).text
    {
      ghost var line := ReadLine(file.data, file.pos);
      location := None;
      error := ReadVariableLengthString();
      if error == NoError {
        assert NoNul(line.text) by {
          assert forall i :: 0 <= i < |line.text| ==> line.text[i] == file.data[old(file.pos) + i];
        }
        var text := BufferText(line.text);
        if |text| > 0 {
          location := Some(text);
        }
      }
    }

    /**
     * `readEventFromFile`: the leading fields of an event, its name and its
     * location, and the event created from them. `eventError` records the
     * outcome of `eventCreate`, or EVENT_READ_ERROR when it was not reached.
     */
    method ReadEventFromFile(render: Events.Renderers) returns (error: FileError, e: Events.Event?)
      requires Valid()
      modifies this, readBuffer, file
      ensures Valid()
      ensures readBuffer == old(readBuffer) || fresh(readBuffer)
      ensures var r := ReadEvent(file.data, old(file.pos), old(file.eof));
        error == r.error && eventError == r.eventError && file.pos == r.next && file.eof == r.eof &&
        (e != null <==> r.value.Some?) && (e != null ==> fresh(e) && Events.ValueOf(e) == r.value.value)
    {
      eventError := Events.ReadError;
      e := null;
      var count, date, time, duration := file.ScanEventLeading();
      if count == 3 {
        error, e := ReadEventRest(date, time, duration, render);
      } else {
        if file.eof {
          error := Eof;
        } else {
          error := InvalidFormat;
        }
      }
    }

    /** The part of `readEventFromFile` after its `fscanf` converted all three leading fields. */
    method ReadEventRest(date: seq<char>, time: seq<char>, duration: int, render: Events.Renderers)
      returns (error: FileError, e: Events.Event?)
      requires Valid() && eventError == Events.ReadError
      modifies this, readBuffer, file
      ensures Valid()
      ensures readBuffer == old(readBuffer) || fresh(readBuffer)
      ensures var r := ReadEventLines(file.data, old(file.pos), old(file.eof), date, time, duration);
        error == r.error && eventError == r.eventError && file.pos == r.next && file.eof == r.eof &&
        (e != null <==> r.value.Some?) && (e != null ==> fresh(e) && Events.ValueOf(e) == r.value.value)
    {
      e := null;
      ghost var name0 := NameField(ReadLine(file.data, file.pos));
      var name: Option<seq<char>> := None;
      var location: Option<seq<char>> := None;
      error, name := ReadEventName();
      assert error == name0.error && name == name0.text;
      if error == NoError {
        ghost var location0 := LocationField(ReadLine(file.data, file.pos));
        error, location := ReadEventLocation();
        assert error == location0.error && location == location0.text;
      }
      if error == Eof || error == NoError {
        eventError, e := Events.EventCreate(date, time, duration, name, location, render);
      }
    }
  }

  // ---------------------------------------------------------------------------
  // Loading

  /** The error `loadCalendar` reports and the events it appends, in file order. */
  datatype Loaded = Loaded(error: FileError, values: seq<Events.EventValue>)

  /**
   * The loop of `loadCalendar` from position `pos`: events are read and
   * appended until one cannot be created or a read reports anything but
   * FILE_NO_ERROR. An event read up to the end of the file is still kept.
   */
  function LoadEvents(s: seq<char>, pos: nat, eof: bool): (r: Loaded)
    requires pos <= |s| && (eof ==> pos == |s|)
    decreases |s| - pos
  {
    var r := ReadEvent(s, pos, eof);
    if r.value.None? then Loaded(r.error, [])
    else if r.error != NoError then Loaded(r.error, [r.value.value])
    else
      var rest := LoadEvents(s, r.next, r.eof);
      Loaded(rest.error, [r.value.value] + rest.values)
  }

  /**
   * `loadCalendar` of a file called `filename` whose contents are
   * `contents`, None when it cannot be opened. Reaching the end of the file
   * is success.
   */
  function Load(filename: Option<seq<char>>, contents: Option<seq<char>>): Loaded {
    if filename.None? then Loaded(NoFilename, [])
    else if contents.None? then Loaded(Error, [])
    else
      var l := LoadEvents(contents.value, 0, false);
      Loaded(if l.error == Eof then NoError else l.error, l.values)
  }

  /**
   * One pass of the loop of `loadCalendar`: an event is read and, when it
   * was created, appended to the list. The loop goes on while the read
   * reported FILE_NO_ERROR and the event was created and inserted.
   */
  method LoadStep(list: EventLists.EventList, calendarFile: CalendarFile, render: Events.Renderers)
    returns (error: FileError, running: bool)
    requires list.Valid() && calendarFile.Valid()
    requires calendarFile !in list.Repr && calendarFile.file !in list.Repr && calendarFile.readBuffer !in list.Repr
    modifies list.Repr, calendarFile, calendarFile.readBuffer, calendarFile.file
    ensures list.Valid() && fresh(list.Repr - old(list.Repr)) && calendarFile.Valid()
    ensures calendarFile !in list.Repr && calendarFile.file !in list.Repr && calendarFile.readBuffer !in list.Repr
    ensures calendarFile.readBuffer == old(calendarFile.readBuffer) || fresh(calendarFile.readBuffer)
    ensures var r := ReadEvent(calendarFile.file.data, old(calendarFile.file.pos), old(calendarFile.file.eof));
      calendarFile.file.pos == r.next && calendarFile.file.eof == r.eof && error == r.error &&
      running == (r.value.Some? && r.error == NoError) &&
      Events.ValuesOf(list.Contents) == Events.ValuesOf(old(list.Contents)) + (if r.value.Some? then [r.value.value] else [])
    ensures list.cursor == old(list.cursor)
  {
    var current: Events.Event?;
    var insertSuccess := false;
    ghost var r := ReadEvent(calendarFile.file.data, calendarFile.file.pos, calendarFile.file.eof);
    ghost var before := list.Contents;
    error, current := calendarFile.ReadEventFromFile(render);
    assert list.Contents == before && list.Valid();
    if calendarFile.eventError == Events.NoError {
      insertSuccess := Append(list, current);
    }
    running := calendarFile.eventError == Events.NoError && error == NoError && insertSuccess;
  }

  /** `eventListInsertLast` as the loader sees it: the values of the list grow by that of `e`. */
  method Append(list: EventLists.EventList, e: Events.Event?) returns (inserted: bool)
    requires list.Valid()
    modifies list.Repr
    ensures list.Valid() && fresh(list.Repr - old(list.Repr))
    ensures inserted <==> e != null
    ensures Events.ValuesOf(list.Contents) ==
      Events.ValuesOf(old(list.Contents)) + (if e != null then [Events.ValueOf(e)] else [])
    ensures list.cursor == old(list.cursor)
  {
    ghost var before := list.Contents;
    inserted := list.InsertLast(e);
    if e != null {
      assert list.Contents == before + [e];
      assert Events.ValuesOf(list.Contents)[..|before|] == Events.ValuesOf(before);
    }
  }

  /**
   * How far the loop of `loadCalendar` has come towards `goal`: while it
   * runs, the values appended so far followed by those still to be loaded
   * from `pos` are the goal; once it stops, they are the goal and `error` is
   * its error.
   */
  ghost predicate Progress(s: seq<char>, pos: nat, eof: bool, done: seq<Events.EventValue>, goal: Loaded,
                           running: bool, error: FileError)
  {
    pos <= |s| && (eof ==> pos == |s|) &&
    (running ==> done + LoadEvents(s, pos, eof).values == goal.values && LoadEvents(s, pos, eof).error == goal.error) &&
    (!running ==> done == goal.values && error == goal.error)
  }

  /** `LoadEvents` from `pos`: the event read there and what is loaded after it. */
  lemma LoadEventsStep(s: seq<char>, pos: nat, eof: bool)
    requires pos <= |s| && (eof ==> pos == |s|)
    ensures var r := ReadEvent(s, pos, eof);
      var l := LoadEvents(s, pos, eof);
      if r.value.Some? && r.error == NoError then
        l.error == LoadEvents(s, r.next, r.eof).error &&
        l.values == [r.value.value] + LoadEvents(s, r.next, r.eof).values
      else
        l.error == r.error && l.values == (if r.value.Some? then [r.value.value] else [])
  {
  }

  /** One pass of the loop keeps `Progress`, with the event read appended when it was created. */
  lemma ProgressStep(s: seq<char>, pos: nat, eof: bool, done: seq<Events.EventValue>, goal: Loaded, error: FileError)
    requires Progress(s, pos, eof, done, goal, true, error)
    ensures var r := ReadEvent(s, pos, eof);
      Progress(s, r.next, r.eof, done + (if r.value.Some? then [r.value.value] else []), goal,
               r.value.Some? && r.error == NoError, r.error)
  {
    var r := ReadEvent(s, pos, eof);
    var l := LoadEvents(s, pos, eof);
    LoadEventsStep(s, pos, eof);
    assert done + l.values == goal.values && l.error == goal.error;
    if r.value.Some? && r.error == NoError {
      var rest := LoadEvents(s, r.next, r.eof);
      assert done + [r.value.value] + rest.values == done + l.values;
    }
  }

  /**
   * `LoadStep` as the loop of `loadCalendar` sees it: `Progress` towards
   * `goal` is kept, the values appended so far (after `base`) being `done`.
   */
  method LoadPass(list: EventLists.EventList, calendarFile: CalendarFile, render: Events.Renderers,
                  ghost base: seq<Events.EventValue>, ghost done: seq<Events.EventValue>, ghost goal: Loaded)
    returns (error: FileError, running: bool, ghost done': seq<Events.EventValue>)
    requires list.Valid() && calendarFile.Valid()
    requires calendarFile !in list.Repr && calendarFile.file !in list.Repr && calendarFile.readBuffer !in list.Repr
    requires Events.ValuesOf(list.Contents) == base + done
    requires Progress(calendarFile.file.data, calendarFile.file.pos, calendarFile.file.eof, done, goal, true, NoError)
    modifies list.Repr, calendarFile, calendarFile.readBuffer, calendarFile.file
    ensures list.Valid() && fresh(list.Repr - old(list.Repr)) && calendarFile.Valid()
    ensures calendarFile !in list.Repr && calendarFile.file !in list.Repr && calendarFile.readBuffer !in list.Repr
    ensures calendarFile.readBuffer == old(calendarFile.readBuffer) || fresh(calendarFile.readBuffer)
    ensures old(calendarFile.file.pos) <= calendarFile.file.pos
    ensures running ==> old(calendarFile.file.pos) < calendarFile.file.pos
    ensures Events.ValuesOf(list.Contents) == base + done'
    ensures Progress(calendarFile.file.data, calendarFile.file.pos, calendarFile.file.eof, done', goal, running, error)
    ensures list.cursor == old(list.cursor)
  {
    ghost var r := ReadEvent(calendarFile.file.data, calendarFile.file.pos, calendarFile.file.eof);
    ProgressStep(calendarFile.file.data, calendarFile.file.pos, calendarFile.file.eof, done, goal, NoError);
    error, running := LoadStep(list, calendarFile, render);
    done' := done + (if r.value.Some? then [r.value.value] else []);
  }

  /**
   * The loop of `loadCalendar` over an opened file: events are read and
   * appended to `list` as `LoadEvents` describes.
   */
  method LoadAll(list: EventLists.EventList, calendarFile: CalendarFile, render: Events.Renderers)
    returns (error: FileError)
    requires list.Valid() && calendarFile.Valid()
    requires calendarFile !in list.Repr && calendarFile.file !in list.Repr && calendarFile.readBuffer !in list.Repr
    modifies list.Repr, calendarFile, calendarFile.readBuffer, calendarFile.file
    ensures list.Valid() && fresh(list.Repr - old(list.Repr))
    ensures var l := LoadEvents(calendarFile.file.data, old(calendarFile.file.pos), old(calendarFile.file.eof));
      error == l.error && Events.ValuesOf(list.Contents) == Events.ValuesOf(old(list.Contents)) + l.values
    ensures list.cursor == old(list.cursor)
  {
    var file := calendarFile.file;
    ghost var base := Events.ValuesOf(list.Contents);
    ghost var goal := LoadEvents(file.data, file.pos, file.eof);
    ghost var done: seq<Events.EventValue> := [];
    var running := true;
    error := NoError;
    while running
      invariant list.Valid() && fresh(list.Repr - old(list.Repr)) && calendarFile.Valid()
      invariant calendarFile !in list.Repr && file !in list.Repr && calendarFile.readBuffer !in list.Repr
      invariant calendarFile.readBuffer == old(calendarFile.readBuffer) || fresh(calendarFile.readBuffer)
      invariant Events.ValuesOf(list.Contents) == base + done
      invariant Progress(file.data, file.pos, file.eof, done, goal, running, error)
      invariant list.cursor == old(list.cursor)
      decreases |file.data| - file.pos, running
    {
      error, running, done := LoadPass(list, calendarFile, render, base, done, goal);
    }
  }

  /**
   * `loadCalendar`: appends the events of the file to `list`. The list's
   * cursor stays where it was: a NULL cursor stays NULL, and a cursor on a
   * node will also reach the events appended.
   */
  method LoadCalendar(list: EventLists.EventList, filename: Option<seq<char>>, contents: Option<seq<char>>,
                      render: Events.Renderers) returns (error: FileError)
    requires list.Valid()
    requires contents.Some? ==> NoNul(contents.value)
    modifies list.Repr
    ensures list.Valid() && fresh(list.Repr - old(list.Repr))
    ensures error == Load(filename, contents).error
    ensures Events.ValuesOf(list.Contents) == Events.ValuesOf(old(list.Contents)) + Load(filename, contents).values
    ensures list.cursor == old(list.cursor)
    ensures old(list.Remaining()) == [] ==> list.Remaining() == []
    ensures old(list.Remaining()) != [] ==>
      Events.ValuesOf(list.Remaining()) == Events.ValuesOf(old(list.Remaining())) + Load(filename, contents).values
  {
    ghost var before, cursor, remaining := list.Contents, list.cursor, list.Remaining();
    if filename.Some? {
      if contents.Some? {
        var file := new InputFile(contents.value);
        var calendarFile := new CalendarFile(file);
        error := LoadAll(list, calendarFile, render);
        assert fresh(list.Repr - old(list.Repr));
        if error == Eof {
          error := NoError;
        }
      } else {
        error := Error;
      }
    } else {
      error := NoFilename;
    }
    EventLists.RemainingAfterAppends(list, before, cursor, remaining, Load(filename, contents).values);
  }

  // ---------------------------------------------------------------------------
  // Saving

  /**
   * The record `saveCalendar` writes for an event: date, time, duration and
   * name on one line, the location on a line of its own when there is one,
   * and a blank line.
   */
  function RecordText(v: Events.EventValue): seq<char> {
    DateTime.FormatDate(v.date) + " " + DateTime.FormatTime(v.time) + " " + FormatInt(v.duration, 0) + " " + v.name + "\n"
      + (if v.location.Some? then v.location.value + "\n" else []) + "\n"
  }

  /** What `saveCalendar` writes for a list holding `values`: their records, in order. */
  function SaveText(values: seq<Events.EventValue>): seq<char> {
    if values == [] then [] else RecordText(values[0]) + SaveText(values[1..])
  }

  /** Writing one more event appends its record. */
  lemma {:induction false} SaveTextAppend(values: seq<Events.EventValue>, v: Events.EventValue)
    ensures SaveText(values + [v]) == SaveText(values) + RecordText(v)
  {
    if values == [] {
      assert [] + [v] == [v];
    } else {
      assert (values + [v])[1..] == values[1..] + [v];
      SaveTextAppend(values[1..], v);
    }
  }

  /** The text written for the first k + 1 values: that of the first k, then the record of the next. */
  lemma SavePrefixStep(values: seq<Events.EventValue>, k: nat)
    requires k < |values|
    ensures SaveText(values[..k + 1]) == SaveText(values[..k]) + RecordText(values[k])
  {
    assert values[..k + 1] == values[..k] + [values[k]];
    SaveTextAppend(values[..k], values[k]);
  }

  /** The three `fprintf` calls of `saveCalendar` for one event. */
  method WriteRecord(e: Events.Event) returns (record: seq<char>)
    ensures record == RecordText(Events.ValueOf(e))
  {
    record := DateTime.FormatDate(e.date) + " " + DateTime.FormatTime(e.time) + " "
      + FormatInt(e.duration, 0) + " " + e.name + "\n";
    if e.location.Some? {
      record := record + e.location.value + "\n";
    }
    record := record + "\n";
  }

  /**
   * The state of the loop of `saveCalendar` after the records of the first
   * k events were written: `current` is the next event, null once the
   * cursor has gone past the tail.
   */
  ghost predicate Writing(list: EventLists.EventList, values: seq<Events.EventValue>, k: nat,
                          current: Events.Event?, text: seq<char>)
    reads list
  {
    values == Events.ValuesOf(list.Contents) &&
    (current != null ==> k == |list.Contents| - |list.Remaining()| - 1 && current == list.Contents[k]) &&
    (current == null ==> k == |list.Contents| && list.Remaining() == []) &&
    text == SaveText(values[..k])
  }

  /** One pass of the loop of `saveCalendar`: the record of `current` is written and the cursor moves on. */
  method WriteStep(list: EventLists.EventList, ghost values: seq<Events.EventValue>, ghost k: nat,
                   current: Events.Event, text: seq<char>)
    returns (current': Events.Event?, text': seq<char>)
    requires list.Valid() && Writing(list, values, k, current, text)
    modifies list
    ensures list.Valid() && list.Repr == old(list.Repr) && list.Contents == old(list.Contents)
    ensures Writing(list, values, k + 1, current', text')
    ensures |list.Remaining()| + (if current' == null then 0 else 1) < |old(list.Remaining())| + 1
  {
    SavePrefixStep(values, k);
    var record := WriteRecord(current);
    text' := text + record;
    current' := list.Next();
  }

  /** `eventListResetPosition` and the first `eventListNext` of `saveCalendar`: nothing is written yet. */
  method StartWriting(list: EventLists.EventList) returns (current: Events.Event?, ghost values: seq<Events.EventValue>)
    requires list.Valid()
    modifies list
    ensures list.Valid() && list.Repr == old(list.Repr) && list.Contents == old(list.Contents)
    ensures Writing(list, values, 0, current, [])
  {
    values := Events.ValuesOf(list.Contents);
    list.ResetPosition();
    current := list.Next();
  }

  /** Once the cursor is past the tail, every record has been written. */
  lemma WritingDone(list: EventLists.EventList, values: seq<Events.EventValue>, k: nat, text: seq<char>)
    requires Writing(list, values, k, null, text)
    ensures text == SaveText(Events.ValuesOf(list.Contents)) && list.Remaining() == []
  {
    assert values[..k] == values;
  }

  /** The loop of `saveCalendar`: the list is walked from its head and each event's record written. */
  method WriteAll(list: EventLists.EventList) returns (text: seq<char>)
    requires list.Valid()
    modifies list
    ensures list.Valid() && list.Repr == old(list.Repr) && list.Contents == old(list.Contents)
    ensures text == SaveText(Events.ValuesOf(list.Contents)) && list.Remaining() == []
  {
    var current;
    ghost var values;
    current, values := StartWriting(list);
    text := [];
    ghost var k := 0;
    while current != null
      invariant list.Valid() && list.Repr == old(list.Repr) && list.Contents == old(list.Contents)
      invariant Writing(list, values, k, current, text)
      decreases |list.Remaining()| + (if current == null then 0 else 1)
    {
      current, text := WriteStep(list, values, k, current, text);
      k := k + 1;
    }
    WritingDone(list, values, k, text);
  }

  /**
   * `saveCalendar(list, filename)`, where `opens` says whether the file can
   * be created; `written` is what the file then holds. An empty list is
   * refused before the filename is looked at. The list's cursor is used to
   * walk it, and is left past the tail.
   */
  method SaveCalendar(list: EventLists.EventList, filename: Option<seq<char>>, opens: bool)
    returns (error: FileError, written: Option<seq<char>>)
    requires list.Valid()
    modifies list
    ensures list.Valid() && list.Repr == old(list.Repr) && list.Contents == old(list.Contents)
    ensures list.Contents == [] ==> error == EmptyList && written.None?
    ensures list.Contents != [] && filename.None? ==> error == NoFilename && written.None?
    ensures list.Contents != [] && filename.Some? && !opens ==> error == Error && written.None?
    ensures list.Contents != [] && filename.Some? && opens ==>
      error == NoError && written == Some(SaveText(Events.ValuesOf(list.Contents))) && list.Remaining() == []
    ensures error != NoError ==> unchanged(list) && list.Remaining() == old(list.Remaining())
  {
    written := None;
    if list.head != null {
      if filename.Some? {
        error := NoError;
        if opens {
          var text := WriteAll(list);
          written := Some(text);
        } else {
          error := Error;
        }
      } else {
        error := NoFilename;
      }
    } else {
      error := EmptyList;
    }
  }
}
