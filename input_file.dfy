/**
 * A calendar file opened for reading: its whole text, the read position and
 * the end-of-file indicator, with the two stdio calls the loader makes on
 * it (`fscanf` with the leading format of an event, and `fgets`).
 */
module InputFiles {
  import opened LibC

  /** Characters stored for the date, time and duration fields of `EVENT_LEADING_FORMAT`. */
  const DATE_FIELD_WIDTH: nat := 10
  const TIME_FIELD_WIDTH: nat := 5
  const DURATION_FIELD_WIDTH: nat := 10

  /** The value `fscanf` returns when the input ends before the first conversion. */
  const EOF: int := -1

  /**
   * The result of `fscanf(f, "%10s %5s %10i ", date, time, &duration)`: the
   * count of conversions, the fields converted, where reading stopped and
   * whether it ran into the end of the input.
   */
  datatype Leading = Leading(count: int, date: seq<char>, time: seq<char>, duration: int,
                             next: nat, hitEnd: bool)

  function ScanLeading(s: seq<char>, pos: nat): (r: Leading)
    requires pos <= |s|
    ensures pos <= r.next <= |s|
    ensures r.count in {EOF, 1, 2, 3}
    ensures r.count == EOF <==> SkipSpace(s, pos) == |s|
    ensures r.count == 3 ==> pos < r.next
    ensures r.count == 3 ==> 1 <= |r.date| <= DATE_FIELD_WIDTH && 1 <= |r.time| <= TIME_FIELD_WIDTH
    ensures r.count == 3 ==> (r.hitEnd <==> r.next == |s|)
    ensures r.hitEnd ==> r.next == |s|
  {
    var d := ScanToken(s, pos, DATE_FIELD_WIDTH);
    if !d.ok then Leading(EOF, [], [], 0, d.next, d.hitEnd)
    else
      var t := ScanToken(s, SkipSpace(s, d.next), TIME_FIELD_WIDTH);
      if !t.ok then Leading(1, d.value, [], 0, t.next, d.hitEnd || t.hitEnd)
      else
        var n := ScanInt(s, SkipSpace(s, t.next), DURATION_FIELD_WIDTH);
        if !n.ok then Leading(2, d.value, t.value, 0, n.next, d.hitEnd || t.hitEnd || n.hitEnd)
        else
          // the trailing space of the format skips all white space that follows
          var p := SkipSpace(s, n.next);
          Leading(3, d.value, t.value, n.value, p, p == |s|)
  }

  /** Where the line starting at `pos` ends: its newline, or the end of the input. */
  function LineEnd(s: seq<char>, pos: nat): (e: nat)
    requires pos <= |s|
    ensures pos <= e <= |s|
    ensures forall i :: pos <= i < e ==> s[i] != '\n'
    ensures e < |s| ==> s[e] == '\n'
    decreases |s| - pos
  {
    if pos == |s| || s[pos] == '\n' then pos else LineEnd(s, pos + 1)
  }

  /**
   * Whether `fgets` with room for `max` characters runs into the end of the
   * input: it stopped neither at a newline nor because the room was used up.
   */
  predicate FgetsHitsEnd(s: seq<char>, pos: nat, max: nat)
    requires pos <= |s|
  {
    var k := FgetsCount(s, pos, max);
    pos + k == |s| && k < max && (k == 0 || s[pos + k - 1] != '\n')
  }

  class InputFile {
    const data: seq<char>
    var pos: nat
    /**
     * The end-of-file indicator `feof` reports. It is only set once reading
     * has reached the end, so the sticky end-of-file of the C library and
     * the position agree.
     */
    var eof: bool

    ghost predicate Valid()
      reads this
    {
      pos <= |data| && (eof ==> pos == |data|)
    }

    /** `fopen(filename, "rb")` of a file holding `data`. */
    constructor (data: seq<char>)
      ensures Valid() && this.data == data && pos == 0 && !eof
    {
      this.data := data;
      pos := 0;
      eof := false;
    }

    /** `fscanf` with `EVENT_LEADING_FORMAT`. */
    method ScanEventLeading() returns (count: int, date: seq<char>, time: seq<char>, duration: int)
      requires Valid()
      modifies this
      ensures Valid()
      ensures var r := ScanLeading(data, old(pos));
        count == r.count && date == r.date && time == r.time && duration == r.duration &&
        pos == r.next && eof == (old(eof) || r.hitEnd)
    {
      var r := ScanLeading(data, pos);
      count, date, time, duration := r.count, r.date, r.time, r.duration;
      pos := r.next;
      eof := eof || r.hitEnd;
    }

    /**
     * `fgets(buf + at, n, f)`: copies up to n - 1 characters, stopping after
     * a newline, and terminates them with a NUL. It reports false (NULL) and
     * leaves `buf` as it was when nothing is left to read. Reading is never
     * refused otherwise, so there is no error indicator.
     */
    method Fgets(buf: array<char>, at: nat, n: nat) returns (got: bool)
      requires Valid() && n >= 2 && at + n <= buf.Length
      modifies this, buf
      ensures Valid()
      ensures got <==> old(pos) < |data|
      ensures old(pos) <= pos <= old(pos) + n - 1
      ensures got ==> old(pos) < pos
      ensures forall i :: old(pos) <= i < pos - 1 ==> data[i] != '\n'
      ensures got && data[pos - 1] != '\n' ==> pos == old(pos) + n - 1 || pos == |data|
      ensures eof == (old(eof) || (pos == |data| && pos < old(pos) + n - 1 && (!got || data[pos - 1] != '\n')))
      ensures got ==> forall i :: at <= i < at + pos - old(pos) ==> buf[i] == data[old(pos) + i - at]
      ensures got ==> buf[at + pos - old(pos)] == '\0'
      ensures forall i :: 0 <= i < at ==> buf[i] == old(buf[i])
      ensures !got ==> unchanged(buf)
    {
      var k := FgetsCount(data, pos, n - 1);
      got := k > 0;
      eof := eof || FgetsHitsEnd(data, pos, n - 1);
      if got {
        forall i | at <= i < at + k {
          buf[i] := data[pos + i - at];
        }
        buf[at + k] := '\0';
      }
      pos := pos + k;
    }
  }
}
