/**
 * The parts of the C library that the calendar core relies on, stated on
 * sequences of characters: the `isspace`/`isdigit` classes, the integer,
 * string and literal directives of `sscanf`/`fscanf` (`%Nd`, `%Ns`, a plain
 * character, a blank), the `%0Nd` and `%d` conversions of `printf`, and the
 * number of characters one `fgets` call copies.
 *
 * A scan works on a sequence `s` from a position `pos`; besides its result it
 * reports `hitEnd`, whether it tried to read past the last character (this is
 * what sets a stream's end-of-file indicator).
 */
module LibC {

  /** A pointer that may be NULL, as a value. */
  datatype Option<T> = None | Some(value: T)

  /** `strnlen` followed by `strncat`: the first `n` characters of `s` (all of them when fewer). */
  function Prefix(s: seq<char>, n: nat): (r: seq<char>)
    ensures |r| == if |s| < n then |s| else n
    ensures r == s[..|r|]
  {
    if |s| < n then s else s[..n]
  }

  /** C's `isspace` in the "C" locale. */
  predicate IsSpace(c: char) {
    c == ' ' || c == '\t' || c == '\n' || c == '\r' || c as int == 11 || c as int == 12
  }

  predicate IsDigit(c: char) {
    '0' <= c <= '9'
  }

  predicate AllDigits(ds: seq<char>) {
    forall i :: 0 <= i < |ds| ==> IsDigit(ds[i])
  }

  predicate NoNul(s: seq<char>) {
    forall i :: 0 <= i < |s| ==> s[i] != '\0'
  }

  /** A text made of two texts without NUL has none. */
  lemma NoNulConcat(a: seq<char>, b: seq<char>)
    requires NoNul(a) && NoNul(b)
    ensures NoNul(a + b)
  {
    forall i | 0 <= i < |a + b|
      ensures (a + b)[i] != '\0'
    {
      if i >= |a| {
        assert (a + b)[i] == b[i - |a|];
      }
    }
  }

  function Pow10(k: nat): (r: nat)
    ensures r >= 1
  {
    if k == 0 then 1 else 10 * Pow10(k - 1)
  }

  /** The value of a decimal digit. */
  function DigitOf(c: char): int {
    c as int - '0' as int
  }

  /** The value of a sequence of decimal digits, most significant first. */
  function DigitsValue(ds: seq<char>): int
  {
    if ds == [] then 0
    else DigitsValue(ds[..|ds| - 1]) * 10 + DigitOf(ds[|ds| - 1])
  }

  /** The value of the `n` digits of `s` that start at `pos`. */
  function DigitsValueAt(s: seq<char>, pos: nat, n: nat): int
    requires pos + n <= |s|
    decreases n
  {
    if n == 0 then 0
    else DigitsValueAt(s, pos, n - 1) * 10 + DigitOf(s[pos + n - 1])
  }

  // ---------------------------------------------------------------------------
  // printf

  /** The shortest decimal spelling of `n` ("0" for zero). */
  function Decimal(n: nat): (ds: seq<char>)
    ensures 1 <= |ds| && AllDigits(ds)
  {
    if n < 10 then [('0' as int + n) as char]
    else Decimal(n / 10) + [('0' as int + n % 10) as char]
  }

  function Zeros(k: nat): (z: seq<char>)
    ensures |z| == k && AllDigits(z)
    ensures forall i :: 0 <= i < k ==> z[i] == '0'
  {
    if k == 0 then [] else Zeros(k - 1) + ['0']
  }

  /** `ds` preceded by as many '0' as make it `width` characters long. */
  function ZeroPad(ds: seq<char>, width: nat): (r: seq<char>)
    ensures |r| == if |ds| < width then width else |ds|
  {
    (if |ds| < width then Zeros(width - |ds|) else []) + ds
  }

  /**
   * printf's `%0<width>d` conversion (with width 0 it is plain `%d`): the
   * sign, then the digits padded with zeros so that sign and digits together
   * are at least `width` characters.
   */
  function FormatInt(n: int, width: nat): (r: seq<char>)
  {
    if n >= 0 then ZeroPad(Decimal(n), width)
    else "-" + ZeroPad(Decimal(-n), if width == 0 then 0 else width - 1)
  }

  /** What `FormatInt` writes is digits, perhaps after a minus sign: never a NUL. */
  lemma FormatIntNoNul(n: int, width: nat)
    ensures NoNul(FormatInt(n, width))
  {
    var ds := Decimal(if n >= 0 then n else -n);
    var w := if n >= 0 || width == 0 then width else width - 1;
    var z := if |ds| < w then Zeros(w - |ds|) else [];
    assert AllDigits(z + ds);
  }

  // ---------------------------------------------------------------------------
  // scanf

  /** The position of the first non-space character at or after `pos`. */
  function SkipSpace(s: seq<char>, pos: nat): (p: nat)
    requires pos <= |s|
    ensures pos <= p <= |s|
    ensures forall i :: pos <= i < p ==> IsSpace(s[i])
    ensures p < |s| ==> !IsSpace(s[p])
    decreases |s| - pos
  {
    if pos == |s| || !IsSpace(s[pos]) then pos else SkipSpace(s, pos + 1)
  }

  /** How many digits follow `pos`, counting at most `max`. */
  function CountDigits(s: seq<char>, pos: nat, max: nat): (n: nat)
    requires pos <= |s|
    ensures pos + n <= |s| && n <= max
    ensures forall i :: pos <= i < pos + n ==> IsDigit(s[i])
    ensures n < max && pos + n < |s| ==> !IsDigit(s[pos + n])
    decreases max
  {
    if max == 0 || pos == |s| || !IsDigit(s[pos]) then 0
    else 1 + CountDigits(s, pos + 1, max - 1)
  }

  /** How many non-space characters follow `pos`, counting at most `max`. */
  function CountNonSpace(s: seq<char>, pos: nat, max: nat): (n: nat)
    requires pos <= |s|
    ensures pos + n <= |s| && n <= max
    ensures forall i :: pos <= i < pos + n ==> !IsSpace(s[i])
    ensures n < max && pos + n < |s| ==> IsSpace(s[pos + n])
    decreases max
  {
    if max == 0 || pos == |s| || IsSpace(s[pos]) then 0
    else 1 + CountNonSpace(s, pos + 1, max - 1)
  }

  /** The outcome of one scanf directive. */
  datatype Scanned<T> = Scanned(ok: bool, value: T, next: nat, hitEnd: bool)

  /** The outcome of an integer directive. */
  datatype IntScan = IntScan(ok: bool, value: int, next: nat, hitEnd: bool)

  /** Up to `max` digits from `pos`, at least one: the unsigned part of `%d`. */
  function ScanDigits(s: seq<char>, pos: nat, max: nat): (r: IntScan)
    requires pos <= |s|
    ensures pos <= r.next <= |s|
    ensures r.hitEnd ==> r.next == |s|
  {
    var n := CountDigits(s, pos, max);
    if n == 0 then IntScan(false, 0, pos, pos == |s| && max > 0)
    else IntScan(true, DigitsValueAt(s, pos, n), pos + n, pos + n == |s| && n < max)
  }

  /**
   * The `%<width>d` directive: leading white space is skipped, then an
   * optional sign and at least one digit, sign and digits together at most
   * `width` characters.
   */
  function ScanInt(s: seq<char>, pos: nat, width: nat): (r: IntScan)
    requires pos <= |s| && width >= 1
    ensures pos <= r.next <= |s|
    ensures r.hitEnd ==> r.next == |s|
  {
    var p := SkipSpace(s, pos);
    if p == |s| then IntScan(false, 0, p, true)
    else if s[p] == '-' then
      var d := ScanDigits(s, p + 1, width - 1);
      IntScan(d.ok, -d.value, d.next, d.hitEnd)
    else if s[p] == '+' then ScanDigits(s, p + 1, width - 1)
    else ScanDigits(s, p, width)
  }

  /** The `%<width>s` directive: skip white space, then 1..width non-space characters. */
  function ScanToken(s: seq<char>, pos: nat, width: nat): (r: Scanned<seq<char>>)
    requires pos <= |s| && width >= 1
    ensures pos <= r.next <= |s|
    ensures r.ok <==> SkipSpace(s, pos) < |s|
    ensures r.ok ==> pos < r.next
    ensures !r.ok ==> r.hitEnd && r.next == |s|
    ensures r.hitEnd ==> r.next == |s|
    ensures r.ok ==> 1 <= |r.value| <= width && forall i :: 0 <= i < |r.value| ==> !IsSpace(r.value[i])
  {
    var p := SkipSpace(s, pos);
    if p == |s| then Scanned(false, [], p, true)
    else
      var n := CountNonSpace(s, p, width);
      Scanned(true, s[p..p + n], p + n, p + n == |s| && n < width)
  }

  /** An ordinary character of a format: the next input character must be `c`. */
  function ScanLiteral(s: seq<char>, pos: nat, c: char): (r: Scanned<char>)
    requires pos <= |s|
    ensures r.next <= |s|
  {
    if pos == |s| then Scanned(false, c, pos, true)
    else if s[pos] == c then Scanned(true, c, pos + 1, false)
    else Scanned(false, c, pos, false)
  }

  // ---------------------------------------------------------------------------
  // fgets

  /**
   * How many characters `fgets` copies when it may store `max` characters
   * (its size argument minus one): it stops at the end of the input, after a
   * newline, or after `max` characters.
   */
  function FgetsCount(s: seq<char>, pos: nat, max: nat): (k: nat)
    requires pos <= |s|
    ensures pos + k <= |s| && k <= max
    ensures forall i :: pos <= i < pos + k - 1 ==> s[i] != '\n'
    ensures k < max && pos + k < |s| ==> 0 < k && s[pos + k - 1] == '\n'
    ensures pos < |s| && max > 0 ==> k > 0
    decreases max
  {
    if max == 0 || pos == |s| then 0
    else if s[pos] == '\n' then 1
    else 1 + FgetsCount(s, pos + 1, max - 1)
  }

  // ---------------------------------------------------------------------------
  // Lemmas: what printf writes, scanf reads back

  lemma {:induction false} DigitsValueBound(ds: seq<char>)
    requires AllDigits(ds)
    ensures 0 <= DigitsValue(ds) < Pow10(|ds|)
  {
    if ds != [] {
      DigitsValueBound(ds[..|ds| - 1]);
    }
  }

  lemma {:induction false} DecimalValue(n: nat)
    ensures DigitsValue(Decimal(n)) == n
  {
    if n >= 10 {
      var ds := Decimal(n);
      assert ds[..|ds| - 1] == Decimal(n / 10);
      DecimalValue(n / 10);
    }
  }

  lemma {:induction false} DecimalLength(n: nat, k: nat)
    requires n < Pow10(k)
    ensures |Decimal(n)| <= k || (n == 0 && k == 0)
  {
    if n >= 10 {
      DecimalLength(n / 10, k - 1);
    }
  }

  /** Leading zeros do not change the value of a digit sequence. */
  lemma {:induction false} LeadingZerosValue(k: nat, ds: seq<char>)
    requires AllDigits(ds)
    ensures AllDigits(Zeros(k) + ds) && DigitsValue(Zeros(k) + ds) == DigitsValue(ds)
  {
    var z := Zeros(k) + ds;
    if ds == [] {
      assert z == Zeros(k);
      ZerosValue(k);
    } else {
      assert z[..|z| - 1] == Zeros(k) + ds[..|ds| - 1];
      LeadingZerosValue(k, ds[..|ds| - 1]);
    }
  }

  lemma {:induction false} ZerosValue(k: nat)
    ensures DigitsValue(Zeros(k)) == 0
  {
    if k > 0 {
      assert Zeros(k)[..k - 1] == Zeros(k - 1);
      ZerosValue(k - 1);
    }
  }

  lemma ZeroPadValue(n: nat, width: nat)
    ensures AllDigits(ZeroPad(Decimal(n), width))
    ensures DigitsValue(ZeroPad(Decimal(n), width)) == n
  {
    DecimalValue(n);
    if |Decimal(n)| < width {
      LeadingZerosValue(width - |Decimal(n)|, Decimal(n));
    } else {
      assert ZeroPad(Decimal(n), width) == Decimal(n);
    }
  }

  /** The value of a two-digit sequence. */
  lemma TwoDigitsValue(ds: seq<char>)
    requires |ds| == 2
    ensures DigitsValue(ds) == DigitOf(ds[0]) * 10 + DigitOf(ds[1])
  {
    var p := ds[..1];
    assert p[..0] == [] && p[0] == ds[0];
    assert DigitsValue(p) == DigitsValue(p[..0]) * 10 + DigitOf(ds[0]);
  }

  /** The value of a four-digit sequence. */
  lemma FourDigitsValue(ds: seq<char>)
    requires |ds| == 4
    ensures DigitsValue(ds) == ((DigitOf(ds[0]) * 10 + DigitOf(ds[1])) * 10 + DigitOf(ds[2])) * 10 + DigitOf(ds[3])
  {
    var p := ds[..3];
    assert p[..2] == ds[..2] && p[2] == ds[2];
    assert DigitsValue(ds) == DigitsValue(p) * 10 + DigitOf(ds[3]);
    assert DigitsValue(p) == DigitsValue(ds[..2]) * 10 + DigitOf(ds[2]);
    TwoDigitsValue(ds[..2]);
  }

  /** CountDigits over a run of exactly `|ds|` digits. */
  lemma {:induction false} CountDigitsRun(s: seq<char>, pos: nat, max: nat, ds: seq<char>)
    requires pos + |ds| <= |s| && s[pos..pos + |ds|] == ds && AllDigits(ds)
    requires |ds| <= max
    requires |ds| == max || pos + |ds| == |s| || !IsDigit(s[pos + |ds|])
    ensures CountDigits(s, pos, max) == |ds|
    decreases |ds|
  {
    if ds != [] {
      assert s[pos] == ds[0];
      assert s[pos + 1..pos + 1 + |ds[1..]|] == ds[1..];
      CountDigitsRun(s, pos + 1, max - 1, ds[1..]);
    }
  }

  /** CountNonSpace over a run of exactly `|t|` non-space characters. */
  lemma {:induction false} CountNonSpaceRun(s: seq<char>, pos: nat, max: nat, t: seq<char>)
    requires pos + |t| <= |s| && s[pos..pos + |t|] == t
    requires forall i :: 0 <= i < |t| ==> !IsSpace(t[i])
    requires |t| <= max
    requires |t| == max || pos + |t| == |s| || IsSpace(s[pos + |t|])
    ensures CountNonSpace(s, pos, max) == |t|
    decreases |t|
  {
    if t != [] {
      assert s[pos] == t[0];
      assert s[pos + 1..pos + 1 + |t[1..]|] == t[1..];
      CountNonSpaceRun(s, pos + 1, max - 1, t[1..]);
    }
  }

  /**
   * What `printf("%0<width>d", n)` writes, `scanf("%<width>d")` reads back
   * as `n`, provided the text fits the width and is not followed by a digit
   * when it is shorter than the width.
   */
  lemma ScanFormattedInt(s: seq<char>, pos: nat, n: int, width: nat)
    requires width >= 1
    requires -(Pow10(width - 1) as int) < n < Pow10(width)
    requires var f := FormatInt(n, width);
      pos + |f| <= |s| && s[pos..pos + |f|] == f &&
      (|f| == width || pos + |f| == |s| || !IsDigit(s[pos + |f|]))
    ensures var f := FormatInt(n, width);
      var r := ScanInt(s, pos, width);
      r.ok && r.value == n && r.next == pos + |f| && (pos + |f| < |s| ==> !r.hitEnd)
  {
    if n >= 0 {
      ScanFormattedNat(s, pos, n, width);
    } else {
      var ds := ZeroPad(Decimal(-n), width - 1);
      assert Pow10(0) == 1;
      SliceCons(s, pos, '-', ds);
      ScanFormattedNegative(s, pos, n, width);
    }
  }

  /** A value that fits the width is written in exactly `width` characters. */
  lemma FormatIntWidth(n: int, width: nat)
    requires width >= 1
    requires -(Pow10(width - 1) as int) < n < Pow10(width)
    ensures |FormatInt(n, width)| == width
    ensures AllDigits(FormatInt(n, width)[1..])
  {
    if n >= 0 {
      PaddedDigits(n, width);
      var f := FormatInt(n, width);
      assert forall i :: 1 <= i < |f| ==> f[1..][i - 1] == f[i];
    } else {
      assert Pow10(0) == 1;
      PaddedDigits(-n, width - 1);
      assert FormatInt(n, width)[1..] == ZeroPad(Decimal(-n), width - 1);
    }
  }

  /** ScanDigits over a run of exactly `|ds|` digits. */
  lemma ScanDigitsRun(s: seq<char>, pos: nat, ds: seq<char>, max: nat)
    requires AllDigits(ds) && 1 <= |ds| <= max
    requires pos + |ds| <= |s| && s[pos..pos + |ds|] == ds
    requires |ds| == max || pos + |ds| == |s| || !IsDigit(s[pos + |ds|])
    ensures var d := ScanDigits(s, pos, max);
      d.ok && d.value == DigitsValue(ds) && d.next == pos + |ds| &&
      (pos + |ds| < |s| ==> !d.hitEnd)
  {
    CountDigitsRun(s, pos, max, ds);
    ScanDigitsShape(s, pos, max, |ds|);
    DigitsValueAtSlice(s, pos, ds);
  }

  /** ScanDigits when exactly `n` digits are there to be taken. */
  lemma ScanDigitsShape(s: seq<char>, pos: nat, max: nat, n: nat)
    requires pos + n <= |s| && 1 <= n && CountDigits(s, pos, max) == n
    ensures var d := ScanDigits(s, pos, max);
      d.ok && d.value == DigitsValueAt(s, pos, n) && d.next == pos + n &&
      (pos + n < |s| ==> !d.hitEnd)
  {
  }

  /** DigitsValueAt is DigitsValue of the slice it reads. */
  lemma {:induction false} DigitsValueAtSlice(s: seq<char>, pos: nat, ds: seq<char>)
    requires pos + |ds| <= |s| && s[pos..pos + |ds|] == ds
    ensures DigitsValueAt(s, pos, |ds|) == DigitsValue(ds)
    decreases |ds|
  {
    if ds != [] {
      var k := |ds| - 1;
      assert s[pos..pos + k] == ds[..k];
      assert s[pos + k] == ds[k];
      DigitsValueAtSlice(s, pos, ds[..k]);
    }
  }

  lemma NoSkipAtNonSpace(s: seq<char>, pos: nat)
    requires pos < |s| && !IsSpace(s[pos])
    ensures SkipSpace(s, pos) == pos
  {
  }

  /** At a digit, `%<width>d` is ScanDigits. */
  lemma ScanIntAtDigit(s: seq<char>, pos: nat, width: nat)
    requires pos < |s| && IsDigit(s[pos]) && width >= 1
    ensures ScanInt(s, pos, width) == ScanDigits(s, pos, width)
  {
    NoSkipAtNonSpace(s, pos);
  }

  /** At a '-', `%<width>d` is ScanDigits after the sign, negated. */
  lemma ScanIntAtMinus(s: seq<char>, pos: nat, width: nat)
    requires pos < |s| && s[pos] == '-' && width >= 1
    ensures var d := ScanDigits(s, pos + 1, width - 1);
      ScanInt(s, pos, width) == IntScan(d.ok, -d.value, d.next, d.hitEnd)
  {
    NoSkipAtNonSpace(s, pos);
  }

  /** `%<width>d` reads an unsigned run of 1..width digits as its value. */
  lemma ScanDigitRun(s: seq<char>, pos: nat, ds: seq<char>, width: nat)
    requires AllDigits(ds) && 1 <= |ds| <= width
    requires pos + |ds| <= |s| && s[pos..pos + |ds|] == ds
    requires |ds| == width || pos + |ds| == |s| || !IsDigit(s[pos + |ds|])
    ensures var r := ScanInt(s, pos, width);
      r.ok && r.value == DigitsValue(ds) && r.next == pos + |ds| &&
      (pos + |ds| < |s| ==> !r.hitEnd)
  {
    assert s[pos] == ds[0];
    ScanIntAtDigit(s, pos, width);
    ScanDigitsRun(s, pos, ds, width);
  }

  /** `%<width>d` reads '-' and then 1..width-1 digits as the negated value. */
  lemma ScanNegativeRun(s: seq<char>, pos: nat, ds: seq<char>, width: nat)
    requires AllDigits(ds) && 1 <= |ds| && 1 + |ds| <= width
    requires pos + 1 + |ds| <= |s| && s[pos] == '-' && s[pos + 1..pos + 1 + |ds|] == ds
    requires 1 + |ds| == width || pos + 1 + |ds| == |s| || !IsDigit(s[pos + 1 + |ds|])
    ensures var r := ScanInt(s, pos, width);
      r.ok && r.value == -DigitsValue(ds) && r.next == pos + 1 + |ds| &&
      (pos + 1 + |ds| < |s| ==> !r.hitEnd)
  {
    ScanDigitsRun(s, pos + 1, ds, width - 1);
    ScanIntAtMinus(s, pos, width);
  }

  lemma ScanFormattedNat(s: seq<char>, pos: nat, n: nat, width: nat)
    requires width >= 1 && n < Pow10(width)
    requires var f := ZeroPad(Decimal(n), width);
      pos + |f| <= |s| && s[pos..pos + |f|] == f &&
      (|f| == width || pos + |f| == |s| || !IsDigit(s[pos + |f|]))
    ensures var f := ZeroPad(Decimal(n), width);
      var r := ScanInt(s, pos, width);
      r.ok && r.value == n && r.next == pos + |f| && (pos + |f| < |s| ==> !r.hitEnd)
  {
    PaddedDigits(n, width);
    ScanDigitRun(s, pos, ZeroPad(Decimal(n), width), width);
  }

  /** `%0<width>d` of a value below 10^width writes exactly `width` digits of that value. */
  lemma PaddedDigits(n: nat, width: nat)
    requires width >= 1 && n < Pow10(width)
    ensures var ds := ZeroPad(Decimal(n), width);
      AllDigits(ds) && |ds| == width && DigitsValue(ds) == n
  {
    DecimalLength(n, width);
    ZeroPadValue(n, width);
  }

  /** A slice equal to `[c] + t` starts with `c` and continues with `t`. */
  lemma SliceCons(s: seq<char>, pos: nat, c: char, t: seq<char>)
    requires pos + 1 + |t| <= |s| && s[pos..pos + 1 + |t|] == [c] + t
    ensures s[pos] == c && s[pos + 1..pos + 1 + |t|] == t
  {
    assert s[pos] == s[pos..pos + 1 + |t|][0];
    assert s[pos + 1..pos + 1 + |t|] == s[pos..pos + 1 + |t|][1..];
  }

  lemma ScanFormattedNegative(s: seq<char>, pos: nat, n: int, width: nat)
    requires width >= 2 && -(Pow10(width - 1) as int) < n < 0
    requires var ds := ZeroPad(Decimal(-n), width - 1);
      pos + 1 + |ds| <= |s| && s[pos] == '-' && s[pos + 1..pos + 1 + |ds|] == ds &&
      (1 + |ds| == width || pos + 1 + |ds| == |s| || !IsDigit(s[pos + 1 + |ds|]))
    ensures var ds := ZeroPad(Decimal(-n), width - 1);
      var r := ScanInt(s, pos, width);
      r.ok && r.value == n && r.next == pos + 1 + |ds| && (pos + 1 + |ds| < |s| ==> !r.hitEnd)
  {
    PaddedDigits(-n, width - 1);
    ScanNegativeRun(s, pos, ZeroPad(Decimal(-n), width - 1), width);
  }

  /** `%<width>s` reads back a token of 1..width non-space characters. */
  lemma ScanTokenRun(s: seq<char>, pos: nat, t: seq<char>, width: nat)
    requires 1 <= |t| <= width
    requires forall i :: 0 <= i < |t| ==> !IsSpace(t[i])
    requires pos + |t| <= |s| && s[pos..pos + |t|] == t
    requires |t| == width || pos + |t| == |s| || IsSpace(s[pos + |t|])
    ensures var r := ScanToken(s, pos, width);
      r.ok && r.value == t && r.next == pos + |t|
  {
    assert s[pos] == t[0];
    assert SkipSpace(s, pos) == pos;
    CountNonSpaceRun(s, pos, width, t);
  }
}
