/** Calendar dates and their ISO 8601 calendar form `YYYY-MM-DD`, as
    `date.isoformat()` writes it and `date.fromisoformat()` reads it back. */
module IsoDate {
  import opened Wrappers

  /** A proleptic Gregorian (year, month, day) triple; not necessarily valid. */
  datatype Date = Date(year: int, month: int, day: int)

  /** The year range of Python's `date` (MINYEAR and MAXYEAR). */
  const MinYear: int := 1
  const MaxYear: int := 9999

  predicate IsLeapYear(y: int) {
    y % 4 == 0 && (y % 100 != 0 || y % 400 == 0)
  }

  function DaysInMonth(y: int, m: int): (n: int)
    requires 1 <= m <= 12
    ensures 28 <= n <= 31
    ensures n == 29 <==> m == 2 && IsLeapYear(y)
  {
    if m == 2 then (if IsLeapYear(y) then 29 else 28)
    else if m == 4 || m == 6 || m == 9 || m == 11 then 30
    else 31
  }

  /** The triples that the `date` constructor accepts without `ValueError`. */
  predicate Valid(d: Date) {
    && MinYear <= d.year <= MaxYear
    && 1 <= d.month <= 12
    && 1 <= d.day <= DaysInMonth(d.year, d.month)
  }

  /** A value of Python's `date` type. */
  type CalendarDate = d: Date | Valid(d) witness Date(1, 1, 1)

  predicate IsDigit(c: char) {
    '0' <= c <= '9'
  }

  function DigitChar(n: int): (c: char)
    requires 0 <= n < 10
    ensures IsDigit(c)
  {
    (48 + n) as char
  }

  function DigitValue(c: char): (n: int)
    requires IsDigit(c)
    ensures 0 <= n < 10
    ensures DigitChar(n) == c
  {
    c as int - 48
  }

  /** Two decimal digits with a leading zero. */
  function Pad2(n: int): (s: string)
    requires 0 <= n < 100
    ensures |s| == 2 && IsDigit(s[0]) && IsDigit(s[1])
  {
    [DigitChar(n / 10), DigitChar(n % 10)]
  }

  /** Four decimal digits with leading zeros. */
  function Pad4(n: int): (s: string)
    requires 0 <= n < 10000
    ensures |s| == 4
    ensures forall i | 0 <= i < 4 :: IsDigit(s[i])
  {
    Pad2(n / 100) + Pad2(n % 100)
  }

  function Value2(s: string): (n: int)
    requires |s| == 2 && IsDigit(s[0]) && IsDigit(s[1])
    ensures 0 <= n < 100
  {
    10 * DigitValue(s[0]) + DigitValue(s[1])
  }

  function Value4(s: string): (n: int)
    requires |s| == 4 && forall i | 0 <= i < 4 :: IsDigit(s[i])
    ensures 0 <= n < 10000
  {
    100 * Value2(s[..2]) + Value2(s[2..])
  }

  /** The exact shape `DDDD-DD-DD` with ASCII digits. */
  predicate WellShaped(s: string) {
    && |s| == 10
    && s[4] == '-' && s[7] == '-'
    && forall i | 0 <= i < 10 && i != 4 && i != 7 :: IsDigit(s[i])
  }

  /** `date.isoformat()`: always ten characters, dashes at positions 4 and 7. */
  function Format(d: CalendarDate): (s: string)
    ensures WellShaped(s)
  {
    Pad4(d.year) + "-" + Pad2(d.month) + "-" + Pad2(d.day)
  }

  /** `date.fromisoformat(s)`, with the `ValueError` that the decoder of the
      store swallows turned into `None`: the string must have the exact shape
      and name an existing date. */
  function Parse(s: string): (r: Option<CalendarDate>)
    ensures r.Some? ==> WellShaped(s)
  {
    if !WellShaped(s) then None
    else
      var d := Date(Value4(s[..4]), Value2(s[5..7]), Value2(s[8..]));
      if Valid(d) then Some(d) else None
  }

  lemma Pad2RoundTrip(n: int)
    requires 0 <= n < 100
    ensures Value2(Pad2(n)) == n
  {
  }

  lemma Pad4RoundTrip(n: int)
    requires 0 <= n < 10000
    ensures Value4(Pad4(n)) == n
  {
    var s := Pad4(n);
    assert s[..2] == Pad2(n / 100);
    assert s[2..] == Pad2(n % 100);
    Pad2RoundTrip(n / 100);
    Pad2RoundTrip(n % 100);
  }

  lemma Value2RoundTrip(s: string)
    requires |s| == 2 && IsDigit(s[0]) && IsDigit(s[1])
    ensures Pad2(Value2(s)) == s
  {
    var n := Value2(s);
    assert n / 10 == DigitValue(s[0]);
    assert n % 10 == DigitValue(s[1]);
  }

  lemma Value4RoundTrip(s: string)
    requires |s| == 4 && forall i | 0 <= i < 4 :: IsDigit(s[i])
    ensures Pad4(Value4(s)) == s
  {
    var hi, lo := Value2(s[..2]), Value2(s[2..]);
    assert Value4(s) / 100 == hi && Value4(s) % 100 == lo;
    Value2RoundTrip(s[..2]);
    Value2RoundTrip(s[2..]);
    assert s == s[..2] + s[2..];
  }

  /** Decoding what the encoder wrote gives back the same date. */
  lemma ParseFormat(d: CalendarDate)
    ensures Parse(Format(d)) == Some(d)
  {
    var s := Format(d);
    assert s[..4] == Pad4(d.year);
    assert s[5..7] == Pad2(d.month);
    assert s[8..] == Pad2(d.day);
    Pad4RoundTrip(d.year);
    Pad2RoundTrip(d.month);
    Pad2RoundTrip(d.day);
  }

  /** A string the decoder accepts is exactly what the encoder writes for the
      decoded date: the text form of a date is unique. */
  lemma FormatParse(s: string)
    requires Parse(s).Some?
    ensures Format(Parse(s).value) == s
  {
    var d := Parse(s).value;
    Value4RoundTrip(s[..4]);
    Value2RoundTrip(s[5..7]);
    Value2RoundTrip(s[8..]);
    assert s == s[..4] + "-" + s[5..7] + "-" + s[8..];
  }

  /** The decoder accepts exactly the strings the encoder can produce. */
  lemma ParseAcceptsExactlyFormatted(s: string)
    ensures Parse(s).Some? <==> exists d: CalendarDate :: Format(d) == s
  {
    if Parse(s).Some? {
      FormatParse(s);
    }
    if exists d: CalendarDate :: Format(d) == s {
      var d: CalendarDate :| Format(d) == s;
      ParseFormat(d);
    }
  }
}
