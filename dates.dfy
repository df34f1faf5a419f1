/** Calendar dates as the server reads and writes them: Go's "2006-01-02" layout
    (findFiles, server.go:281; the key of validationReguest, server.go:149) and
    the day window of findFiles (server.go:281-287). */
module Dates {
  import opened Wrappers

  /** Nanoseconds in one day: Go's time.Time compares at nanosecond precision. */
  const NanosPerDay: int := 86_400 * 1_000_000_000

  // ---------------------------------------------------------------------------
  // Decimal digits

  predicate IsDigit(c: char) {
    '0' <= c <= '9'
  }

  predicate AllDigits(s: string) {
    forall i | 0 <= i < |s| :: IsDigit(s[i])
  }

  function DigitValue(c: char): (v: int)
    requires IsDigit(c)
    ensures 0 <= v <= 9
  {
    c as int - '0' as int
  }

  function DigitChar(n: int): (c: char)
    requires 0 <= n <= 9
    ensures IsDigit(c) && DigitValue(c) == n
  {
    ('0' as int + n) as char
  }

  /** The value of a digit string, accumulated as Go does: x = x*10 + digit. */
  function Decimal(s: string): nat
    requires AllDigits(s)
  {
    if s == [] then 0 else Decimal(s[..|s| - 1]) * 10 + DigitValue(s[|s| - 1])
  }

  function Pow10(w: nat): nat {
    if w == 0 then 1 else 10 * Pow10(w - 1)
  }

  /** `n` written with exactly `width` digits, zero-padded (Go's appendInt(b, n, width)). */
  function Padded(n: nat, width: nat): (s: string)
    ensures |s| == width && AllDigits(s)
  {
    if width == 0 then [] else Padded(n / 10, width - 1) + [DigitChar(n % 10)]
  }

  /** Reading back a padded number gives the number, when it fits the width. */
  lemma {:induction false} DecimalOfPadded(n: nat, width: nat)
    requires n < Pow10(width)
    ensures Decimal(Padded(n, width)) == n
  {
    if width > 0 {
      var p := Padded(n / 10, width - 1);
      DecimalOfPadded(n / 10, width - 1);
      assert (p + [DigitChar(n % 10)])[..width - 1] == p;
    }
  }

  /** Writing back the value of a digit string, at its own width, gives the string. */
  lemma {:induction false} PaddedOfDecimal(s: string)
    requires AllDigits(s)
    ensures Padded(Decimal(s), |s|) == s
  {
    if s != [] {
      var k := |s| - 1;
      var d := Decimal(s);
      PaddedOfDecimal(s[..k]);
      assert d / 10 == Decimal(s[..k]) && d % 10 == DigitValue(s[k]);
      assert DigitChar(DigitValue(s[k])) == s[k];
      assert s == s[..k] + [s[k]];
    }
  }

  /** A digit string of width w stands for a number below 10^w. */
  lemma {:induction false} DecimalBound(s: string)
    requires AllDigits(s)
    ensures Decimal(s) < Pow10(|s|)
  {
    if s != [] {
      DecimalBound(s[..|s| - 1]);
    }
  }

  /** Go's parseUint from format_rfc3339.go: every byte a digit, value within [lo, hi]. */
  function ParseUint(s: string, lo: int, hi: int): (r: Option<int>)
    ensures r.Some? <==> AllDigits(s) && lo <= Decimal(s) <= hi
    ensures r.Some? ==> r.value == Decimal(s)
  {
    if AllDigits(s) && lo <= Decimal(s) <= hi then Some(Decimal(s)) else None
  }

  /** parseUint accepts exactly the in-range numbers that fit the field, each written at
      the field's width with leading zeros, and yields that number. */
  lemma ParseUintMeaning(s: string, lo: int, hi: int, n: int)
    ensures ParseUint(s, lo, hi) == Some(n)
        <==> 0 <= n < Pow10(|s|) && lo <= n <= hi && s == Padded(n, |s|)
  {
    if ParseUint(s, lo, hi) == Some(n) {
      DecimalBound(s);
      PaddedOfDecimal(s);
    }
    if 0 <= n < Pow10(|s|) && lo <= n <= hi && s == Padded(n, |s|) {
      DecimalOfPadded(n, |s|);
    }
  }

  // ---------------------------------------------------------------------------
  // The proleptic Gregorian calendar, as Go's time package uses it

  datatype Date = Date(year: int, month: int, day: int)

  predicate IsLeap(y: int) {
    y % 4 == 0 && (y % 100 != 0 || y % 400 == 0)
  }

  /** Go's daysIn(month, year). */
  function DaysIn(y: int, m: int): int
    requires 1 <= m <= 12
  {
    if m == 2 then (if IsLeap(y) then 29 else 28)
    else if m == 4 || m == 6 || m == 9 || m == 11 then 30
    else 31
  }

  /** A date with a four-digit year that the "2006-01-02" layout accepts. */
  predicate ValidDate(d: Date) {
    0 <= d.year <= 9999 && 1 <= d.month <= 12 && 1 <= d.day <= DaysIn(d.year, d.month)
  }

  /** time.Parse("2006-01-02", s): four-digit year, two-digit month 01-12, two-digit
      day within the month, nothing before or after. */
  function ParseDate(s: string): Option<Date> {
    if |s| == 10 && s[4] == '-' && s[7] == '-'
       && AllDigits(s[0..4]) && AllDigits(s[5..7]) && AllDigits(s[8..10])
    then
      var y, m, d := Decimal(s[0..4]), Decimal(s[5..7]), Decimal(s[8..10]);
      if 1 <= m <= 12 && 1 <= d <= DaysIn(y, m) then Some(Date(y, m, d)) else None
    else None
  }

  /** t.Format("2006-01-02"). */
  function FormatDate(d: Date): string
    requires ValidDate(d)
  {
    Padded(d.year, 4) + "-" + Padded(d.month, 2) + "-" + Padded(d.day, 2)
  }

  /** Every date the layout accepts is valid, and formatting it gives back the very text parsed. */
  lemma ParseDateThenFormat(s: string)
    requires ParseDate(s).Some?
    ensures ValidDate(ParseDate(s).value) && FormatDate(ParseDate(s).value) == s
  {
    var y, m, d := s[0..4], s[5..7], s[8..10];
    PaddedOfDecimal(y);
    PaddedOfDecimal(m);
    PaddedOfDecimal(d);
    DecimalBound(y);
    assert Pow10(4) == 10000;
    var date := ParseDate(s).value;
    assert date == Date(Decimal(y), Decimal(m), Decimal(d));
    assert ValidDate(date);
    assert FormatDate(date) == Padded(Decimal(y), 4) + "-" + Padded(Decimal(m), 2) + "-" + Padded(Decimal(d), 2);
    assert s == y + "-" + m + "-" + d;
  }

  /** Every valid date survives formatting and parsing. */
  lemma FormatDateThenParse(d: Date)
    requires ValidDate(d)
    ensures ParseDate(FormatDate(d)) == Some(d)
  {
    var s := FormatDate(d);
    assert Pow10(2) == 100 && Pow10(4) == 10000;
    DecimalOfPadded(d.year, 4);
    DecimalOfPadded(d.month, 2);
    DecimalOfPadded(d.day, 2);
    assert s[0..4] == Padded(d.year, 4);
    assert s[5..7] == Padded(d.month, 2);
    assert s[8..10] == Padded(d.day, 2);
  }

  // ---------------------------------------------------------------------------
  // Day numbers and the search window

  /** Leap years in [0, y). */
  function LeapYearsBefore(y: int): nat
    requires y >= 0
  {
    if y == 0 then 0 else LeapYearsBefore(y - 1) + (if IsLeap(y - 1) then 1 else 0)
  }

  /** Days from 1970-01-01 to January 1 of year y. */
  function DaysBeforeYear(y: int): int
    requires y >= 0
  {
    365 * (y - 1970) + LeapYearsBefore(y) - LeapYearsBefore(1970)
  }

  /** Days in year y before the first of month m. */
  function DaysBeforeMonth(y: int, m: int): int
    requires 1 <= m <= 13
  {
    if m == 1 then 0 else DaysBeforeMonth(y, m - 1) + DaysIn(y, m - 1)
  }

  /** Days between 1970-01-01 and the date (negative before it). */
  function DayNumber(d: Date): int
    requires d.year >= 0 && 1 <= d.month <= 12
  {
    DaysBeforeYear(d.year) + DaysBeforeMonth(d.year, d.month) + d.day - 1
  }

  /** UTC midnight of the date, in nanoseconds since the Unix epoch: the
      `targetDate` that time.Parse("2006-01-02", ...) yields. */
  function MidnightUtc(d: Date): int
    requires d.year >= 0 && 1 <= d.month <= 12
  {
    DayNumber(d) * NanosPerDay
  }

  /** The calendar day after d. */
  function NextDate(d: Date): (n: Date)
    requires ValidDate(d)
    ensures n.year >= 0 && 1 <= n.month <= 12 && 1 <= n.day <= DaysIn(n.year, n.month)
  {
    if d.day < DaysIn(d.year, d.month) then Date(d.year, d.month, d.day + 1)
    else if d.month < 12 then Date(d.year, d.month + 1, 1)
    else Date(d.year + 1, 1, 1)
  }

  lemma DaysBeforeNewYear(y: int)
    ensures DaysBeforeMonth(y, 13) == 365 + (if IsLeap(y) then 1 else 0)
  {
    var feb := if IsLeap(y) then 29 else 28;
    assert DaysBeforeMonth(y, 2) == 31;
    assert DaysBeforeMonth(y, 3) == 31 + feb;
    assert DaysBeforeMonth(y, 4) == 62 + feb;
    assert DaysBeforeMonth(y, 5) == 92 + feb;
    assert DaysBeforeMonth(y, 6) == 123 + feb;
    assert DaysBeforeMonth(y, 7) == 153 + feb;
    assert DaysBeforeMonth(y, 8) == 184 + feb;
    assert DaysBeforeMonth(y, 9) == 215 + feb;
    assert DaysBeforeMonth(y, 10) == 245 + feb;
    assert DaysBeforeMonth(y, 11) == 276 + feb;
    assert DaysBeforeMonth(y, 12) == 306 + feb;
  }

  /** Go's targetDate.AddDate(0, 0, 1) in UTC is 24 hours later, and that instant is
      the midnight of the next calendar day: the window of findFiles is exactly one day. */
  lemma NextMidnight(d: Date)
    requires ValidDate(d)
    ensures MidnightUtc(NextDate(d)) == MidnightUtc(d) + NanosPerDay
  {
    var n := NextDate(d);
    if d.day == DaysIn(d.year, d.month) && d.month == 12 {
      DaysBeforeNewYear(d.year);
      assert DaysBeforeYear(n.year) == DaysBeforeYear(d.year) + DaysBeforeMonth(d.year, 13);
    }
    assert DayNumber(n) == DayNumber(d) + 1;
  }
}
