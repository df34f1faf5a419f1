/** RFC 3339 date-time strings (section 5.6 of RFC 3339) as the server's parseRFC3339
    reads them (server.go:106-112): Go's time.Parse(time.RFC3339, s), whose fixed-position
    reader accepts "YYYY-MM-DDTHH:MM:SS", an optional "." and digits, then "Z" or "+HH:MM"
    or "-HH:MM", with upper-case T and Z only and seconds 00-59. */
module Timestamps {
  import opened Wrappers
  import opened Dates

  /** The time-offset of the string: "Z", or a sign with hours and minutes. */
  datatype Offset = Zulu | Numeric(sign: char, hours: int, minutes: int)

  /** A date-time exactly as written: the wall-clock fields in the string's own offset,
      with the fraction digits kept as text. */
  datatype DateTime = DateTime(date: Date, hour: int, minute: int, second: int,
                               fraction: string, offset: Offset)

  predicate ValidOffset(o: Offset) {
    o.Numeric? ==> (o.sign == '+' || o.sign == '-') && 0 <= o.hours <= 23 && 0 <= o.minutes <= 59
  }

  predicate ValidDateTime(t: DateTime) {
    && ValidDate(t.date)
    && 0 <= t.hour <= 23 && 0 <= t.minute <= 59 && 0 <= t.second <= 59
    && AllDigits(t.fraction)
    && ValidOffset(t.offset)
  }

  function OffsetText(o: Offset): string
    requires ValidOffset(o)
  {
    match o
    case Zulu => "Z"
    case Numeric(sign, h, m) => [sign] + Padded(h, 2) + ":" + Padded(m, 2)
  }

  function FractionText(f: string): string {
    if f == "" then "" else "." + f
  }

  /** The canonical text of a date-time; the partner of ParseRFC3339. */
  function FormatRFC3339(t: DateTime): string
    requires ValidDateTime(t)
  {
    FormatDate(t.date) + "T" + ClockText(t.hour, t.minute, t.second)
      + FractionText(t.fraction) + OffsetText(t.offset)
  }

  /** The end of the run of digits that starts at n. */
  function SkipDigits(s: string, n: nat): (k: nat)
    requires n <= |s|
    ensures n <= k <= |s| && AllDigits(s[n..k])
    ensures k < |s| ==> !IsDigit(s[k])
    decreases |s| - n
  {
    if n < |s| && IsDigit(s[n]) then
      var k := SkipDigits(s, n + 1);
      assert s[n..k] == [s[n]] + s[n + 1..k];
      k
    else n
  }

  /** The time zone part: "Z", or exactly six characters "+HH:MM" / "-HH:MM". */
  function ParseOffset(r: string): Option<Offset> {
    if r == "Z" then Some(Zulu)
    else if |r| != 6 then None
    else
      var hr, mm := ParseUint(r[1..3], 0, 23), ParseUint(r[4..6], 0, 59);
      if hr.Some? && mm.Some? && (r[0] == '-' || r[0] == '+') && r[3] == ':'
      then Some(Numeric(r[0], hr.value, mm.value))
      else None
  }

  /** The fraction digits after the seconds and the text that follows them. */
  function SplitFraction(r: string): (string, string) {
    if |r| >= 2 && r[0] == '.' && IsDigit(r[1]) then
      var n := SkipDigits(r, 2);
      (r[1..n], r[n..])
    else ("", r)
  }

  /** "HH:MM:SS" with hours 00-23, minutes and seconds 00-59. */
  function ParseClock(c: string): Option<(int, int, int)>
    requires |c| == 8
  {
    var hour, minute, second := ParseUint(c[0..2], 0, 23), ParseUint(c[3..5], 0, 59), ParseUint(c[6..8], 0, 59);
    if hour.Some? && minute.Some? && second.Some? && c[2] == ':' && c[5] == ':'
    then Some((hour.value, minute.value, second.value))
    else None
  }

  function ClockText(hour: nat, minute: nat, second: nat): string {
    Padded(hour, 2) + ":" + Padded(minute, 2) + ":" + Padded(second, 2)
  }

  /** server.go's parseRFC3339: the empty string is refused first, then Go's RFC 3339
      reader, field by field at fixed positions. */
  function ParseRFC3339(s: string): Option<DateTime> {
    if s == "" || |s| < 19 || s[10] != 'T' then None
    else
      match (ParseDate(s[..10]), ParseClock(s[11..19]))
      case (Some(date), Some((hour, minute, second))) =>
        var (fraction, zone) := SplitFraction(s[19..]);
        (match ParseOffset(zone)
         case None => None
         case Some(offset) => Some(DateTime(date, hour, minute, second, fraction, offset)))
      case _ => None
  }

  lemma TwoDigits(s: string, lo: int, hi: int)
    requires |s| == 2 && ParseUint(s, lo, hi).Some?
    ensures Padded(ParseUint(s, lo, hi).value, 2) == s
  {
    PaddedOfDecimal(s);
  }

  lemma PaddedTwo(n: int)
    requires 0 <= n <= 99
    ensures ParseUint(Padded(n, 2), 0, 99) == Some(n)
  {
    assert Pow10(2) == 100;
    DecimalOfPadded(n, 2);
  }

  lemma ParseClockThenFormat(c: string)
    requires |c| == 8 && ParseClock(c).Some?
    ensures var (h, m, sec) := ParseClock(c).value;
      0 <= h <= 23 && 0 <= m <= 59 && 0 <= sec <= 59 && ClockText(h, m, sec) == c
  {
    TwoDigits(c[0..2], 0, 23);
    TwoDigits(c[3..5], 0, 59);
    TwoDigits(c[6..8], 0, 59);
    assert c == c[0..2] + ":" + c[3..5] + ":" + c[6..8];
  }

  lemma FormatClockThenParse(h: int, m: int, sec: int)
    requires 0 <= h <= 23 && 0 <= m <= 59 && 0 <= sec <= 59
    ensures ParseClock(ClockText(h, m, sec)) == Some((h, m, sec))
  {
    var c := ClockText(h, m, sec);
    PaddedTwo(h);
    PaddedTwo(m);
    PaddedTwo(sec);
    assert c[0..2] == Padded(h, 2) && c[3..5] == Padded(m, 2) && c[6..8] == Padded(sec, 2);
  }

  lemma ParseOffsetThenFormat(r: string)
    requires ParseOffset(r).Some?
    ensures ValidOffset(ParseOffset(r).value) && OffsetText(ParseOffset(r).value) == r
  {
    if r != "Z" {
      TwoDigits(r[1..3], 0, 23);
      TwoDigits(r[4..6], 0, 59);
      assert r == [r[0]] + r[1..3] + ":" + r[4..6];
    }
  }

  lemma FormatOffsetThenParse(o: Offset)
    requires ValidOffset(o)
    ensures ParseOffset(OffsetText(o)) == Some(o)
  {
    if o.Numeric? {
      var r := OffsetText(o);
      PaddedTwo(o.hours);
      PaddedTwo(o.minutes);
      assert r[1..3] == Padded(o.hours, 2);
      assert r[4..6] == Padded(o.minutes, 2);
    }
  }

  lemma SplitFractionThenJoin(r: string)
    ensures AllDigits(SplitFraction(r).0)
    ensures FractionText(SplitFraction(r).0) + SplitFraction(r).1 == r
  {
    if |r| >= 2 && r[0] == '.' && IsDigit(r[1]) {
      var n := SkipDigits(r, 2);
      assert r == "." + r[1..n] + r[n..];
    }
  }

  lemma SplitFractionOfText(f: string, zone: string)
    requires AllDigits(f)
    requires zone == [] || (zone[0] != '.' && !IsDigit(zone[0]))
    ensures SplitFraction(FractionText(f) + zone) == (f, zone)
  {
    var r := FractionText(f) + zone;
    if f != "" {
      assert r[0] == '.' && r[1] == f[0];
      assert r[2..|f| + 1] == f[1..];
      SkipDigitsAcross(r, 2, |f| + 1);
      assert r[1..|f| + 1] == f;
      assert r[|f| + 1..] == zone;
    }
  }

  lemma {:induction false} SkipDigitsAcross(s: string, n: nat, k: nat)
    requires n <= k <= |s| && AllDigits(s[n..k])
    requires k == |s| || !IsDigit(s[k])
    ensures SkipDigits(s, n) == k
    decreases k - n
  {
    if n < k {
      assert IsDigit(s[n..k][0]);
      assert s[n + 1..k] == s[n..k][1..];
      SkipDigitsAcross(s, n + 1, k);
    }
  }

  /** Every accepted string is the canonical text of the valid date-time it yields:
      the reader takes nothing more and nothing less than the RFC 3339 form. */
  lemma ParseThenFormat(s: string)
    requires ParseRFC3339(s).Some?
    ensures ValidDateTime(ParseRFC3339(s).value)
    ensures FormatRFC3339(ParseRFC3339(s).value) == s
  {
    var t := ParseRFC3339(s).value;
    ParseDateThenFormat(s[..10]);
    ParseClockThenFormat(s[11..19]);
    SplitFractionThenJoin(s[19..]);
    var (fraction, zone) := SplitFraction(s[19..]);
    ParseOffsetThenFormat(zone);
    assert s == s[..10] + "T" + s[11..19] + s[19..];
  }

  /** Every valid date-time, written canonically, is read back unchanged. */
  lemma FormatThenParse(t: DateTime)
    requires ValidDateTime(t)
    ensures ParseRFC3339(FormatRFC3339(t)) == Some(t)
  {
    var zone := OffsetText(t.offset);
    var rest := FractionText(t.fraction) + zone;
    FormatDateThenParse(t.date);
    FormatClockThenFormatParse(t);
    SplitFractionOfText(t.fraction, zone);
    FormatOffsetThenParse(t.offset);
    FixedFields(FormatDate(t.date), ClockText(t.hour, t.minute, t.second), rest);
    assert FormatRFC3339(t) == FormatDate(t.date) + "T" + ClockText(t.hour, t.minute, t.second) + rest;
    ParseOfParts(FormatRFC3339(t), t.date, t.hour, t.minute, t.second, t.fraction, zone, t.offset);
  }

  /** Where the fixed-position reader finds each field of a string laid out as
      date, "T", clock, rest. */
  lemma FixedFields(date: string, clock: string, rest: string)
    requires |date| == 10 && |clock| == 8
    ensures var s := date + "T" + clock + rest;
      |s| >= 19 && s[..10] == date && s[10] == 'T' && s[11..19] == clock && s[19..] == rest
  {
  }

  /** The reader's result once each of its fields is known. */
  lemma ParseOfParts(s: string, date: Date, hour: int, minute: int, second: int,
                     fraction: string, zone: string, offset: Offset)
    requires |s| >= 19 && s[10] == 'T'
    requires ParseDate(s[..10]) == Some(date)
    requires ParseClock(s[11..19]) == Some((hour, minute, second))
    requires SplitFraction(s[19..]) == (fraction, zone)
    requires ParseOffset(zone) == Some(offset)
    ensures ParseRFC3339(s) == Some(DateTime(date, hour, minute, second, fraction, offset))
  {
  }

  lemma FormatClockThenFormatParse(t: DateTime)
    requires ValidDateTime(t)
    ensures ParseClock(ClockText(t.hour, t.minute, t.second)) == Some((t.hour, t.minute, t.second))
  {
    FormatClockThenParse(t.hour, t.minute, t.second);
  }

  /** The date of an accepted string is its first ten characters, as written. */
  lemma DatePartIsPrefix(s: string)
    requires ParseRFC3339(s).Some?
    ensures ValidDate(ParseRFC3339(s).value.date)
    ensures FormatDate(ParseRFC3339(s).value.date) == s[..10]
  {
    ParseDateThenFormat(s[..10]);
  }
}
