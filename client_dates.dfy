/** The browser client's date conversion (toRFC3339DateOnly, front/script.js:205-211) and
    its round trip through the server's validation. The client turns the value of a date
    field, "YYYY-MM-DD", into an ISO string at UTC midnight and posts it as the timestamp. */
module ClientDates {
  import opened Wrappers
  import opened Dates
  import opened Timestamps
  import opened Request

  /** Date.UTC's year rule: a year from 0 to 99 means 1900 to 1999. */
  function JsFullYear(y: int): int {
    if 0 <= y <= 99 then 1900 + y else y
  }

  /** Date.UTC(y, m - 1, day) for a day within month m, or for 29 February: in a year
      without one, 29 February rolls over to 1 March. */
  function UtcDay(y: int, m: int, day: int): (r: Date)
    requires 0 <= y <= 9999 && 1 <= m <= 12 && 1 <= day
    requires day <= DaysIn(y, m) || (m == 2 && day == 29)
    ensures ValidDate(r)
  {
    if day <= DaysIn(y, m) then Date(y, m, day) else Date(y, 3, 1)
  }

  /** toISOString of a UTC midnight with a four-digit year. */
  function IsoMidnight(d: Date): string
    requires ValidDate(d)
  {
    FormatDate(d) + "T00:00:00.000Z"
  }

  /** toRFC3339DateOnly as written. Its argument is the value of a date field, which the
      browser gives as a valid "YYYY-MM-DD" date (the click handlers refuse the empty value,
      front/script.js:298-301). `month - 1` only undoes the 0-based month of Date.UTC. */
  function ToRFC3339DateOnly(d: string): string
    requires ParseDate(d).Some?
  {
    var date := ParseDate(d).value;
    ParseDateThenFormat(d);
    IsoMidnight(UtcDay(JsFullYear(date.year), date.month, date.day))
  }

  /** The conversion the function is evidently meant to perform: the same date at UTC
      midnight, whatever the year. */
  function ToRFC3339DateOnlyIntended(d: string): string
    requires ParseDate(d).Some?
  {
    ParseDateThenFormat(d);
    IsoMidnight(ParseDate(d).value)
  }

  /** The ISO midnight string is an RFC 3339 date-time that the server reads back as that
      date, at 00:00:00 with fraction "000" in UTC. */
  lemma IsoMidnightIsRFC3339(d: Date)
    requires ValidDate(d)
    ensures ParseRFC3339(IsoMidnight(d)) == Some(DateTime(d, 0, 0, 0, "000", Zulu))
  {
    var t := DateTime(d, 0, 0, 0, "000", Zulu);
    assert AllDigits("000");
    assert Padded(0, 2) == "00";
    assert ClockText(0, 0, 0) == "00:00:00";
    assert FormatRFC3339(t) == IsoMidnight(d);
    FormatThenParse(t);
  }

  /** The timestamp the client posts, validated by the server. */
  function ServerKey(timestamp: string): Result<string, ValidationError> {
    ValidationRequest(HttpRequest("POST", Decoded(timestamp), false))
  }

  /** From year 100 on, the conversion is the date itself at UTC midnight. */
  lemma DateOnlyFromYear100(d: string)
    requires ParseDate(d).Some? && ParseDate(d).value.year >= 100
    ensures ToRFC3339DateOnly(d) == d + "T00:00:00.000Z"
    ensures ToRFC3339DateOnly(d) == ToRFC3339DateOnlyIntended(d)
  {
    ParseDateThenFormat(d);
  }

  /** Round trip across client and server: from year 100 on, the posted timestamp passes
      validation and the server's key is the very date the user picked. */
  lemma DateOnlyRoundTrip(d: string)
    requires ParseDate(d).Some? && ParseDate(d).value.year >= 100
    ensures ServerKey(ToRFC3339DateOnly(d)) == Success(d)
  {
    DateOnlyFromYear100(d);
    ParseDateThenFormat(d);
    var date := ParseDate(d).value;
    IsoMidnightIsRFC3339(date);
    ValidationAccepts(HttpRequest("POST", Decoded(IsoMidnight(date)), false));
  }

  /** The intended conversion makes the round trip for every date the field can hold. */
  lemma IntendedRoundTrip(d: string)
    requires ParseDate(d).Some?
    ensures ToRFC3339DateOnlyIntended(d) == d + "T00:00:00.000Z"
    ensures ServerKey(ToRFC3339DateOnlyIntended(d)) == Success(d)
  {
    ParseDateThenFormat(d);
    var date := ParseDate(d).value;
    IsoMidnightIsRFC3339(date);
    ValidationAccepts(HttpRequest("POST", Decoded(IsoMidnight(date)), false));
  }

  /** As written, a year from 0001 to 0099 is moved into the twentieth century: the date
      0050-01-01 is posted as 1950-01-01, and the server searches that day instead. */
  lemma TwoDigitYearShifted()
    ensures ParseDate("0050-01-01") == Some(Date(50, 1, 1))
      && ToRFC3339DateOnly("0050-01-01") == "1950-01-01T00:00:00.000Z"
      && ServerKey(ToRFC3339DateOnly("0050-01-01")) == Success("1950-01-01")
  {
    Iso0050();
    Text1950();
    ServerKeyOfIsoMidnight(Date(1950, 1, 1));
    assert ToRFC3339DateOnly("0050-01-01") == IsoMidnight(Date(1950, 1, 1));
  }

  lemma Iso0050()
    ensures ParseDate("0050-01-01") == Some(Date(50, 1, 1))
      && ToRFC3339DateOnly("0050-01-01") == "1950-01-01T00:00:00.000Z"
  {
    Parse0050();
    assert ToRFC3339DateOnly("0050-01-01") == IsoMidnight(Date(1950, 1, 1));
    Iso1950();
  }

  lemma Parse0050()
    ensures ParseDate("0050-01-01") == Some(Date(50, 1, 1))
  {
    Text0050();
    FormatDateThenParse(Date(50, 1, 1));
  }

  lemma Iso1950()
    ensures IsoMidnight(Date(1950, 1, 1)) == "1950-01-01T00:00:00.000Z"
  {
    Text1950();
  }

  /** The server's key for a client timestamp is the date it was made from. */
  lemma ServerKeyOfIsoMidnight(d: Date)
    requires ValidDate(d)
    ensures ServerKey(IsoMidnight(d)) == Success(FormatDate(d))
  {
    IsoMidnightIsRFC3339(d);
  }

  lemma Padded50()
    ensures Padded(50, 4) == "0050"
  {
    assert Padded(5, 3) == "005";
  }

  lemma Text0050()
    ensures FormatDate(Date(50, 1, 1)) == "0050-01-01"
  {
    Padded50();
    Padded01();
  }

  lemma Text1950()
    ensures FormatDate(Date(1950, 1, 1)) == "1950-01-01"
  {
    Padded01();
    assert Padded(19, 2) == "19";
    assert Padded(195, 3) == "195";
    assert Padded(1950, 4) == "1950";
  }

  lemma Padded01()
    ensures Padded(1, 2) == "01"
  {
  }
}
