/**
 * `time.Parse` for the two layouts the points rules use: "2006-01-02"
 * (a 4-digit year, a 2-digit month, a 2-digit day valid for that month) and
 * "15:04" (a 1- or 2-digit hour below 24, a colon, a 2-digit minute below 60).
 * Any other text, including trailing characters, fails to parse.
 */
module Timestamps {
  import opened Wrappers
  import opened Digits

  datatype Date = Date(year: nat, month: nat, day: nat)

  datatype Clock = Clock(hour: nat, minute: nat)

  /** The Gregorian leap-year rule. */
  predicate IsLeap(year: nat) {
    year % 4 == 0 && (year % 100 != 0 || year % 400 == 0)
  }

  function DaysIn(month: nat, year: nat): nat {
    if month == 2 then (if IsLeap(year) then 29 else 28)
    else if month == 4 || month == 6 || month == 9 || month == 11 then 30
    else 31
  }

  /** A date the "2006-01-02" layout can express and Go accepts. */
  predicate ValidDate(d: Date) {
    d.year <= 9999 && 1 <= d.month <= 12 && 1 <= d.day <= DaysIn(d.month, d.year)
  }

  predicate ValidClock(c: Clock) {
    c.hour < 24 && c.minute < 60
  }

  /** `time.Parse("2006-01-02", s)`: None where Go reports an error. */
  function ParseDate(s: string): (r: Option<Date>)
    ensures r.Some? ==> ValidDate(r.value)
  {
    if |s| == 10 && AllDigits(s[..4]) && s[4] == '-' && AllDigits(s[5..7]) && s[7] == '-' && AllDigits(s[8..])
    then
      var d := Date(DigitsValue(s[..4]), DigitsValue(s[5..7]), DigitsValue(s[8..]));
      if ValidDate(d) then Some(d) else None
    else None
  }

  /** `time.Parse("15:04", s)`: None where Go reports an error. */
  function ParseClock(s: string): (r: Option<Clock>)
    ensures r.Some? ==> ValidClock(r.value)
  {
    if s == [] || !IsDigit(s[0]) then None
    else
      var width := if |s| >= 2 && IsDigit(s[1]) then 2 else 1;
      var rest := s[width..];
      if |rest| == 3 && rest[0] == ':' && AllDigits(rest[1..]) then
        var c := Clock(DigitsValue(s[..width]), DigitsValue(rest[1..]));
        if ValidClock(c) then Some(c) else None
      else None
  }

  /** The day of the month the parsed time reports; Go's zero time (January 1 of year 1) when parsing fails. */
  function DayOf(s: string): (day: nat)
    ensures 1 <= day <= 31
  {
    match ParseDate(s)
    case Some(d) => d.day
    case None => 1
  }

  /** The hour the parsed time reports; 0 (midnight of the zero time) when parsing fails. */
  function HourOf(s: string): (hour: nat)
    ensures hour < 24
  {
    match ParseClock(s)
    case Some(c) => c.hour
    case None => 0
  }

  function FormatDate(d: Date): string {
    NatDigits(d.year, 4) + "-" + NatDigits(d.month, 2) + "-" + NatDigits(d.day, 2)
  }

  /** Hour zero-padded to two digits, as the "15:04" layout writes it. */
  function FormatClock(c: Clock): string {
    NatDigits(c.hour, 2) + ":" + NatDigits(c.minute, 2)
  }

  /** Hour without padding; the parser accepts this form too. */
  function FormatClockShort(c: Clock): string {
    NatDigits(c.hour, 1) + ":" + NatDigits(c.minute, 2)
  }

  /** A valid date written in the layout parses back to itself. */
  lemma DateRoundTrip(d: Date)
    requires ValidDate(d)
    ensures ParseDate(FormatDate(d)) == Some(d)
  {
    var y, m, dd := NatDigits(d.year, 4), NatDigits(d.month, 2), NatDigits(d.day, 2);
    assert Pow10(2) == 100 && Pow10(4) == 10000;
    NatDigitsLength(d.year, 4);
    NatDigitsLength(d.month, 2);
    NatDigitsLength(d.day, 2);
    NatDigitsRoundTrip(d.year, 4);
    NatDigitsRoundTrip(d.month, 2);
    NatDigitsRoundTrip(d.day, 2);
    var s := FormatDate(d);
    assert s[..4] == y && s[4] == '-' && s[5..7] == m && s[7] == '-' && s[8..] == dd;
  }

  /** The layout is fixed-width, so a date that parses is exactly the text of its fields. */
  lemma DateParseIsExact(s: string)
    requires ParseDate(s).Some?
    ensures FormatDate(ParseDate(s).value) == s
  {
    var d := ParseDate(s).value;
    DigitsRoundTrip(s[..4]);
    DigitsRoundTrip(s[5..7]);
    DigitsRoundTrip(s[8..]);
    assert s == s[..4] + "-" + s[5..7] + "-" + s[8..];
  }

  /** Four year digits, two month digits and two day digits, joined by dashes, parse field by field. */
  lemma DateFromParts(y: string, m: string, d: string)
    requires AllDigits(y) && |y| == 4 && AllDigits(m) && |m| == 2 && AllDigits(d) && |d| == 2
    ensures ParseDate(y + "-" + m + "-" + d)
         == (var dt := Date(DigitsValue(y), DigitsValue(m), DigitsValue(d)); if ValidDate(dt) then Some(dt) else None)
  {
    var s := y + "-" + m + "-" + d;
    assert |s| == 10 && s[4] == '-' && s[7] == '-';
    assert s[..4] == y;
    assert s[5..7] == m;
    assert s[8..] == d;
  }

  /** A valid clock parses back to itself from both the padded and the unpadded hour. */
  lemma ClockRoundTrip(c: Clock)
    requires ValidClock(c)
    ensures ParseClock(FormatClock(c)) == Some(c)
    ensures ParseClock(FormatClockShort(c)) == Some(c)
  {
    assert Pow10(2) == 100;
    NatDigitsLength(c.hour, 2);
    NatDigitsLength(c.minute, 2);
    NatDigitsRoundTrip(c.hour, 2);
    NatDigitsRoundTrip(c.hour, 1);
    NatDigitsRoundTrip(c.minute, 2);
    ClockFromParts(NatDigits(c.hour, 2), NatDigits(c.minute, 2));
    ClockFromParts(NatDigits(c.hour, 1), NatDigits(c.minute, 2));
  }

  /** An hour of one or two digits, a colon and two minute digits parse field by field. */
  lemma ClockFromParts(h: string, m: string)
    requires AllDigits(h) && 1 <= |h| <= 2 && AllDigits(m) && |m| == 2
    ensures ParseClock(h + ":" + m)
         == (var c := Clock(DigitsValue(h), DigitsValue(m)); if ValidClock(c) then Some(c) else None)
  {
    var s := h + ":" + m;
    var width := if |s| >= 2 && IsDigit(s[1]) then 2 else 1;
    assert width == |h|;
    assert s[..width] == h;
    assert s[width..] == ":" + m;
    assert (":" + m)[1..] == m;
  }

  /** A clock that parses was written either with a padded or with an unpadded hour. */
  lemma ClockParseForms(s: string)
    requires ParseClock(s).Some?
    ensures s == FormatClock(ParseClock(s).value) || s == FormatClockShort(ParseClock(s).value)
  {
    var c := ParseClock(s).value;
    var width := if |s| >= 2 && IsDigit(s[1]) then 2 else 1;
    var h, m := s[..width], s[width + 1..];
    assert s == h + ":" + m;
    DigitsRoundTrip(h);
    DigitsRoundTrip(m);
  }
}
