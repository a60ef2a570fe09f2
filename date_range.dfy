/**
 * `DataProcessor.parse_date_range`: a user-typed `DD.MM-DD.MM` range, where a
 * part without a year gets the current year appended and each part is then read
 * with `datetime.strptime(part.strip(), '%d.%m.%Y')`.
 */
module DateRange {
  import opened Wrappers
  import opened Text
  import opened Dates

  /** What `%d` accepts: `01`..`31`, `1`..`9`, or a space and `1`..`9`. */
  predicate IsDayToken(t: String) {
    || (|t| == 1 && IsDigit(t[0]) && t[0] != '0')
    || (|t| == 2 && t[0] == ' ' && IsDigit(t[1]) && t[1] != '0')
    || (|t| == 2 && AllDigits(t) && 1 <= DigitsValue(t) <= 31)
  }

  /** What `%m` accepts: `01`..`12` or `1`..`9`. */
  predicate IsMonthToken(t: String) {
    || (|t| == 1 && IsDigit(t[0]) && t[0] != '0')
    || (|t| == 2 && AllDigits(t) && 1 <= DigitsValue(t) <= 12)
  }

  /** The number a day or month token stands for. */
  function TokenValue(t: String): nat
    requires IsDayToken(t) || IsMonthToken(t)
  {
    if t[0] == ' ' then DigitValue(t[1]) else DigitsValue(t)
  }

  /**
   * `datetime.strptime(s, '%d.%m.%Y')`: the whole text must be day, point,
   * month, point, four year digits, and name an existing day.
   */
  function ParseDayMonthYear(s: String): (r: Option<Date>)
    ensures r.Some? ==> |Split(s, '.')| == 3 && 8 <= |s| <= 10
  {
    var fields := Split(s, '.');
    if |fields| == 3 && IsDayToken(fields[0]) && IsMonthToken(fields[1])
       && |fields[2]| == 4 && AllDigits(fields[2])
    then
      JoinSmall(fields[0], fields[1], fields[2], '.');
      assert fields == [fields[0], fields[1], fields[2]];
      var d := CalendarDate(TokenValue(fields[0]), TokenValue(fields[1]), DigitsValue(fields[2]));
      if IsValidDate(d) then Some(d) else None
    else
      None
  }

  /** `f"{part}.{current_year}"` when the part has exactly one point, else the part itself. */
  function WithYear(part: String, currentYear: nat): String {
    if |Split(part, '.')| == 2 then part + "." + NatToString(currentYear) else part
  }

  /** One half of the range: completed with the year if need be, stripped, and read with `strptime`. */
  function ReadPart(part: String, currentYear: nat): Option<Date> {
    ParseDayMonthYear(Strip(WithYear(part, currentYear)))
  }

  /** `parse_date_range(text)` with `datetime.now().year` passed in; none stands for `(None, None)`. */
  function ParseDateRange(text: String, currentYear: nat): Option<(Date, Date)> {
    var halves := Split(text, '-');
    if |halves| != 2 then None
    else
      var start := ReadPart(halves[0], currentYear);
      var end := ReadPart(halves[1], currentYear);
      if start.Some? && end.Some? then Some((start.value, end.value)) else None
  }

  // ---------------------------------------------------------------------------
  // Properties
  // ---------------------------------------------------------------------------

  /** A range text with no dash or with several dashes is rejected. */
  lemma RangeNeedsExactlyOneDash(text: String, currentYear: nat)
    requires ParseDateRange(text, currentYear).Some?
    ensures exists a, b :: '-' !in a && '-' !in b && text == a + "-" + b
  {
    var halves := Split(text, '-');
    assert Join(halves, '-') == halves[0] + ['-'] + halves[1];
    assert text == halves[0] + "-" + halves[1];
  }

  /** Two-digit tokens of a valid date are accepted as `%d` and `%m` and read back. */
  lemma TwoDigitTokens(d: Date)
    ensures IsDayToken(TwoDigits(d.day)) && TokenValue(TwoDigits(d.day)) == d.day
    ensures IsMonthToken(TwoDigits(d.month)) && TokenValue(TwoDigits(d.month)) == d.month
  {
  }

  /** `strptime` reads back what `strftime('%d.%m.%Y')` wrote. */
  lemma ParseFormatLong(d: Date)
    requires d.year >= 1000
    ensures ParseDayMonthYear(FormatLong(d)) == Some(d)
  {
    var day, month, year := TwoDigits(d.day), TwoDigits(d.month), NatToString(d.year);
    NatToStringFourDigits(d.year);
    NatToStringRoundTrip(d.year);
    TwoDigitTokens(d);
    JoinSmall(day, month, year, '.');
    assert FormatLong(d) == Join([day, month, year], '.');
    assert '.' !in year;
    SplitJoin([day, month, year], '.');
  }

  /**
   * Reverse round trip: a ten-character text that `strptime` accepts and that
   * does not start with the space `%d` allows is `strftime('%d.%m.%Y')` of the
   * day it reads, for a year with four digits.
   */
  lemma ParseCanonicalLong(s: String, d: Date)
    requires ParseDayMonthYear(s) == Some(d) && |s| == 10 && s[0] != ' '
    ensures d.year >= 1000 ==> s == FormatLong(d)
  {
    var fields := Split(s, '.');
    var day, month, year := fields[0], fields[1], fields[2];
    JoinSmall(day, month, year, '.');
    assert fields == [day, month, year];
    assert s == day + "." + month + "." + year;
    assert |day| == 2 && |month| == 2;
    assert day[0] == s[0];
    TwoDigitsOfValue(day);
    TwoDigitsOfValue(month);
    if d.year >= 1000 {
      FourDigitsValue(year);
      NatToStringOfDigits(year);
      assert year == NatToString(d.year);
    }
  }

  /** `str(n)` of a day or month number is a token `%d` and `%m` accept, read back as `n`. */
  lemma UnpaddedToken(n: nat)
    requires 1 <= n <= 31
    ensures IsDayToken(NatToString(n)) && TokenValue(NatToString(n)) == n
    ensures n <= 12 ==> IsMonthToken(NatToString(n))
  {
    NatToStringRoundTrip(n);
    if n >= 10 {
      assert |NatToString(n / 10)| == 1;
    }
  }

  /** Unpadded spellings such as `1.5.2024` are accepted too, and read as the same day. */
  lemma ParseUnpaddedLong(d: Date)
    requires d.year >= 1000
    ensures ParseDayMonthYear(NatToString(d.day) + "." + NatToString(d.month) + "." + NatToString(d.year)) == Some(d)
  {
    var day, month, year := NatToString(d.day), NatToString(d.month), NatToString(d.year);
    UnpaddedToken(d.day);
    UnpaddedToken(d.month);
    NatToStringRoundTrip(d.year);
    NatToStringFourDigits(d.year);
    assert '.' !in day && '.' !in month && '.' !in year;
    JoinSmall(day, month, year, '.');
    SplitJoin([day, month, year], '.');
    var fields := Split(day + "." + month + "." + year, '.');
    assert fields == [day, month, year];
  }

  /** The short form `dd.mm` has exactly one point, so the current year is appended to it. */
  lemma DayMonthGetsYear(d: Date, currentYear: nat)
    ensures WithYear(FormatDayMonth(d), currentYear) == FormatDayMonth(d) + "." + NatToString(currentYear)
  {
    var day, month := TwoDigits(d.day), TwoDigits(d.month);
    JoinSmall(day, month, [], '.');
    assert FormatDayMonth(d) == Join([day, month], '.');
    SplitJoin([day, month], '.');
  }

  /** A full `dd.mm.YYYY` part has two points and is left as it is. */
  lemma LongFormKeepsItsYear(d: Date, currentYear: nat)
    requires d.year >= 1000
    ensures WithYear(FormatLong(d), currentYear) == FormatLong(d)
  {
    var day, month, year := TwoDigits(d.day), TwoDigits(d.month), NatToString(d.year);
    JoinSmall(day, month, year, '.');
    assert FormatLong(d) == Join([day, month, year], '.');
    assert '.' !in year;
    SplitJoin([day, month, year], '.');
  }

  /** A text made of two `-`-free parts splits into exactly those two parts. */
  lemma SplitAtDash(a: String, b: String)
    requires '-' !in a && '-' !in b
    ensures Split(a + "-" + b, '-') == [a, b]
  {
    assert a + "-" + b == Join([a, b], '-');
    SplitJoin([a, b], '-');
  }

  /** Formatting contains no whitespace at either end, so `strip()` leaves it alone. */
  lemma StripFormatLong(d: Date)
    requires d.year >= 1000
    ensures Strip(FormatLong(d)) == FormatLong(d)
  {
    var f := FormatLong(d);
    var day, month, year := TwoDigits(d.day), TwoDigits(d.month), NatToString(d.year);
    assert f == day + "." + month + "." + year;
    forall k | 0 <= k < |f| ensures !IsSpace(f[k]) {
      if k < 2 {
        assert f[k] == day[k];
      } else if k == 2 || k == 5 {
      } else if k < 5 {
        assert f[k] == month[k - 3];
      } else {
        assert f[k] == year[k - 6];
      }
    }
  }

  /** A `dd.mm` half typed for a day of the current year reads back as that day. */
  lemma ShortPartReads(d: Date, currentYear: nat)
    requires 1000 <= currentYear <= 9999 && d.year == currentYear
    ensures ReadPart(FormatDayMonth(d), currentYear) == Some(d)
  {
    DayMonthGetsYear(d, currentYear);
    assert FormatDayMonth(d) + "." + NatToString(currentYear) == FormatLong(d);
    StripFormatLong(d);
    ParseFormatLong(d);
  }

  /** A `dd.mm.YYYY` half reads back as its day whatever the current year. */
  lemma LongPartReads(d: Date, currentYear: nat)
    requires d.year >= 1000
    ensures ReadPart(FormatLong(d), currentYear) == Some(d)
  {
    LongFormKeepsItsYear(d, currentYear);
    StripFormatLong(d);
    ParseFormatLong(d);
  }

  /** Stripping a half with the year appended only cuts leading whitespace, up to its point at most. */
  lemma StripBeforeYear(part: String, year: String, p: nat) returns (i: nat)
    requires p < |part| && part[p] == '.' && IsDigitString(year)
    ensures i <= p && Strip(part + "." + year) == part[i..] + "." + year
  {
    var w := part + "." + year;
    assert w[|w| - 1] == year[|year| - 1] && w[p] == '.';
    i := StripFrom(w, p);
    DropFromJoined(part, year, i);
  }

  lemma DropFromJoined(part: String, year: String, i: nat)
    requires i <= |part|
    ensures (part + "." + year)[i..] == part[i..] + "." + year
  {
  }

  /** A half with exactly one point is read in the current year, however it is spelled. */
  lemma ReadPartYear(part: String, currentYear: nat, d: Date)
    requires |Split(part, '.')| == 2 && ReadPart(part, currentYear) == Some(d)
    ensures d.year == currentYear
  {
    var year := NatToString(currentYear);
    var w := part + "." + year;
    assert WithYear(part, currentYear) == w;
    if '.' !in part {
      SplitWithoutSeparator(part, '.');
    }
    var p :| 0 <= p < |part| && part[p] == '.';
    var i := StripBeforeYear(part, year, p);
    assert '.' !in year;
    YearIsLastField(part[i..], year, d);
    NatToStringRoundTrip(currentYear);
  }

  /** `%Y` is read from the text after the last point. */
  lemma YearIsLastField(front: String, year: String, d: Date)
    requires '.' !in year && ParseDayMonthYear(front + "." + year) == Some(d)
    ensures AllDigits(year) && d.year == DigitsValue(year)
  {
    SplitLastPiece(front, '.', year);
    var fields := Split(front + "." + year, '.');
    assert |fields| == 3 && fields[2] == year;
  }

  /**
   * A half typed without a year (one point) gets the current year, whatever
   * day it names and however it is spelled.
   */
  lemma DayMonthPartsGetCurrentYear(text: String, currentYear: nat)
    requires ParseDateRange(text, currentYear).Some?
    ensures var halves := Split(text, '-');
            var range := ParseDateRange(text, currentYear).value;
            && (|Split(halves[0], '.')| == 2 ==> range.0.year == currentYear)
            && (|Split(halves[1], '.')| == 2 ==> range.1.year == currentYear)
  {
    var halves := Split(text, '-');
    var range := ParseDateRange(text, currentYear).value;
    if |Split(halves[0], '.')| == 2 {
      ReadPartYear(halves[0], currentYear, range.0);
    }
    if |Split(halves[1], '.')| == 2 {
      ReadPartYear(halves[1], currentYear, range.1);
    }
  }

  /**
   * Round trip: `dd.mm-dd.mm` typed for two days of the current year parses to
   * exactly those two days.
   */
  lemma ParseShortRange(a: Date, b: Date, currentYear: nat)
    requires 1000 <= currentYear <= 9999
    requires a.year == currentYear && b.year == currentYear
    ensures ParseDateRange(FormatDayMonth(a) + "-" + FormatDayMonth(b), currentYear) == Some((a, b))
  {
    assert '-' !in FormatDayMonth(a) && '-' !in FormatDayMonth(b);
    SplitAtDash(FormatDayMonth(a), FormatDayMonth(b));
    ShortPartReads(a, currentYear);
    ShortPartReads(b, currentYear);
  }

  /** Round trip: `dd.mm.YYYY-dd.mm.YYYY` parses to the two days whatever the current year. */
  lemma ParseLongRange(a: Date, b: Date, currentYear: nat)
    requires a.year >= 1000 && b.year >= 1000
    ensures ParseDateRange(FormatLong(a) + "-" + FormatLong(b), currentYear) == Some((a, b))
  {
    assert '-' !in NatToString(a.year) && '-' !in NatToString(b.year);
    assert '-' !in FormatLong(a) && '-' !in FormatLong(b);
    SplitAtDash(FormatLong(a), FormatLong(b));
    LongPartReads(a, currentYear);
    LongPartReads(b, currentYear);
  }
}
