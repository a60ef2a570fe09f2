/**
 * Gregorian calendar dates as Python's `datetime` holds them (years 1 to 9999),
 * the one-day step `+ timedelta(days=1)` and its inverse, chronological order,
 * and the two text forms the report engine writes: `%d.%m.%y` for sheet headers
 * and `%d.%m` / `%d.%m.%Y` for user-entered ranges.
 */
module Dates {
  import opened Wrappers
  import opened Text

  datatype CalendarDate = CalendarDate(day: int, month: int, year: int)

  predicate IsLeapYear(year: int) {
    year % 4 == 0 && (year % 100 != 0 || year % 400 == 0)
  }

  function DaysInMonth(month: int, year: int): int
    requires 1 <= month <= 12
  {
    if month == 2 then (if IsLeapYear(year) then 29 else 28)
    else if month == 4 || month == 6 || month == 9 || month == 11 then 30
    else 31
  }

  /** A day that `datetime.date` accepts: `MINYEAR <= year <= MAXYEAR` and an existing day of the month. */
  predicate IsValidDate(d: CalendarDate) {
    1 <= d.year <= 9999 && 1 <= d.month <= 12 && 1 <= d.day <= DaysInMonth(d.month, d.year)
  }

  type Date = d: CalendarDate | IsValidDate(d) witness CalendarDate(1, 1, 1)

  /** `datetime.min` and `datetime.max`, as days. */
  const FirstDate: Date := CalendarDate(1, 1, 1)
  const LastDate: Date := CalendarDate(31, 12, 9999)

  /** `a < b` on dates. */
  predicate Before(a: Date, b: Date) {
    || a.year < b.year
    || (a.year == b.year && a.month < b.month)
    || (a.year == b.year && a.month == b.month && a.day < b.day)
  }

  /** `a <= b` on dates. */
  predicate NotAfter(a: Date, b: Date) {
    Before(a, b) || a == b
  }

  /** A number that grows with the date; the distance to a later date bounds a day-by-day walk. */
  function Rank(d: Date): nat {
    d.year * 416 + d.month * 32 + d.day
  }

  lemma RankOrder(a: Date, b: Date)
    ensures Before(a, b) <==> Rank(a) < Rank(b)
  {
  }

  /** `d + timedelta(days=1)`; none at `LastDate`, where Python raises OverflowError. */
  function NextDay(d: Date): (r: Option<Date>)
    ensures r.None? <==> d == LastDate
    ensures r.Some? ==> Before(d, r.value)
    ensures r.Some? ==> forall x: Date :: Before(d, x) ==> NotAfter(r.value, x)
  {
    if d.day < DaysInMonth(d.month, d.year) then Some(CalendarDate(d.day + 1, d.month, d.year))
    else if d.month < 12 then Some(CalendarDate(1, d.month + 1, d.year))
    else if d.year < 9999 then Some(CalendarDate(1, 1, d.year + 1))
    else None
  }

  /** `d - timedelta(days=1)`; none at `FirstDate`, where Python raises OverflowError. */
  function PrevDay(d: Date): (r: Option<Date>)
    ensures r.None? <==> d == FirstDate
    ensures r.Some? ==> NextDay(r.value) == Some(d)
  {
    if d.day > 1 then Some(CalendarDate(d.day - 1, d.month, d.year))
    else if d.month > 1 then Some(CalendarDate(DaysInMonth(d.month - 1, d.year), d.month - 1, d.year))
    else if d.year > 1 then Some(CalendarDate(31, 12, d.year - 1))
    else None
  }

  /** Going forward a day and then back again returns to the same day. */
  lemma PrevDayOfNextDay(d: Date)
    requires d != LastDate
    ensures PrevDay(NextDay(d).value) == Some(d)
  {
  }

  // ---------------------------------------------------------------------------
  // Text forms
  // ---------------------------------------------------------------------------

  /** `n` as two digits with a leading zero (`%02d`). */
  function TwoDigits(n: nat): (r: String)
    requires n < 100
    ensures |r| == 2 && AllDigits(r) && DigitsValue(r) == n
  {
    var r := [DigitChar(n / 10), DigitChar(n % 10)];
    assert r[..1] == [DigitChar(n / 10)];
    assert r[..1][..0] == [];
    assert DigitsValue(r[..1]) == n / 10;
    r
  }

  /** Two digits are the `%02d` form of the number they stand for. */
  lemma TwoDigitsOfValue(t: String)
    requires |t| == 2 && AllDigits(t)
    ensures DigitsValue(t) < 100 && TwoDigits(DigitsValue(t)) == t
  {
    assert t[..1][..0] == [];
    assert DigitsValue(t[..1]) == DigitValue(t[0]);
    var n := DigitsValue(t);
    assert n == 10 * DigitValue(t[0]) + DigitValue(t[1]);
    assert n / 10 == DigitValue(t[0]) && n % 10 == DigitValue(t[1]);
    DigitCharOfValue(t[0]);
    DigitCharOfValue(t[1]);
    assert TwoDigits(n) == [DigitChar(n / 10), DigitChar(n % 10)];
  }

  /** `d.strftime('%d.%m.%y')`, the form of the date headers, e.g. `01.11.24`. */
  function FormatShort(d: Date): String {
    TwoDigits(d.day) + "." + TwoDigits(d.month) + "." + TwoDigits(d.year % 100)
  }

  /** The header text holds exactly the day, the month and the year within its century. */
  lemma FormatShortFields(d: Date)
    ensures var f := FormatShort(d);
            && |f| == 8 && f[2] == '.' && f[5] == '.'
            && AllDigits(f[0..2]) && DigitsValue(f[0..2]) == d.day
            && AllDigits(f[3..5]) && DigitsValue(f[3..5]) == d.month
            && AllDigits(f[6..8]) && DigitsValue(f[6..8]) == d.year % 100
  {
    var f := FormatShort(d);
    assert f[0..2] == TwoDigits(d.day);
    assert f[3..5] == TwoDigits(d.month);
    assert f[6..8] == TwoDigits(d.year % 100);
  }

  /** Two dates share a header text exactly when they agree on day, month and year within the century. */
  lemma FormatShortInjective(a: Date, b: Date)
    ensures FormatShort(a) == FormatShort(b) <==>
            (a.day == b.day && a.month == b.month && a.year % 100 == b.year % 100)
  {
    FormatShortFields(a);
    FormatShortFields(b);
    if FormatShort(a) == FormatShort(b) {
      assert FormatShort(a)[0..2] == FormatShort(b)[0..2];
      assert FormatShort(a)[3..5] == FormatShort(b)[3..5];
      assert FormatShort(a)[6..8] == FormatShort(b)[6..8];
    }
  }

  /** Header text is built from digits and points only. */
  lemma FormatShortAlphabet(d: Date)
    ensures forall k :: 0 <= k < |FormatShort(d)| ==> IsDigit(FormatShort(d)[k]) || FormatShort(d)[k] == '.'
  {
    FormatShortFields(d);
  }

  /** `dd.mm`, the short form a user types for a day of the current year. */
  function FormatDayMonth(d: Date): String {
    TwoDigits(d.day) + "." + TwoDigits(d.month)
  }

  /** `d.strftime('%d.%m.%Y')` for years with four digits, e.g. `01.11.2024`. */
  function FormatLong(d: Date): String
    requires d.year >= 1000
  {
    FormatDayMonth(d) + "." + NatToString(d.year)
  }
}
