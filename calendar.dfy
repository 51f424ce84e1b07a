/**
 * The proleptic Gregorian calendar as Python's `datetime` has it: years 1 to
 * 9999, and day numbers that are Python's ordinals (`date.toordinal()`, with
 * 0001-01-01 as day 1). Dates throughout the model are day numbers; a point
 * in time is a count of seconds since 0001-01-01T00:00:00. Formatting follows
 * `strftime` with `%Y` printed as four digits and `%m`, `%d` as two.
 */
module Calendar {
  import opened Wrappers
  import opened Text

  const SecondsPerDay: int := 86400
  const MaxYear: int := 9999
  /** The ordinal of 9999-12-31, Python's `date.max`. */
  const MaxOrdinal: int := 3652059

  /** A day number Python's `date` can represent. */
  type Day = n: int | 1 <= n <= MaxOrdinal witness 1

  /** Seconds since 0001-01-01T00:00:00, up to the end of 9999-12-31 (`MaxOrdinal * SecondsPerDay` seconds). */
  type Timestamp = t: int | 0 <= t < 315537897600

  datatype Civil = Civil(year: int, month: int, day: int)

  predicate IsLeap(y: int) {
    y % 4 == 0 && (y % 100 != 0 || y % 400 == 0)
  }

  function DaysInYear(y: int): int {
    if IsLeap(y) then 366 else 365
  }

  function DaysInMonth(y: int, m: int): int
  {
    if m == 2 then (if IsLeap(y) then 29 else 28)
    else if m == 4 || m == 6 || m == 9 || m == 11 then 30
    else 31
  }

  function DaysBeforeMonth(y: int, m: int): int
    requires 1 <= m <= 12
  {
    var table := [0, 31, 59, 90, 120, 151, 181, 212, 243, 273, 304, 334];
    table[m - 1] + (if m > 2 && IsLeap(y) then 1 else 0)
  }

  function DaysBeforeYear(y: int): int
    requires y >= 1
  {
    var p := y - 1;
    p * 365 + p / 4 - p / 100 + p / 400
  }

  predicate ValidCivil(c: Civil) {
    1 <= c.year <= MaxYear && 1 <= c.month <= 12 && 1 <= c.day <= DaysInMonth(c.year, c.month)
  }

  function Ordinal(c: Civil): int
    requires ValidCivil(c)
  {
    DaysBeforeYear(c.year) + DaysBeforeMonth(c.year, c.month) + c.day
  }

  lemma YearStep(y: int)
    requires y >= 1
    ensures DaysBeforeYear(y + 1) == DaysBeforeYear(y) + DaysInYear(y)
  {
    var p := y - 1;
    assert y / 4 == p / 4 + (if y % 4 == 0 then 1 else 0);
    assert y / 100 == p / 100 + (if y % 100 == 0 then 1 else 0);
    assert y / 400 == p / 400 + (if y % 400 == 0 then 1 else 0);
  }

  lemma {:induction false} DaysBeforeYearMonotone(y: int)
    requires 1 <= y <= MaxYear + 1
    ensures 0 <= DaysBeforeYear(y) <= DaysBeforeYear(MaxYear + 1)
    decreases MaxYear + 1 - y
  {
    if y <= MaxYear {
      YearStep(y);
      DaysBeforeYearMonotone(y + 1);
    }
  }

  /** Every valid date has a day number Python can represent. */
  lemma OrdinalInRange(c: Civil)
    requires ValidCivil(c)
    ensures 1 <= Ordinal(c) <= MaxOrdinal
  {
    DaysBeforeYearMonotone(c.year + 1);
    YearStep(c.year);
  }

  /** The calendar day after `c`. */
  function NextCivil(c: Civil): Civil
  {
    if c.day < DaysInMonth(c.year, c.month) then Civil(c.year, c.month, c.day + 1)
    else if c.month < 12 then Civil(c.year, c.month + 1, 1)
    else Civil(c.year + 1, 1, 1)
  }

  lemma NextCivilOrdinal(c: Civil)
    requires ValidCivil(c) && Ordinal(c) < MaxOrdinal
    ensures ValidCivil(NextCivil(c)) && Ordinal(NextCivil(c)) == Ordinal(c) + 1
  {
    if c.day == DaysInMonth(c.year, c.month) && c.month == 12 {
      YearStep(c.year);
    }
  }

  /** The calendar date of day number `n`: the `n - 1`-th day after 0001-01-01. */
  function CivilOf(n: Day): Civil
    decreases n
  {
    if n == 1 then Civil(1, 1, 1) else NextCivil(CivilOf(n - 1))
  }

  /** Day number `n` falls on a valid date whose ordinal is `n`. */
  lemma {:induction false} CivilOfValid(n: Day)
    ensures ValidCivil(CivilOf(n)) && Ordinal(CivilOf(n)) == n
    decreases n
  {
    if n > 1 {
      CivilOfValid(n - 1);
      NextCivilOrdinal(CivilOf(n - 1));
    }
  }

  /** `strftime` of `%Y`, `%m` and `%d` with `sep` between them: four-digit year, two-digit month and day. */
  function FormatDate(n: Day, sep: char): (s: string)
    ensures |s| == 10 && s[4] == sep && s[7] == sep
    ensures forall i :: 0 <= i < |s| ==> IsDigit(s[i]) || s[i] == sep
  {
    var c := CivilOf(n);
    CivilOfValid(n);
    PadDigits(c.year, 4) + [sep] + PadDigits(c.month, 2) + [sep] + PadDigits(c.day, 2)
  }

  /** `strftime('%Y-%m-%d')`. */
  function IsoDate(n: Day): string {
    FormatDate(n, '-')
  }

  /** `strftime('%Y/%m/%d')`. */
  function SlashDate(n: Day): string {
    FormatDate(n, '/')
  }

  /**
   * `strptime(s, '%Y-%m-%d')` for the canonical ten-character form: the day it
   * names, or None when the text is not a date.
   */
  function ParseIso(s: string): (r: Option<Day>)
    ensures r.Some? ==> |s| == 10 && s[4] == '-' && s[7] == '-'
  {
    if |s| == 10 && s[4] == '-' && s[7] == '-'
       && AllDigits(s[..4]) && AllDigits(s[5..7]) && AllDigits(s[8..])
    then
      var c := Civil(DigitsValue(s[..4]), DigitsValue(s[5..7]), DigitsValue(s[8..]));
      if ValidCivil(c) then OrdinalInRange(c); Some(Ordinal(c)) else None
    else None
  }

  /** Formatting a day and parsing the text back gives the same day. */
  lemma ParseIsoRoundTrip(n: Day)
    ensures ParseIso(IsoDate(n)) == Some(n)
  {
    var c := CivilOf(n);
    CivilOfValid(n);
    var y, m, d := PadDigits(c.year, 4), PadDigits(c.month, 2), PadDigits(c.day, 2);
    var s := IsoDate(n);
    assert s[..4] == y && s[5..7] == m && s[8..] == d;
    assert Pow10(4) == 10000 && Pow10(2) == 100;
    PadDigitsRoundTrip(c.year, 4);
    PadDigitsRoundTrip(c.month, 2);
    PadDigitsRoundTrip(c.day, 2);
  }

  /** Distinct days print differently. */
  lemma IsoDateInjective(a: Day, b: Day)
    requires IsoDate(a) == IsoDate(b)
    ensures a == b
  {
    ParseIsoRoundTrip(a);
    ParseIsoRoundTrip(b);
  }

  /** The day a point in time falls on. */
  function DayOf(t: Timestamp): Day {
    t / SecondsPerDay + 1
  }

  /** `t.replace(hour=0, minute=0, second=0, microsecond=0)`. */
  function Midnight(t: Timestamp): (m: Timestamp)
    ensures m % SecondsPerDay == 0 && m <= t < m + SecondsPerDay
    ensures DayOf(m) == DayOf(t)
  {
    t - t % SecondsPerDay
  }

  /** Midnight at the start of day `d`. */
  function StartOfDay(d: Day): (t: Timestamp)
    ensures t % SecondsPerDay == 0 && DayOf(t) == d
  {
    (d - 1) * SecondsPerDay
  }
}
