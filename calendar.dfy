/**
 * Proleptic Gregorian calendar dates written as ISO `YYYY-MM-DD`, the form in
 * which the contributions service dates its records, and the weekday that
 * `new Date(date).getDay()` reads from them (0 = Sunday … 6 = Saturday).
 */
module Calendar {
  import opened Wrappers
  import Text

  datatype Date = Date(year: int, month: int, day: int)

  predicate IsLeapYear(y: int) {
    y % 4 == 0 && (y % 100 != 0 || y % 400 == 0)
  }

  function DaysInMonth(y: int, m: int): (n: int)
    requires 1 <= m <= 12
    ensures 28 <= n <= 31
  {
    if m == 2 then (if IsLeapYear(y) then 29 else 28)
    else if m == 4 || m == 6 || m == 9 || m == 11 then 30
    else 31
  }

  predicate ValidDate(d: Date) {
    1 <= d.month <= 12 && 1 <= d.day <= DaysInMonth(d.year, d.month)
  }

  /** Number of days from 1970-01-01 to the given date (negative before it). */
  function DayNumber(d: Date): int
    requires 1 <= d.month <= 12
  {
    // Shift the year to start in March, so that the leap day is the last day of a year.
    var y := if d.month <= 2 then d.year - 1 else d.year;
    var era := y / 400;
    var yearOfEra := y - era * 400;
    var dayOfYear := MonthOffset(d.month) + d.day - 1;
    var dayOfEra := yearOfEra * 365 + yearOfEra / 4 - yearOfEra / 100 + dayOfYear;
    era * 146097 + dayOfEra - 719468
  }

  /** Days from March 1st to the first of month `m` of a March-based year. */
  function MonthOffset(m: int): int
    requires 1 <= m <= 12
  {
    if m == 3 then 0 else if m == 4 then 31 else if m == 5 then 61
    else if m == 6 then 92 else if m == 7 then 122 else if m == 8 then 153
    else if m == 9 then 184 else if m == 10 then 214 else if m == 11 then 245
    else if m == 12 then 275 else if m == 1 then 306 else 337
  }

  /** Outside February, the next month starts one month-length later. */
  lemma MonthOffsetStep(y: int, m: int)
    requires 1 <= m < 12 && m != 2
    ensures MonthOffset(m + 1) == MonthOffset(m) + DaysInMonth(y, m)
  {
  }

  /** The date after `d`. */
  function NextDate(d: Date): (n: Date)
    requires ValidDate(d)
    ensures ValidDate(n)
  {
    if d.day < DaysInMonth(d.year, d.month) then Date(d.year, d.month, d.day + 1)
    else if d.month < 12 then Date(d.year, d.month + 1, 1)
    else Date(d.year + 1, 1, 1)
  }

  /** Weekday of a day number: 1970-01-01 was a Thursday. */
  function WeekdayOf(n: int): (w: int)
    ensures 0 <= w < 7
  {
    (n + 4) % 7
  }

  /** `n` zero-padded to exactly `width` decimal digits (the low `width` digits). */
  function PaddedDigits(n: nat, width: nat): (s: string)
    ensures |s| == width && Text.IsDigits(s)
    decreases width
  {
    if width == 0 then "" else PaddedDigits(n / 10, width - 1) + [Text.DigitChar(n % 10)]
  }

  function Pow10(k: nat): (p: nat)
    ensures p >= 1
  {
    if k == 0 then 1 else 10 * Pow10(k - 1)
  }

  /** `YYYY-MM-DD` for a date of a four-digit year. */
  function FormatIsoDate(d: Date): (s: string)
    requires ValidDate(d) && 0 <= d.year < 10000
    ensures |s| == 10
  {
    PaddedDigits(d.year, 4) + "-" + PaddedDigits(d.month, 2) + "-" + PaddedDigits(d.day, 2)
  }

  /** Reads a `YYYY-MM-DD` date; anything else, or a day the month does not have, is invalid. */
  function ParseIsoDate(s: string): (r: Option<Date>)
    ensures r.Some? ==> ValidDate(r.value) && 0 <= r.value.year < 10000
  {
    if |s| == 10 && s[4] == '-' && s[7] == '-'
       && Text.IsDigits(s[..4]) && Text.IsDigits(s[5..7]) && Text.IsDigits(s[8..])
    then
      var d := Date(Text.DigitsValue(s[..4]), Text.DigitsValue(s[5..7]), Text.DigitsValue(s[8..]));
      DigitsBound(s[..4]);
      if ValidDate(d) then Some(d) else None
    else None
  }

  /**
   * `new Date(date).getDay()` for the `YYYY-MM-DD` form the contributions
   * service sends: the weekday of a real date, else `None`, read as NaN.
   * Other forms JavaScript also reads (a time part, `/` separators) are `None` here.
   */
  function DayOfWeek(date: string): (w: Option<int>)
    ensures w.Some? ==> 0 <= w.value < 7
  {
    match ParseIsoDate(date)
    case Some(d) => Some(WeekdayOf(DayNumber(d)))
    case None => None
  }

  /** Day number of an ISO date string, `None` when it does not parse. */
  function DateNumber(date: string): Option<int> {
    match ParseIsoDate(date)
    case Some(d) => Some(DayNumber(d))
    case None => None
  }

  /** A date's weekday is the weekday of its day number. */
  lemma WeekdayOfDate(date: string, n: int)
    requires DateNumber(date) == Some(n)
    ensures DayOfWeek(date) == Some(WeekdayOf(n))
  {
  }

  lemma {:induction false} DigitsBound(s: string)
    requires Text.IsDigits(s)
    ensures Text.DigitsValue(s) < Pow10(|s|)
    decreases |s|
  {
    if |s| > 0 {
      DigitsBound(s[..|s| - 1]);
    }
  }

  /** Reading a zero-padded number back gives the number. */
  lemma {:induction false} PaddedDigitsValue(n: nat, width: nat)
    requires n < Pow10(width)
    ensures Text.DigitsValue(PaddedDigits(n, width)) == n
    decreases width
  {
    if width > 0 {
      var s := PaddedDigits(n, width);
      PaddedDigitsValue(n / 10, width - 1);
      assert s[..|s| - 1] == PaddedDigits(n / 10, width - 1);
      assert Text.DigitValue("0123456789"[n % 10]) == n % 10;
    }
  }

  /** Padding the value of a digit string to its own length gives the string back. */
  lemma {:induction false} DigitsValuePadded(s: string)
    requires Text.IsDigits(s)
    ensures PaddedDigits(Text.DigitsValue(s), |s|) == s
    decreases |s|
  {
    if |s| > 0 {
      var init, c := s[..|s| - 1], s[|s| - 1];
      DigitsValuePadded(init);
      assert s == init + [c];
      var n, high := Text.DigitsValue(s), Text.DigitsValue(init);
      assert n == 10 * high + Text.DigitValue(c);
      LastDigit(high, Text.DigitValue(c));
      PaddedAppend(s, init, c, n);
    }
  }

  /** Padding a number whose last digit is `c` appends `c` to the padding of the rest. */
  lemma PaddedAppend(s: string, init: string, c: char, n: nat)
    requires '0' <= c <= '9' && s == init + [c]
    requires n % 10 == Text.DigitValue(c) && PaddedDigits(n / 10, |init|) == init
    ensures PaddedDigits(n, |s|) == s
  {
    PaddedUnfold(n, |init|);
    DigitCharOfValue(c);
  }

  lemma PaddedUnfold(n: nat, width: nat)
    ensures PaddedDigits(n, width + 1) == PaddedDigits(n / 10, width) + [Text.DigitChar(n % 10)]
  {
  }

  lemma DigitCharOfValue(c: char)
    requires '0' <= c <= '9'
    ensures Text.DigitChar(Text.DigitValue(c)) == c
  {
  }

  lemma LastDigit(high: int, d: int)
    requires 0 <= d < 10
    ensures (10 * high + d) / 10 == high && (10 * high + d) % 10 == d
  {
  }

  /** Printing a date and reading it back gives the same date. */
  lemma ParseFormat(d: Date)
    requires ValidDate(d) && 0 <= d.year < 10000
    ensures ParseIsoDate(FormatIsoDate(d)) == Some(d)
  {
    var s := FormatIsoDate(d);
    var y, m, dd := PaddedDigits(d.year, 4), PaddedDigits(d.month, 2), PaddedDigits(d.day, 2);
    IsoFields(y, m, dd);
    assert Pow10(2) == 100 && Pow10(4) == 10000;
    PaddedDigitsValue(d.year, 4);
    PaddedDigitsValue(d.month, 2);
    PaddedDigitsValue(d.day, 2);
  }

  /** The three fields of `YYYY-MM-DD` sit at fixed positions. */
  lemma IsoFields(y: string, m: string, d: string)
    requires |y| == 4 && |m| == 2 && |d| == 2
    ensures var s := y + "-" + m + "-" + d;
      |s| == 10 && s[4] == '-' && s[7] == '-' && s[..4] == y && s[5..7] == m && s[8..] == d
  {
  }

  /** Every string that reads as a date is exactly how that date prints. */
  lemma FormatParse(s: string)
    requires ParseIsoDate(s).Some?
    ensures FormatIsoDate(ParseIsoDate(s).value) == s
  {
    var y, m, dd := s[..4], s[5..7], s[8..];
    var d := ParseIsoDate(s).value;
    assert d == Date(Text.DigitsValue(y), Text.DigitsValue(m), Text.DigitsValue(dd));
    DigitsValuePadded(y);
    DigitsValuePadded(m);
    DigitsValuePadded(dd);
    IsoSplit(s);
  }

  lemma IsoSplit(s: string)
    requires |s| == 10 && s[4] == '-' && s[7] == '-'
    ensures s == s[..4] + "-" + s[5..7] + "-" + s[8..]
  {
  }

  /** The calendar has no gaps: the next date has the next day number. */
  lemma NextDateNumber(d: Date)
    requires ValidDate(d)
    ensures DayNumber(NextDate(d)) == DayNumber(d) + 1
  {
    if d.day < DaysInMonth(d.year, d.month) {
      SameMonth(d);
    } else if d.month == 2 {
      MarchFirst(d);
    } else if d.month < 12 {
      MonthEnd(d);
    } else {
      YearEnd(d);
    }
  }

  lemma SameMonth(d: Date)
    requires ValidDate(d) && d.day < DaysInMonth(d.year, d.month)
    ensures DayNumber(NextDate(d)) == DayNumber(d) + 1
  {
  }

  /** Outside February, the first of the next month follows the last of this one. */
  lemma MonthEnd(d: Date)
    requires ValidDate(d) && d.day == DaysInMonth(d.year, d.month) && d.month != 2 && d.month < 12
    ensures DayNumber(NextDate(d)) == DayNumber(d) + 1
  {
    assert NextDate(d) == Date(d.year, d.month + 1, 1);
    MonthOffsetStep(d.year, d.month);
  }

  /** January 1st follows December 31st: both lie in the March-based year `y`. */
  lemma YearEnd(d: Date)
    requires ValidDate(d) && d.month == 12 && d.day == 31
    ensures DayNumber(NextDate(d)) == DayNumber(d) + 1
  {
    var y := d.year;
    assert NextDate(d) == Date(y + 1, 1, 1);
    assert DayNumber(Date(y + 1, 1, 1)) == EraYearStart(y / 400, y - y / 400 * 400) + 306;
    assert DayNumber(d) == EraYearStart(y / 400, y - y / 400 * 400) + 305;
  }

  /** March 1st follows the last day of February, in leap and common years. */
  lemma MarchFirst(d: Date)
    requires ValidDate(d) && d.month == 2 && d.day == DaysInMonth(d.year, 2)
    ensures DayNumber(NextDate(d)) == DayNumber(d) + 1
  {
    var y := d.year;
    assert NextDate(d) == Date(y, 3, 1);
    assert DayNumber(Date(y, 3, 1)) == YearStart(y);
    assert DayNumber(d) == YearStart(y - 1) + 336 + d.day;
    YearLength(y);
  }

  /** Day number of March 1st of year `y`, the start of a March-based year. */
  function YearStart(y: int): int {
    EraYearStart(y / 400, y % 400)
  }

  /** Day number of March 1st of year `yearOfEra` of 400-year era `era`. */
  function EraYearStart(era: int, yearOfEra: int): int {
    era * 146097 + yearOfEra * 365 + yearOfEra / 4 - yearOfEra / 100 - 719468
  }

  /** From March 1st of `y - 1` to March 1st of `y` is 366 days when `y` is a leap year, else 365. */
  lemma YearLength(y: int)
    ensures YearStart(y) - YearStart(y - 1) == if IsLeapYear(y) then 366 else 365
  {
    var q, r := y / 400, y % 400;
    EraSplit(q, r);
    assert y == 400 * q + r;
    if r == 0 {
      EraSplit(q - 1, 399);
      assert y - 1 == 400 * (q - 1) + 399;
      EraBoundary(q);
    } else {
      EraSplit(q, r - 1);
      assert y - 1 == 400 * q + (r - 1);
      EraStep(q, r);
    }
  }

  /** A year splits uniquely into its era and its year of era, which decides its leap-ness. */
  lemma EraSplit(q: int, r: int)
    requires 0 <= r < 400
    ensures (400 * q + r) / 400 == q && (400 * q + r) % 400 == r
    ensures IsLeapYear(400 * q + r) <==> r % 4 == 0 && (r % 100 != 0 || r == 0)
  {
    var y := 400 * q + r;
    ModFour(100 * q, r);
    ModHundred(4 * q, r);
    assert y / 400 == q;
  }

  lemma ModFour(k: int, r: int)
    ensures (4 * k + r) % 4 == r % 4
  {
  }

  lemma ModHundred(k: int, r: int)
    ensures (100 * k + r) % 100 == r % 100
  {
  }

  /** The last year of an era is a common one. */
  lemma EraBoundary(q: int)
    ensures EraYearStart(q, 0) - EraYearStart(q - 1, 399) == 366
  {
  }

  lemma EraStep(q: int, r: int)
    requires 0 < r < 400
    ensures EraYearStart(q, r) - EraYearStart(q, r - 1) == if r % 4 == 0 && r % 100 != 0 then 366 else 365
  {
    LeapStep(r);
  }

  /** Within a 400-year era, the leap-day count steps by one exactly at leap years. */
  lemma LeapStep(r: int)
    requires 0 < r < 400
    ensures (r / 4 - (r - 1) / 4) - (r / 100 - (r - 1) / 100) == if r % 4 == 0 && r % 100 != 0 then 1 else 0
  {
    QuarterStep(r);
    CenturyStep(r);
    if r % 100 == 0 {
      assert r % 4 == 0;
    }
  }

  lemma QuarterStep(r: int)
    ensures r / 4 - (r - 1) / 4 == if r % 4 == 0 then 1 else 0
  {
    var q, p := (r - 1) / 4, (r - 1) % 4;
    assert r == 4 * q + p + 1;
    if p == 3 {
      assert r == 4 * (q + 1) + 0;
    } else {
      assert r == 4 * q + (p + 1);
    }
  }

  lemma CenturyStep(r: int)
    ensures r / 100 - (r - 1) / 100 == if r % 100 == 0 then 1 else 0
  {
    var q, p := (r - 1) / 100, (r - 1) % 100;
    assert r == 100 * q + p + 1;
    if p == 99 {
      assert r == 100 * (q + 1) + 0;
    } else {
      assert r == 100 * q + (p + 1);
    }
  }

  /** 1970-01-01 has day number 0 and was a Thursday. */
  lemma EpochIsThursday()
    ensures DateNumber(FormatIsoDate(Date(1970, 1, 1))) == Some(0)
    ensures DayOfWeek(FormatIsoDate(Date(1970, 1, 1))) == Some(4)
  {
    ParseFormat(Date(1970, 1, 1));
    assert DayNumber(Date(1970, 1, 1)) == 0;
  }

  /** 2024-01-01 was a Monday, so a calendar starting that day opens with one placeholder. */
  lemma NewYear2024IsMonday()
    ensures DayOfWeek(FormatIsoDate(Date(2024, 1, 1))) == Some(1)
  {
    ParseFormat(Date(2024, 1, 1));
    assert DayNumber(Date(2024, 1, 1)) == 19723;
  }
}
