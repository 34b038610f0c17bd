/** `getWranglerCompatabilityDate`: today's UTC date less three calendar days,
    written `YYYY-MM-DD`. JavaScript's `Date` does the month and year
    rollover; here the proleptic Gregorian calendar is written out, and the
    clock's reading is a parameter. */
module CompatDate {
  import opened JsText

  /** A calendar date; `month` counts from 1 (the program's `getUTCMonth()`
      counts from 0 and it adds 1 back when formatting). */
  datatype Date = Date(year: int, month: int, day: int)

  predicate IsLeapYear(y: int) {
    y % 4 == 0 && (y % 100 != 0 || y % 400 == 0)
  }

  function DaysInMonth(y: int, m: int): (n: int)
    requires 1 <= m <= 12
    ensures 28 <= n <= 31
  {
    if m == 2 then (if IsLeapYear(y) then 29 else 28)
    else if m == 4 || m == 6 || m == 9 || m == 11 then 30
    else 31
  }

  function DaysInYear(y: int): int {
    if IsLeapYear(y) then 366 else 365
  }

  predicate ValidDate(d: Date) {
    1 <= d.month <= 12 && 1 <= d.day <= DaysInMonth(d.year, d.month)
  }

  /** Days of year `y` in the months before month `m`; `m == 13` gives the
      whole year. */
  function DaysBeforeMonth(y: int, m: int): (n: int)
    requires 1 <= m <= 13
    ensures 0 <= n <= 366
    ensures m == 13 ==> n == DaysInYear(y)
  {
    var leapDay := if m > 2 && IsLeapYear(y) then 1 else 0;
    leapDay + (
      if m == 1 then 0 else if m == 2 then 31 else if m == 3 then 59
      else if m == 4 then 90 else if m == 5 then 120 else if m == 6 then 151
      else if m == 7 then 181 else if m == 8 then 212 else if m == 9 then 243
      else if m == 10 then 273 else if m == 11 then 304 else if m == 12 then 334
      else 365)
  }

  lemma DaysBeforeNextMonth(y: int, m: int)
    requires 1 <= m <= 12
    ensures DaysBeforeMonth(y, m + 1) == DaysBeforeMonth(y, m) + DaysInMonth(y, m)
  {
  }

  /** Days from 0001-01-01 to the first day of year `y` (negative before it):
      365 a year plus one for each leap year passed. `/` on `int` rounds
      down for a positive divisor, which is what counting the leap years
      needs for years before 1 too. */
  function DaysBeforeYear(y: int): int {
    var p := y - 1;
    365 * p + p / 4 - p / 100 + p / 400
  }

  /** The day number of a date: 0001-01-01 is day 1, and consecutive days
      have consecutive numbers. */
  function DayNumber(d: Date): int
    requires ValidDate(d)
  {
    DaysBeforeYear(d.year) + DaysBeforeMonth(d.year, d.month) + d.day
  }

  lemma DivStep4(p: int)
    ensures (p + 1) / 4 == p / 4 + (if (p + 1) % 4 == 0 then 1 else 0)
  {
  }

  lemma DivStep100(p: int)
    ensures (p + 1) / 100 == p / 100 + (if (p + 1) % 100 == 0 then 1 else 0)
  {
  }

  lemma DivStep400(p: int)
    ensures (p + 1) / 400 == p / 400 + (if (p + 1) % 400 == 0 then 1 else 0)
  {
  }

  /** A multiple of 400 is a multiple of 100, and a multiple of 100 one of 4. */
  lemma MultiplesNest(y: int)
    ensures y % 400 == 0 ==> y % 100 == 0
    ensures y % 100 == 0 ==> y % 4 == 0
  {
    if y % 400 == 0 {
      MultipleOf400(y);
    }
    if y % 100 == 0 {
      MultipleOf100(y);
    }
  }

  lemma MultipleOf400(y: int)
    requires y % 400 == 0
    ensures y % 100 == 0
  {
    var k := y / 400;
    assert y == 100 * (4 * k);
  }

  lemma MultipleOf100(y: int)
    requires y % 100 == 0
    ensures y % 4 == 0
  {
    var k := y / 100;
    assert y == 4 * (25 * k);
  }

  /** The year after `y` starts `DaysInYear(y)` days after `y` does. */
  lemma {:induction false} DaysBeforeNextYear(y: int)
    ensures DaysBeforeYear(y + 1) == DaysBeforeYear(y) + DaysInYear(y)
  {
    DivStep4(y - 1);
    DivStep100(y - 1);
    DivStep400(y - 1);
    MultiplesNest(y);
  }

  /** A date's number lies in the range of numbers of its year. */
  lemma DayNumberWithinYear(d: Date)
    requires ValidDate(d)
    ensures DaysBeforeYear(d.year) < DayNumber(d) <= DaysBeforeYear(d.year) + DaysInYear(d.year)
  {
  }

  /** Every day of a year is numbered before every day of a later year. */
  lemma {:induction false} YearsInOrder(a: int, b: int)
    requires a < b
    ensures DaysBeforeYear(a) + DaysInYear(a) <= DaysBeforeYear(b)
    decreases b - a
  {
    DaysBeforeNextYear(a);
    if a + 1 < b {
      YearsInOrder(a + 1, b);
      DaysBeforeNextYear(a + 1);
    }
  }

  /** Different dates have different numbers, so a date is determined by its
      number. */
  lemma {:induction false} DayNumberInjective(a: Date, b: Date)
    requires ValidDate(a) && ValidDate(b) && DayNumber(a) == DayNumber(b)
    ensures a == b
  {
    DayNumberWithinYear(a);
    DayNumberWithinYear(b);
    if a.year < b.year {
      YearsInOrder(a.year, b.year);
    } else if b.year < a.year {
      YearsInOrder(b.year, a.year);
    }
    assert a.year == b.year;
    assert a.month == b.month;
  }

  /** The day before a valid date, rolling over to the end of the previous
      month or year. */
  function PreviousDay(d: Date): (r: Date)
    requires ValidDate(d)
    ensures ValidDate(r) && DayNumber(r) == DayNumber(d) - 1
  {
    if d.day > 1 then Date(d.year, d.month, d.day - 1)
    else if d.month > 1 then
      DaysBeforeNextMonth(d.year, d.month - 1);
      Date(d.year, d.month - 1, DaysInMonth(d.year, d.month - 1))
    else
      DaysBeforeNextYear(d.year - 1);
      Date(d.year - 1, 12, 31)
  }

  /** The date `n` days before `d`. */
  function DaysBefore(d: Date, n: nat): (r: Date)
    requires ValidDate(d)
    ensures ValidDate(r) && DayNumber(r) == DayNumber(d) - n
    decreases n
  {
    if n == 0 then d else DaysBefore(PreviousDay(d), n - 1)
  }

  /** `new Date(Date.UTC(y, m, d))` for the clock's UTC year, month and day.
      `Date.UTC` reads a year from 0 to 99 as 1900 plus that year; for year 0
      the 29th of February then falls on 1900-03-01, since 1900 is not a leap
      year. Every other year is taken as it is. */
  function UtcMidnight(now: Date): (r: Date)
    requires ValidDate(now)
    ensures ValidDate(r)
    ensures !(0 <= now.year <= 99) ==> r == now
    ensures 0 <= now.year <= 99 && now != Date(0, 2, 29) ==> r == Date(1900 + now.year, now.month, now.day)
    ensures now == Date(0, 2, 29) ==> r == Date(1900, 3, 1)
  {
    if 0 <= now.year <= 99 then
      if now.year == 0 && now.month == 2 && now.day == 29 then Date(1900, 3, 1)
      else
        assert now.month == 2 ==> (IsLeapYear(1900 + now.year) || now.day <= 28);
        Date(1900 + now.year, now.month, now.day)
    else now
  }

  /** The date the compatibility string names: `setUTCDate(getUTCDate() - 3)`.
      It is a valid date three days before the `Date.UTC` reading of the
      clock, which is the clock's own date outside years 0 to 99. */
  function CompatibilityDay(now: Date): (r: Date)
    requires ValidDate(now)
    ensures ValidDate(r)
    ensures DayNumber(r) == DayNumber(UtcMidnight(now)) - 3
    ensures !(0 <= now.year <= 99) ==> DayNumber(r) == DayNumber(now) - 3
  {
    DaysBefore(UtcMidnight(now), 3)
  }

  /** A month or day number, zero-padded to two digits with `padStart(2, '0')`. */
  function TwoDigits(n: nat): (s: string)
    requires 1 <= n <= 99
    ensures |s| == 2 && AllDigits(s) && DigitsValue(s) == n
    ensures s == if n < 10 then "0" + NatToDecimal(n) else NatToDecimal(n)
  {
    var t := NatToDecimal(n);
    DecimalLength(n, 1);
    DecimalLength(n, 2);
    assert Pow10(2) == 100;
    var s := PadStart(t, 2, '0');
    assert |t| == 1 ==> s == ['0'] + t && s[..1] == ['0'] && ['0'][..0] == [];
    assert |t| == 2 ==> s == t;
    s
  }

  /** `${year}-${month}-${day}`; reading the written date back gives the date. */
  function FormatDate(d: Date): (s: string)
    requires ValidDate(d)
    ensures ParseDate(s) == Some(d)
  {
    var y, mm, dd := IntToDecimal(d.year), TwoDigits(d.month), TwoDigits(d.day);
    DashedLayout(y, mm, dd);
    IntDecimalRoundTrip(d.year);
    y + "-" + mm + "-" + dd
  }

  /** The string the program embeds as `compatibility_date`. It reads back as
      the compatibility day and holds neither a double quote nor a line
      break, so it can stand inside a JSON string on one line. */
  function CompatibilityDate(now: Date): (s: string)
    requires ValidDate(now)
    ensures ParseDate(s) == Some(CompatibilityDay(now))
    ensures '"' !in s && '\n' !in s
  {
    var d := CompatibilityDay(now);
    FormattedDateCharacters(d);
    PlainWhenDigitsOrDashes(FormatDate(d));
    FormatDate(d)
  }

  /** Reads a date written `<year>-MM-DD`, with an optional `-` before the
      year's digits and exactly two digits each for month and day. */
  function ParseDate(s: string): Option<Date> {
    var n := |s|;
    if n < 7 || s[n - 6] != '-' || s[n - 3] != '-' then None
    else if !AllDigits(s[n - 5..n - 3]) || !AllDigits(s[n - 2..]) then None
    else match ParseIntDecimal(s[..n - 6])
      case None => None
      case Some(y) => Some(Date(y, DigitsValue(s[n - 5..n - 3]), DigitsValue(s[n - 2..])))
  }

  /** The compatibility date is exactly three calendar days before the clock's
      date, for every year `Date.UTC` takes as given: it is a valid date, its
      number is three less, and it is the only valid date with that number. */
  lemma {:induction false} CompatibilityDayIsThreeDaysEarlier(now: Date)
    requires ValidDate(now) && !(0 <= now.year <= 99)
    ensures ValidDate(CompatibilityDay(now)) && DayNumber(CompatibilityDay(now)) == DayNumber(now) - 3
    ensures forall e :: ValidDate(e) && DayNumber(e) == DayNumber(now) - 3 ==> e == CompatibilityDay(now)
  {
    forall e | ValidDate(e) && DayNumber(e) == DayNumber(now) - 3
      ensures e == CompatibilityDay(now)
    {
      DayNumberInjective(e, CompatibilityDay(now));
    }
  }

  /** The written date has the year's decimal form first, then `-`, two
      month digits, `-` and two day digits. */
  lemma FormatDateLayout(d: Date)
    requires ValidDate(d)
    ensures var s := FormatDate(d);
      |s| == |IntToDecimal(d.year)| + 6
      && s[..|s| - 6] == IntToDecimal(d.year)
      && s[|s| - 6] == '-' && s[|s| - 3] == '-'
      && s[|s| - 5..|s| - 3] == TwoDigits(d.month) && s[|s| - 2..] == TwoDigits(d.day)
  {
    var y, mm, dd := IntToDecimal(d.year), TwoDigits(d.month), TwoDigits(d.day);
    DashedLayout(y, mm, dd);
  }

  /** For a four-digit year the written date is ten characters long. */
  lemma {:induction false} FourDigitYearIsTenCharacters(d: Date)
    requires ValidDate(d) && 1000 <= d.year <= 9999
    ensures |FormatDate(d)| == 10
  {
    var y := IntToDecimal(d.year);
    assert y == NatToDecimal(d.year);
    DecimalLength(d.year, 3);
    DecimalLength(d.year, 4);
    assert Pow10(3) == 1000 && Pow10(4) == 10000;
    assert |y| == 4;
    FormatDateLayout(d);
  }

  lemma DashedLayout(y: string, mm: string, dd: string)
    requires |mm| == 2 && |dd| == 2
    ensures var s := y + "-" + mm + "-" + dd; var n := |s|;
      n == |y| + 6 && s[..n - 6] == y && s[n - 6] == '-' && s[n - 3] == '-'
      && s[n - 5..n - 3] == mm && s[n - 2..] == dd
  {
    var s := y + "-" + mm + "-" + dd;
    var n := |s|;
    assert s[..n - 6] == y;
    assert s[n - 5..n - 3] == mm;
    assert s[n - 2..] == dd;
  }

  /** Only digits and `-`. */
  predicate DigitsOrDashes(s: string) {
    forall i :: 0 <= i < |s| ==> IsDigit(s[i]) || s[i] == '-'
  }

  lemma DigitsOrDashesJoin(a: string, b: string)
    requires DigitsOrDashes(a) && DigitsOrDashes(b)
    ensures DigitsOrDashes(a + b)
  {
    var s := a + b;
    forall i | 0 <= i < |s| ensures IsDigit(s[i]) || s[i] == '-' {
      if i < |a| { assert s[i] == a[i]; } else { assert s[i] == b[i - |a|]; }
    }
  }

  /** The written date holds only digits and `-`. */
  lemma FormattedDateCharacters(d: Date)
    requires ValidDate(d)
    ensures DigitsOrDashes(FormatDate(d))
  {
    var y, mm, dd := IntToDecimal(d.year), TwoDigits(d.month), TwoDigits(d.day);
    assert DigitsOrDashes("-");
    assert DigitsOrDashes(y) by {
      if d.year < 0 {
        DigitsOrDashesJoin("-", NatToDecimal(-d.year));
      }
    }
    DigitsOrDashesJoin(y, "-");
    DigitsOrDashesJoin(y + "-", mm);
    DigitsOrDashesJoin(y + "-" + mm, "-");
    DigitsOrDashesJoin(y + "-" + mm + "-", dd);
  }

  lemma PlainWhenDigitsOrDashes(s: string)
    requires DigitsOrDashes(s)
    ensures '"' !in s && '\n' !in s
  {
  }

  /** Three steps back from a date the clock reading keeps as it is. */
  lemma ThreeDaysBack(now: Date, d1: Date, d2: Date, d3: Date)
    requires ValidDate(now) && !(0 <= now.year <= 99)
    requires ValidDate(d1) && ValidDate(d2)
    requires PreviousDay(now) == d1 && PreviousDay(d1) == d2 && PreviousDay(d2) == d3
    ensures CompatibilityDay(now) == d3
  {
    assert DaysBefore(d2, 1) == DaysBefore(d3, 0);
  }

  /** A two-digit clock year is read by `Date.UTC` as 1900 plus that year:
      0050-06-10 gives 1950-06-07. */
  lemma TwoDigitYearExample()
    ensures CompatibilityDay(Date(50, 6, 10)) == Date(1950, 6, 7)
  {
    var d := Date(1950, 6, 10);
    assert UtcMidnight(Date(50, 6, 10)) == d;
    assert PreviousDay(d) == Date(1950, 6, 9);
    assert PreviousDay(Date(1950, 6, 9)) == Date(1950, 6, 8);
    assert DaysBefore(Date(1950, 6, 8), 1) == DaysBefore(Date(1950, 6, 7), 0);
  }

  /** The month and the year both roll over: 2025-01-01 gives 2024-12-29. */
  lemma NewYearExample()
    ensures CompatibilityDay(Date(2025, 1, 1)) == Date(2024, 12, 29)
  {
    ThreeDaysBack(Date(2025, 1, 1), Date(2024, 12, 31), Date(2024, 12, 30), Date(2024, 12, 29));
  }

  /** Only the month rolls over: 2025-02-01 gives 2025-01-29. */
  lemma MonthStartExample()
    ensures CompatibilityDay(Date(2025, 2, 1)) == Date(2025, 1, 29)
  {
    ThreeDaysBack(Date(2025, 2, 1), Date(2025, 1, 31), Date(2025, 1, 30), Date(2025, 1, 29));
  }

  /** The leap day is counted: 2024-03-01 gives 2024-02-27. */
  lemma LeapYearExample()
    ensures CompatibilityDay(Date(2024, 3, 1)) == Date(2024, 2, 27)
  {
    assert IsLeapYear(2024);
    ThreeDaysBack(Date(2024, 3, 1), Date(2024, 2, 29), Date(2024, 2, 28), Date(2024, 2, 27));
  }

  /** 2100 is not a leap year: 2100-03-01 gives 2100-02-26. */
  lemma CenturyYearExample()
    ensures CompatibilityDay(Date(2100, 3, 1)) == Date(2100, 2, 26)
  {
    assert !IsLeapYear(2100);
    ThreeDaysBack(Date(2100, 3, 1), Date(2100, 2, 28), Date(2100, 2, 27), Date(2100, 2, 26));
  }
}
