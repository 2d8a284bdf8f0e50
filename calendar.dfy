/** Proleptic Gregorian calendar dates, their day ordinal, and the fixed-width
    day-month-year text form ("%d-%m-%Y") the scraper reads and writes. */
module Calendar {
  import opened Wrappers

  datatype Date = Date(day: int, month: int, year: int)

  predicate IsLeapYear(year: int) {
    year % 4 == 0 && (year % 100 != 0 || year % 400 == 0)
  }

  function DaysInMonth(year: int, month: int): (n: int)
    requires 1 <= month <= 12
    ensures 28 <= n <= 31
    ensures month == 2 ==> (n == 29 <==> IsLeapYear(year))
  {
    if month == 2 then (if IsLeapYear(year) then 29 else 28)
    else if month == 4 || month == 6 || month == 9 || month == 11 then 30
    else 31
  }

  /** A calendar date between 1 January 0001 and 31 December 9999. */
  predicate Valid(d: Date) {
    1 <= d.year <= 9999 && 1 <= d.month <= 12 && 1 <= d.day <= DaysInMonth(d.year, d.month)
  }

  function YearLength(year: int): int {
    if IsLeapYear(year) then 366 else 365
  }

  /** Days in the years 1 .. year-1. */
  function DaysBeforeYear(year: int): (n: int)
    requires year >= 1
    ensures n >= 0
  {
    var y := year - 1;
    365 * y + y / 4 - y / 100 + y / 400
  }

  /** Days in the months 1 .. month-1 of the given year. */
  function DaysBeforeMonth(year: int, month: int): (n: int)
    requires 1 <= month <= 12
    ensures 0 <= n <= 335
  {
    var table := [0, 31, 59, 90, 120, 151, 181, 212, 243, 273, 304, 334];
    table[month - 1] + (if month > 2 && IsLeapYear(year) then 1 else 0)
  }

  /** Day number of a date, 1 January 0001 being day 1; the difference of two
      ordinals is the number of days between the dates. */
  function Ordinal(d: Date): (n: int)
    requires Valid(d)
    ensures n >= 1
  {
    DaysBeforeYear(d.year) + DaysBeforeMonth(d.year, d.month) + d.day
  }

  /** Strict chronological order. */
  predicate Before(a: Date, b: Date) {
    a.year < b.year
    || (a.year == b.year && (a.month < b.month || (a.month == b.month && a.day < b.day)))
  }

  /** Days added to a year's length by the three divisibility rules, read off the year number. */
  function LeapDay(year: int): int {
    (if year % 4 == 0 then 1 else 0) - (if year % 100 == 0 then 1 else 0)
      + (if year % 400 == 0 then 1 else 0)
  }

  lemma YearStep(year: int)
    requires year >= 1
    ensures DaysBeforeYear(year + 1) == DaysBeforeYear(year) + YearLength(year)
  {
    DaysBeforeYearStep(year);
    LeapDayLength(year);
  }

  lemma DaysBeforeYearStep(year: int)
    requires year >= 1
    ensures DaysBeforeYear(year + 1) == DaysBeforeYear(year) + 365 + LeapDay(year)
  {
    QuotientStep4(year);
    QuotientStep100(year);
    QuotientStep400(year);
  }

  lemma LeapDayLength(year: int)
    ensures LeapDay(year) == YearLength(year) - 365
  {
    CenturyOfQuadricentennial(year);
    QuadrennialOfCentury(year);
  }

  /** A multiple of 400 is a multiple of 100. */
  lemma CenturyOfQuadricentennial(year: int)
    ensures year % 400 == 0 ==> year % 100 == 0
  {
    if year % 400 == 0 {
      var k := year / 400;
      assert year == 100 * (4 * k) + 0;
    }
  }

  /** A multiple of 100 is a multiple of 4. */
  lemma QuadrennialOfCentury(year: int)
    ensures year % 100 == 0 ==> year % 4 == 0
  {
    if year % 100 == 0 {
      var k := year / 100;
      assert year == 4 * (25 * k) + 0;
    }
  }

  /** Moving from year - 1 to year raises each quotient exactly when the divisor divides year. */
  lemma QuotientStep4(year: int)
    requires year >= 1
    ensures year / 4 == (year - 1) / 4 + (if year % 4 == 0 then 1 else 0)
  {
  }

  lemma QuotientStep100(year: int)
    requires year >= 1
    ensures year / 100 == (year - 1) / 100 + (if year % 100 == 0 then 1 else 0)
  {
  }

  lemma QuotientStep400(year: int)
    requires year >= 1
    ensures year / 400 == (year - 1) / 400 + (if year % 400 == 0 then 1 else 0)
  {
  }

  lemma {:induction false} DaysBeforeYearMonotone(a: int, b: int)
    requires 1 <= a <= b
    ensures DaysBeforeYear(a) + (if a < b then YearLength(a) else 0) <= DaysBeforeYear(b)
    decreases b - a
  {
    if a < b {
      YearStep(a);
      DaysBeforeYearMonotone(a + 1, b);
    }
  }

  /** The last day of a month ends before the first day of any later month. */
  lemma MonthEnd(year: int, m: int, n: int)
    requires 1 <= m < n <= 12
    ensures DaysBeforeMonth(year, m) + DaysInMonth(year, m) <= DaysBeforeMonth(year, n)
  {
  }

  lemma DayOfYearBound(d: Date)
    requires Valid(d)
    ensures DaysBeforeMonth(d.year, d.month) + d.day <= YearLength(d.year)
  {
  }

  /** The ordinal is strictly increasing in chronological order. */
  lemma OrdinalMonotone(a: Date, b: Date)
    requires Valid(a) && Valid(b) && Before(a, b)
    ensures Ordinal(a) < Ordinal(b)
  {
    if a.year < b.year {
      DayOfYearBound(a);
      DaysBeforeYearMonotone(a.year, b.year);
    } else if a.month < b.month {
      MonthEnd(a.year, a.month, b.month);
    }
  }

  /** Ordinals compare exactly as the dates they number. */
  lemma OrdinalOrder(a: Date, b: Date)
    requires Valid(a) && Valid(b)
    ensures Ordinal(a) < Ordinal(b) <==> Before(a, b)
    ensures Ordinal(a) == Ordinal(b) <==> a == b
  {
    if Before(a, b) {
      OrdinalMonotone(a, b);
    } else if Before(b, a) {
      OrdinalMonotone(b, a);
    }
  }

  /** The following calendar day. */
  function Next(d: Date): Date
    requires Valid(d)
  {
    if d.day < DaysInMonth(d.year, d.month) then Date(d.day + 1, d.month, d.year)
    else if d.month < 12 then Date(1, d.month + 1, d.year)
    else Date(1, 1, d.year + 1)
  }

  /** Consecutive days have consecutive ordinals, so the difference of two
      ordinals counts the days between the dates. */
  lemma OrdinalNext(d: Date)
    requires Valid(d) && d.year < 9999
    ensures Valid(Next(d)) && Ordinal(Next(d)) == Ordinal(d) + 1
  {
    if d.day == DaysInMonth(d.year, d.month) && d.month == 12 {
      YearStep(d.year);
    }
  }

  // ---- the "%d-%m-%Y" text form ----

  predicate IsDigit(c: char) {
    '0' <= c <= '9'
  }

  function DigitValue(c: char): (v: nat)
    requires IsDigit(c)
    ensures v < 10
  {
    c as int - '0' as int
  }

  function DigitChar(v: nat): (c: char)
    requires v < 10
    ensures IsDigit(c) && DigitValue(c) == v
  {
    ('0' as int + v) as char
  }

  /** Two decimal digits, zero padded. */
  function Pad2(n: nat): (s: string)
    requires n < 100
    ensures |s| == 2
  {
    [DigitChar(n / 10), DigitChar(n % 10)]
  }

  /** Four decimal digits, zero padded. */
  function Pad4(n: nat): (s: string)
    requires n < 10000
    ensures |s| == 4
  {
    Pad2(n / 100) + Pad2(n % 100)
  }

  function Value2(s: string, i: nat): (v: nat)
    requires i + 2 <= |s| && IsDigit(s[i]) && IsDigit(s[i + 1])
    ensures v < 100
  {
    10 * DigitValue(s[i]) + DigitValue(s[i + 1])
  }

  function Value4(s: string, i: nat): (v: nat)
    requires i + 4 <= |s| && forall j :: i <= j < i + 4 ==> IsDigit(s[j])
    ensures v < 10000
  {
    100 * Value2(s, i) + Value2(s, i + 2)
  }

  /** Ten characters "DD-MM-YYYY" with ASCII digits in the fields. */
  predicate DateShaped(s: string) {
    |s| == 10 && s[2] == '-' && s[5] == '-'
    && forall i :: 0 <= i < 10 && i != 2 && i != 5 ==> IsDigit(s[i])
  }

  /** The date written in a "DD-MM-YYYY"-shaped text (not necessarily a valid date). */
  function DateFields(s: string): Date
    requires DateShaped(s)
  {
    Date(Value2(s, 0), Value2(s, 3), Value4(s, 6))
  }

  /** time.strftime("%d-%m-%Y") for a date. */
  function FormatDate(d: Date): (s: string)
    requires Valid(d)
    ensures DateShaped(s)
  {
    Pad2(d.day) + "-" + Pad2(d.month) + "-" + Pad4(d.year)
  }

  lemma Pad2Read(s: string, i: nat)
    requires i + 2 <= |s| && IsDigit(s[i]) && IsDigit(s[i + 1])
    ensures Pad2(Value2(s, i)) == s[i..i + 2]
  {
    var v := Value2(s, i);
    assert v / 10 == DigitValue(s[i]) && v % 10 == DigitValue(s[i + 1]);
  }

  lemma Value2Pad(n: nat)
    requires n < 100
    ensures Value2(Pad2(n), 0) == n
  {
  }

  lemma Value4Pad(n: nat)
    requires n < 10000
    ensures Value4(Pad4(n), 0) == n
  {
    var s := Pad4(n);
    assert s[0..2] == Pad2(n / 100) && s[2..4] == Pad2(n % 100);
    Value2Pad(n / 100);
    Value2Pad(n % 100);
    assert Value2(s, 0) == Value2(Pad2(n / 100), 0);
    assert Value2(s, 2) == Value2(Pad2(n % 100), 0);
  }

  /** pd.to_datetime(s, format="%d-%m-%Y") on a zero-padded "DD-MM-YYYY" text:
      the date it names, or None, read as the parser's ValueError. pandas
      returns NaT instead of raising for the empty text and the NaT spellings;
      those are read as None here too. */
  function ReadDate(s: string): (r: Option<Date>)
    ensures r.Some? <==> DateShaped(s) && Valid(DateFields(s))
    ensures r.Some? ==> Valid(r.value) && FormatDate(r.value) == s
  {
    if DateShaped(s) && Valid(DateFields(s)) then
      var d := DateFields(s);
      Pad2Read(s, 0);
      Pad2Read(s, 3);
      Pad2Read(s, 6);
      Pad2Read(s, 8);
      assert Pad4(d.year) == s[6..10] by {
        var v := Value4(s, 6);
        assert v / 100 == Value2(s, 6) && v % 100 == Value2(s, 8);
      }
      assert FormatDate(d) == s[0..2] + "-" + s[3..5] + "-" + s[6..10];
      assert s == s[0..2] + "-" + s[3..5] + "-" + s[6..10];
      Some(d)
    else
      None
  }

  /** Reading back a formatted date gives the date. */
  lemma ReadFormatted(d: Date)
    requires Valid(d)
    ensures ReadDate(FormatDate(d)) == Some(d)
  {
    var s := FormatDate(d);
    Value2Pad(d.day);
    Value2Pad(d.month);
    Value4Pad(d.year);
    assert s[0..2] == Pad2(d.day) && s[3..5] == Pad2(d.month) && s[6..10] == Pad4(d.year);
    assert Value2(s, 0) == Value2(Pad2(d.day), 0);
    assert Value2(s, 3) == Value2(Pad2(d.month), 0);
    assert Value2(s, 6) == Value2(Pad4(d.year), 0);
    assert Value2(s, 8) == Value2(Pad4(d.year), 2);
    assert DateFields(s) == d;
  }
}
