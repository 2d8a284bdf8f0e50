/** calculate_T: time to expiry in years, (expiration - today).days / 365. */
module TimeToExpiry {
  import opened Wrappers
  import opened Calendar
  import opened InstrumentCode

  /** The whole days from today to the expiration, over 365; not clamped. Its
      sign gives the order of the two dates. */
  function YearFraction(expiration: Date, today: Date): (t: real)
    requires Valid(expiration) && Valid(today)
    ensures t == 0.0 <==> expiration == today
    ensures t > 0.0 <==> Before(today, expiration)
    ensures t < 0.0 <==> Before(expiration, today)
  {
    OrdinalOrder(today, expiration);
    (Ordinal(expiration) - Ordinal(today)) as real / 365.0
  }

  /** calculate_T on the two "%d-%m-%Y" texts; None is the ValueError the date
      parser raises on either text. */
  function CalculateT(expirationDate: string, todayText: string): (r: Option<real>)
    ensures r.Some? <==> ReadDate(expirationDate).Some? && ReadDate(todayText).Some?
    ensures r.Some? ==> r.value == YearFraction(ReadDate(expirationDate).value, ReadDate(todayText).value)
  {
    match (ReadDate(todayText), ReadDate(expirationDate))
    case (Some(today), Some(expiration)) => Some(YearFraction(expiration, today))
    case _ => None
  }

  /** Swapping the two dates negates T. */
  lemma YearFractionAntisymmetric(e: Date, t: Date)
    requires Valid(e) && Valid(t)
    ensures YearFraction(e, t) == -YearFraction(t, e)
  {
  }

  /** With today fixed, T strictly increases as the expiration moves later. */
  lemma YearFractionIncreasing(e1: Date, e2: Date, today: Date)
    requires Valid(e1) && Valid(e2) && Valid(today)
    requires Before(e1, e2)
    ensures YearFraction(e1, today) < YearFraction(e2, today)
  {
    OrdinalMonotone(e1, e2);
  }

  /** T over an intermediate date is the sum of the two legs. */
  lemma YearFractionChain(a: Date, b: Date, c: Date)
    requires Valid(a) && Valid(b) && Valid(c)
    ensures YearFraction(c, a) == YearFraction(c, b) + YearFraction(b, a)
  {
  }

  /** Both texts equal and readable: T is exactly zero. */
  lemma CalculateTSameDay(s: string)
    requires ReadDate(s).Some?
    ensures CalculateT(s, s) == Some(0.0)
  {
  }

  /** Today written by strftime is always readable, so T of a formatted today
      against itself is zero. */
  lemma CalculateTFormattedToday(d: Date)
    requires Valid(d)
    ensures CalculateT(FormatDate(d), FormatDate(d)) == Some(0.0)
  {
    ReadFormatted(d);
  }

  /** 01-01-2025 to 31-12-2025 is 364 days. */
  lemma CalculateTExample()
    ensures CalculateT("31-12-2025", "01-01-2025") == Some(364.0 / 365.0)
  {
    ReadFormatted(Date(31, 12, 2025));
    ReadFormatted(Date(1, 1, 2025));
    assert FormatDate(Date(31, 12, 2025)) == "31-12-2025";
    assert FormatDate(Date(1, 1, 2025)) == "01-01-2025";
  }

  /** The expiry parse_tipo produces is readable by calculate_T exactly when the
      code's last eight characters are digits naming a valid YYYYMMDD date, and
      then it is that date. */
  lemma ExpirationReadable(code: string)
    requires ParseTipo(code).Ok?
    ensures var d := ParseTipo(code).value.expirationDate;
            ReadDate(d).Some? <==>
              (forall i :: 3 <= i < 11 ==> IsDigit(code[i]))
              && Valid(Date(Value2(code, 9), Value2(code, 7), Value4(code, 3)))
    ensures var d := ParseTipo(code).value.expirationDate;
            ReadDate(d).Some? ==> ReadDate(d).value == Date(Value2(code, 9), Value2(code, 7), Value4(code, 3))
  {
    var d := ParseTipo(code).value.expirationDate;
    assert forall i :: 0 <= i < 2 ==> d[i] == code[9 + i];
    assert forall i :: 3 <= i < 5 ==> d[i] == code[4 + i];
    assert forall i :: 6 <= i < 10 ==> d[i] == code[i - 3];
    if forall i :: 3 <= i < 11 ==> IsDigit(code[i]) {
      assert DateShaped(d);
      assert DateFields(d) == Date(Value2(code, 9), Value2(code, 7), Value4(code, 3));
    } else {
      var i :| 3 <= i < 11 && !IsDigit(code[i]);
      if i < 7 { assert d[i + 3] == code[i]; }
      else if i < 9 { assert d[i - 4] == code[i]; }
      else { assert d[i - 9] == code[i]; }
      assert !DateShaped(d);
    }
  }
}
