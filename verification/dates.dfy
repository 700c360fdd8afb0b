/** Calendar dates as `LocalDate` prints and parses them in the match store
    (`toString` and `LocalDate.parse` with the ISO local-date format). */
module Dates {
  import opened Results
  import opened Decimal
  import opened Text

  datatype Date = Date(year: int, month: int, day: int)

  /** Proleptic Gregorian leap years. */
  predicate IsLeapYear(y: int) {
    y % 4 == 0 && (y % 100 != 0 || y % 400 == 0)
  }

  function DaysInMonth(y: int, m: int): (n: int)
    requires 1 <= m <= 12
    ensures 28 <= n <= 31
  {
    if m == 2 then (if IsLeapYear(y) then 29 else 28)
    else if m == 4 || m == 6 || m == 9 || m == 11 then 30
    else 31
  }

  /** A date `LocalDate` can hold (the strict resolver rejects the rest). */
  predicate IsValid(d: Date) {
    1 <= d.month <= 12 && 1 <= d.day <= DaysInMonth(d.year, d.month)
  }

  /** Dates the four-digit ISO form covers: years 0000 to 9999. */
  predicate HasFourDigitYear(d: Date) {
    0 <= d.year <= 9999
  }

  /** The year as `LocalDate.toString` writes it: at least four digits,
      zero-padded, a minus sign for negative years and a plus sign above 9999. */
  function YearText(y: int): string {
    var absYear := if y < 0 then -y else y;
    if absYear < 1000 then (if y < 0 then "-" else "") + PadDigits(absYear, 4)
    else (if y > 9999 then "+" else "") + IntToString(y)
  }

  /** A month or day field: a leading zero below ten. */
  function TwoDigitText(n: int): string {
    (if n < 10 then "0" else "") + IntToString(n)
  }

  /** `LocalDate.toString`. */
  function PrintDate(d: Date): string {
    YearText(d.year) + "-" + TwoDigitText(d.month) + "-" + TwoDigitText(d.day)
  }

  /** `LocalDate.parse` of the unsigned form `yyyy-MM-dd`, rejecting any
      date that does not exist. */
  function ParseDate(s: string): (r: Option<Date>)
    ensures r.Some? ==> IsValid(r.value) && HasFourDigitYear(r.value)
    ensures r.Some? ==> |s| == 10 && s[4] == '-' && s[7] == '-'
  {
    if |s| == 10 && s[4] == '-' && s[7] == '-'
       && AllDigits(s[..4]) && AllDigits(s[5..7]) && AllDigits(s[8..])
    then
      var d := Date(DigitsValue(s[..4]), DigitsValue(s[5..7]), DigitsValue(s[8..]));
      assert DigitsValue(s[..4]) < 10000 by { DigitsBound(s[..4]); }
      if IsValid(d) then Some(d) else None
    else None
  }

  lemma {:induction false} DigitsBound(s: string)
    requires AllDigits(s)
    ensures DigitsValue(s) < Pow10(|s|)
    decreases |s|
  {
    if |s| > 0 {
      DigitsBound(s[..|s| - 1]);
    }
  }

  /** Inside the four-digit range the printed year is the padded year. */
  lemma YearTextPadded(y: int)
    requires 0 <= y <= 9999
    ensures YearText(y) == PadDigits(y, 4)
  {
    if y >= 1000 {
      NatToStringIsPadded(y, 4);
    }
  }

  lemma TwoDigitTextPadded(n: int)
    requires 1 <= n <= 31
    ensures TwoDigitText(n) == PadDigits(n, 2)
  {
    if n >= 10 {
      NatToStringIsPadded(n, 2);
    } else {
      NatToStringIsPadded(n, 1);
      assert PadDigits(n, 2) == PadDigits(0, 1) + PadDigits(n, 1);
    }
  }

  /** The printed form of a four-digit-year date: `yyyy-MM-dd`. */
  lemma PrintDateShape(d: Date)
    requires IsValid(d) && HasFourDigitYear(d)
    ensures PrintDate(d) == PadDigits(d.year, 4) + "-" + PadDigits(d.month, 2) + "-" + PadDigits(d.day, 2)
  {
    YearTextPadded(d.year);
    TwoDigitTextPadded(d.month);
    TwoDigitTextPadded(d.day);
  }

  /** On the `yyyy-MM-dd` form, parsing succeeds exactly for dates that exist. */
  lemma ParsePadded(y: nat, m: nat, d: nat)
    requires y < 10000 && m < 100 && d < 100
    ensures ParseDate(PadDigits(y, 4) + "-" + PadDigits(m, 2) + "-" + PadDigits(d, 2))
            == if IsValid(Date(y, m, d)) then Some(Date(y, m, d)) else None
  {
    ParseDateFields(PadDigits(y, 4), PadDigits(m, 2), PadDigits(d, 2));
    assert Pow10(2) == 100;
    assert Pow10(4) == 10000;
    PadDigitsValue(y, 4);
    PadDigitsValue(m, 2);
    PadDigitsValue(d, 2);
  }

  /** A digit string of the `yyyy-MM-dd` shape parses field by field. */
  lemma ParseDateFields(a: string, b: string, c: string)
    requires |a| == 4 && |b| == 2 && |c| == 2
    requires AllDigits(a) && AllDigits(b) && AllDigits(c)
    ensures ParseDate(a + "-" + b + "-" + c)
            == if IsValid(Date(DigitsValue(a), DigitsValue(b), DigitsValue(c)))
               then Some(Date(DigitsValue(a), DigitsValue(b), DigitsValue(c))) else None
  {
    var s := a + "-" + b + "-" + c;
    assert s[..4] == a;
    assert s[5..7] == b;
    assert s[8..] == c;
  }

  /** Parsing a printed date gives the date back. */
  lemma DateRoundTrip(d: Date)
    requires IsValid(d) && HasFourDigitYear(d)
    ensures ParseDate(PrintDate(d)) == Some(d)
  {
    PrintDateShape(d);
    ParsePadded(d.year, d.month, d.day);
  }

  /** Printed dates carry no comma and nothing `trim` would strip. */
  lemma DateTextIsPlain(d: Date)
    requires IsValid(d) && HasFourDigitYear(d)
    ensures ',' !in PrintDate(d)
    ensures Trim(PrintDate(d)) == PrintDate(d)
    ensures |PrintDate(d)| > 0
  {
    PrintDateShape(d);
    DateTextAvoids(d, ',');
    var a := PadDigits(d.year, 4);
    var c := PadDigits(d.day, 2);
    var s := PrintDate(d);
    assert s[0] == a[0];
    assert s[|s| - 1] == c[1];
    TrimOfTrimmed(s);
  }

  /** Any printed date, whatever its year, holds only digits and signs, so
      any other character is absent. */
  lemma DateTextAvoids(d: Date, c: char)
    requires !IsDigit(c) && c != '-' && c != '+'
    ensures c !in PrintDate(d)
  {
    var y := d.year;
    var absYear := if y < 0 then -y else y;
    if absYear < 1000 {
      DigitsAvoid(PadDigits(absYear, 4), c);
    } else {
      IntTextAvoids(y, c);
    }
    IntTextAvoids(d.month, c);
    IntTextAvoids(d.day, c);
  }

  lemma DigitsAvoid(s: string, c: char)
    requires AllDigits(s) && !IsDigit(c)
    ensures c !in s
  {
    assert forall i :: 0 <= i < |s| ==> s[i] != c;
  }

  /** The store's sample date round-trips. */
  lemma SampleDateRoundTrip()
    ensures ParseDate(PrintDate(Date(2024, 3, 2))) == Some(Date(2024, 3, 2))
  {
    DateRoundTrip(Date(2024, 3, 2));
  }

  /** The 29th of February of a common year is rejected... */
  lemma CommonYearLeapDayRejected()
    ensures ParseDate(PadDigits(2023, 4) + "-" + PadDigits(2, 2) + "-" + PadDigits(29, 2)) == None
  {
    ParsePadded(2023, 2, 29);
  }

  /** ... and that of a leap year accepted. */
  lemma LeapDayAccepted()
    ensures ParseDate(PadDigits(2024, 4) + "-" + PadDigits(2, 2) + "-" + PadDigits(29, 2)) == Some(Date(2024, 2, 29))
  {
    ParsePadded(2024, 2, 29);
  }
}
