/**
  The date of an observation row, built from its year and its `monthday`
  field the way `getDateTimeFromRow` does it.
*/
module ObsDates {
  import opened Wrappers
  import opened Text
  import opened Decimal
  import opened Calendar

  /** `"{:0>4}".format(monthday)`. */
  function PaddedMonthDay(monthday: string): (p: string)
    ensures |p| >= 4
  {
    PadLeft(monthday, 4, '0')
  }

  /** Characters 0 and 1 of the padded `monthday`. */
  function MonthText(monthday: string): string
  {
    PaddedMonthDay(monthday)[0..2]
  }

  /** Characters 2 and 3 of the padded `monthday`. */
  function DayText(monthday: string): string
  {
    PaddedMonthDay(monthday)[2..4]
  }

  /**
    `getDateTimeFromRow`: the year, month and day go through `int()` and
    then `datetime`; any `ValueError` on the way gives a missing date
    (`NaN`), so a date is produced exactly when all three parse and form a
    valid Gregorian date.
  */
  function DateFromRow(year: string, monthday: string): (r: Option<Date>)
    ensures r.Some? ==> ValidDate(r.value)
    ensures r.Some? ==> && ParseInt(year) == Some(r.value.year)
                        && ParseInt(MonthText(monthday)) == Some(r.value.month)
                        && ParseInt(DayText(monthday)) == Some(r.value.day)
    ensures (&& ParseInt(year).Some?
             && ParseInt(MonthText(monthday)).Some?
             && ParseInt(DayText(monthday)).Some?
             && ValidDate(Date(ParseInt(year).value, ParseInt(MonthText(monthday)).value,
                               ParseInt(DayText(monthday)).value)))
            ==> r.Some?
  {
    match (ParseInt(year), ParseInt(MonthText(monthday)), ParseInt(DayText(monthday)))
    case (Some(y), Some(m), Some(d)) =>
      if ValidDate(Date(y, m, d)) then Some(Date(y, m, d)) else None
    case _ => None
  }

  /**
    For a `monthday` read as the integer `MMDD` (so `229` for February 29),
    the month is the hundreds and the day the last two digits.
  */
  lemma MonthDayOfNumber(n: nat)
    requires n < 10000
    ensures ParseInt(MonthText(IntToString(n))) == Some(n / 100)
    ensures ParseInt(DayText(IntToString(n))) == Some(n % 100)
  {
    assert Pow10(4) == 10000 by {
      assert Pow10(2) == 100;
    }
    var p := PaddedMonthDay(IntToString(n));
    assert p == PadDecimal(n, 4);
    PadDecimalFixed(n, 4);
    SplitFourDigits(p);
  }

  /** The first two and the last two of four digits write the hundreds and the rest. */
  lemma SplitFourDigits(p: string)
    requires |p| == 4 && AllDigits(p)
    ensures ParseInt(p[0..2]) == Some(Value(p) / 100)
    ensures ParseInt(p[2..4]) == Some(Value(p) % 100)
  {
    var hi, lo := p[0..2], p[2..4];
    ValueSplit(p);
    DivMod100(Value(p), Value(hi), Value(lo));
    ParseDigits(hi);
    ParseDigits(lo);
  }

  lemma ValueSplit(p: string)
    requires |p| == 4 && AllDigits(p)
    ensures AllDigits(p[0..2]) && AllDigits(p[2..4])
    ensures Value(p) == Value(p[0..2]) * 100 + Value(p[2..4]) && Value(p[2..4]) < 100
  {
    var hi, lo := p[0..2], p[2..4];
    assert p == hi + lo;
    ValueConcat(hi, lo);
    assert Pow10(2) == 100;
    ValueBound(lo);
  }

  lemma DivMod100(n: nat, hi: nat, lo: nat)
    requires n == hi * 100 + lo && lo < 100
    ensures hi == n / 100 && lo == n % 100
  {
  }

  /**
    With an integer `monthday` field, a date is produced exactly when the
    year, the hundreds and the last two digits form a valid date, and it is
    that date.
  */
  lemma DateFromNumbers(y: int, n: nat)
    requires n < 10000
    ensures DateFromRow(IntToString(y), IntToString(n)).Some? <==> ValidDate(Date(y, n / 100, n % 100))
    ensures DateFromRow(IntToString(y), IntToString(n)).Some? ==>
              DateFromRow(IntToString(y), IntToString(n)).value == Date(y, n / 100, n % 100)
  {
    ParseIntToString(y);
    MonthDayOfNumber(n);
  }

  /** Every valid date is read back from its year and its `MMDD` number. */
  lemma DateRoundTrip(d: Date)
    requires ValidDate(d)
    ensures DateFromRow(IntToString(d.year), IntToString(d.month * 100 + d.day)) == Some(d)
  {
    var n := d.month * 100 + d.day;
    DateFromNumbers(d.year, n);
    DivMod100(n, d.month, d.day);
  }

  /** February 29 exists in 2016 but not in 2015, which yields a missing date. */
  lemma LeapDayExamples()
    ensures DateFromRow("2015", "0229") == None
    ensures DateFromRow("2016", "229") == Some(Date(2016, 2, 29))
  {
    NoLeapDay2015();
    LeapDay2016();
  }

  lemma NoLeapDay2015()
    ensures DateFromRow("2015", "0229") == None
  {
    YearLiterals();
    MonthDayLiterals();
    assert 229 / 100 == 2 && 229 % 100 == 29;
    assert !IsLeapYear(2015);
    DateFromNumbers(2015, 229);
  }

  lemma LeapDay2016()
    ensures DateFromRow("2016", "229") == Some(Date(2016, 2, 29))
  {
    YearLiterals();
    MonthDayLiterals();
    assert 229 / 100 == 2 && 229 % 100 == 29;
    assert ValidDate(Date(2016, 2, 29)) by {
      assert IsLeapYear(2016);
    }
    DateFromNumbers(2016, 229);
  }

  lemma YearLiterals()
    ensures IntToString(2015) == "2015" && IntToString(2016) == "2016"
  {
    assert NatToDecimal(2) == "2";
    assert NatToDecimal(20) == "20";
    assert NatToDecimal(201) == "201";
  }

  lemma MonthDayLiterals()
    ensures IntToString(229) == "229"
    ensures MonthText("0229") == MonthText("229") && DayText("0229") == DayText("229")
  {
    assert NatToDecimal(2) == "2";
    assert NatToDecimal(22) == "22";
    assert Repeat('0', 1) == "0";
    assert PaddedMonthDay("229") == "0229";
  }
}
