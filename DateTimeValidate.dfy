// Validation of the text forms of Date ("yyyy-mm-dd"), Time ("hh:mm:ss")
// and DateTime ("yyyy-mm-dd hh:mm:ss") values.

module DateTimeValidate {
  import opened Wrappers

  predicate IsDigit(c: char) { '0' <= c <= '9' }

  function DigitValue(c: char): nat
    requires IsDigit(c)
  {
    c as int - '0' as int
  }

  predicate AllDigits(s: string) { forall i :: 0 <= i < |s| ==> IsDigit(s[i]) }

  /** The decimal number spelled by the digits of s, most significant first. */
  function DecimalValue(s: string): nat
    requires AllDigits(s)
  {
    if |s| == 0 then 0 else 10 * DecimalValue(s[..|s| - 1]) + DigitValue(s[|s| - 1])
  }

  /** The digit fold of IsNDigitInt: v holds the value of s[..k]. */
  function DigitFold(s: string, n: nat, k: nat, v: nat): Option<nat>
    requires k <= n <= |s|
    decreases n - k
  {
    if k == n then Some(v)
    else if !IsDigit(s[k]) then None
    else DigitFold(s, n, k + 1, 10 * v + DigitValue(s[k]))
  }

  lemma {:induction false} DigitFoldCorrect(s: string, n: nat, k: nat)
    requires k <= n <= |s| && AllDigits(s[..k])
    ensures DigitFold(s, n, k, DecimalValue(s[..k])).Some? <==> AllDigits(s[..n])
    ensures AllDigits(s[..n]) ==> DigitFold(s, n, k, DecimalValue(s[..k])) == Some(DecimalValue(s[..n]))
    decreases n - k
  {
    if k < n {
      if IsDigit(s[k]) {
        assert s[..k + 1][..k] == s[..k];
        assert AllDigits(s[..k + 1]);
        DigitFoldCorrect(s, n, k + 1);
      } else {
        assert s[..n][k] == s[k];
      }
    }
  }

  /** The value of the n digits at the start of s, or None when one of them is not a digit. */
  function IsNDigitInt(s: string, n: nat): (r: Option<nat>)
    requires 1 <= n <= 9 && n <= |s|
    ensures r.Some? <==> AllDigits(s[..n])
    ensures r.Some? ==> r.value == DecimalValue(s[..n])
  {
    assert s[..0] == [];
    DigitFoldCorrect(s, n, 0);
    DigitFold(s, n, 0, 0)
  }

  predicate IsLeapYear(y: int) { (y % 4 == 0 && y % 100 != 0) || y % 400 == 0 }

  /** The number of days of month m (1..12) of year y in the Gregorian calendar. */
  function DaysInMonth(y: int, m: int): nat
    requires 1 <= m <= 12
  {
    if m == 2 then (if IsLeapYear(y) then 29 else 28)
    else if m == 4 || m == 6 || m == 9 || m == 11 then 30
    else 31
  }

  function ValidateDate(s: string): bool
  {
    if |s| == 10 && IsNDigitInt(s, 4).Some? && s[4] == '-' && IsNDigitInt(s[5..], 2).Some?
       && s[7] == '-' && IsNDigitInt(s[8..], 2).Some?
    then
      var year, month, day := IsNDigitInt(s, 4).value, IsNDigitInt(s[5..], 2).value, IsNDigitInt(s[8..], 2).value;
      if year < 1400 then false
      else if month in {1, 3, 5, 7, 8, 10, 12} then day <= 31 && day != 0
      else if month == 2 then
        if day > 29 then false
        else if day == 29 && (year % 4 != 0 || (year % 100 == 0 && year % 400 != 0)) then false
        else day != 0
      else if month in {4, 6, 9, 11} then day <= 30 && day != 0
      else false
    else false
  }

  /** The shape "dddd-dd-dd" with the year, month and day it spells. */
  predicate DateShape(s: string)
  {
    |s| == 10 && AllDigits(s[..4]) && s[4] == '-' && AllDigits(s[5..7]) && s[7] == '-' && AllDigits(s[8..])
  }

  /** A date is valid iff it has the shape, a year from 1400, a month 1..12 and a day in that month. */
  lemma ValidateDateMeaning(s: string)
    ensures ValidateDate(s) <==>
      DateShape(s) && DecimalValue(s[..4]) >= 1400 && 1 <= DecimalValue(s[5..7]) <= 12
      && 1 <= DecimalValue(s[8..]) <= DaysInMonth(DecimalValue(s[..4]), DecimalValue(s[5..7]))
  {
    if |s| == 10 {
      assert s[5..][..2] == s[5..7];
      assert s[8..][..2] == s[8..];
    }
  }

  /** February 29 of a year from 1400 is valid iff the year is a Gregorian leap year. */
  lemma {:induction false} LeapDay(y: string)
    requires |y| == 4 && AllDigits(y) && DecimalValue(y) >= 1400
    ensures ValidateDate(y + "-02-29") <==> IsLeapYear(DecimalValue(y))
  {
    var s := y + "-02-29";
    assert s[..4] == y;
    assert s[5..7] == "02" && DecimalValue("02") == 2 by {
      assert "02"[..1] == "0";
      assert "0"[..0] == "";
    }
    assert s[8..] == "29" && DecimalValue("29") == 29 by {
      assert "29"[..1] == "2";
      assert "2"[..0] == "";
    }
    ValidateDateMeaning(s);
  }

  function ValidateTime(s: string): bool
  {
    |s| == 8 && IsNDigitInt(s, 2).Some? && IsNDigitInt(s, 2).value <= 23 && s[2] == ':'
    && IsNDigitInt(s[3..], 2).Some? && IsNDigitInt(s[3..], 2).value <= 59 && s[5] == ':'
    && IsNDigitInt(s[6..], 2).Some? && IsNDigitInt(s[6..], 2).value <= 59
  }

  /** A time is valid iff it is "dd:dd:dd" with hours <= 23, minutes <= 59 and seconds <= 59. */
  lemma ValidateTimeMeaning(s: string)
    ensures ValidateTime(s) <==>
      |s| == 8 && AllDigits(s[..2]) && s[2] == ':' && AllDigits(s[3..5]) && s[5] == ':' && AllDigits(s[6..])
      && DecimalValue(s[..2]) <= 23 && DecimalValue(s[3..5]) <= 59 && DecimalValue(s[6..]) <= 59
  {
    if |s| == 8 {
      assert s[3..][..2] == s[3..5];
      assert s[6..][..2] == s[6..];
    }
  }

  function ValidateDateTime(s: string): bool
  {
    if |s| == 10 then ValidateDate(s)
    else if |s| == 19 then ValidateDate(s[..10]) && s[10] == ' ' && ValidateTime(s[11..])
    else false
  }

  /** A date-time is a valid date, or a valid date, a space and a valid time; no other length passes. */
  lemma ValidateDateTimeMeaning(s: string)
    ensures ValidateDateTime(s) ==> |s| == 10 || |s| == 19
    ensures |s| == 10 ==> (ValidateDateTime(s) <==> ValidateDate(s))
    ensures |s| == 19 ==> (ValidateDateTime(s) <==> ValidateDate(s[..10]) && s[10] == ' ' && ValidateTime(s[11..]))
  {
  }
}
