/** Gregorian calendar facts and the decimal text forms the schedule code builds
    and parses: `str(int)` / `f"{n}"`, the zero-padded `f"{n:02d}"`, and `int(s)`
    on a string of ASCII digits. */
module Dates {
  import opened Wrappers

  /** Gregorian leap year, as `calendar.isleap` decides it. */
  predicate IsLeapYear(year: int) {
    year % 4 == 0 && (year % 100 != 0 || year % 400 == 0)
  }

  /** The number of days of `month` in `year`: `calendar.monthrange(year, month)[1]`. */
  function DaysInMonth(year: int, month: int): (days: int)
    requires 1 <= month <= 12
    ensures 28 <= days <= 31
    ensures month == 2 ==> (days == 29 <==> IsLeapYear(year))
    ensures month != 2 ==> 30 <= days
  {
    if month == 2 then (if IsLeapYear(year) then 29 else 28)
    else if month == 4 || month == 6 || month == 9 || month == 11 then 30
    else 31
  }

  predicate IsDigit(c: char) {
    '0' <= c <= '9'
  }

  predicate AllDigits(s: string) {
    forall i :: 0 <= i < |s| ==> IsDigit(s[i])
  }

  function DigitChar(d: nat): (c: char)
    requires d < 10
    ensures IsDigit(c)
  {
    ('0' as int + d) as char
  }

  function DigitValue(c: char): (d: nat)
    requires IsDigit(c)
    ensures d < 10 && DigitChar(d) == c
  {
    c as int - '0' as int
  }

  /** `str(n)` for a natural number: its shortest decimal spelling. */
  function DecimalString(n: nat): (s: string)
    ensures 1 <= |s| && AllDigits(s)
    ensures s[0] == '0' <==> n == 0
    ensures |s| == 1 <==> n < 10
  {
    if n < 10 then [DigitChar(n)] else DecimalString(n / 10) + [DigitChar(n % 10)]
  }

  /** `f"{n}"` for any integer: a minus sign before the digits of a negative number. */
  function IntString(n: int): (s: string)
    ensures 1 <= |s|
    ensures 0 <= n ==> s == DecimalString(n)
    ensures n < 0 ==> s[0] == '-' && s[1..] == DecimalString(-n)
  {
    if n < 0 then "-" + DecimalString(-n) else DecimalString(n)
  }

  /** `f"{n:02d}"` for a natural number: padded with zeros to at least two digits. */
  function Pad2(n: nat): (s: string)
    ensures 2 <= |s| && AllDigits(s)
    ensures n < 100 ==> |s| == 2
  {
    if n < 10 then "0" + DecimalString(n) else DecimalString(n)
  }

  /** `int(s)` on text: defined exactly for a non-empty string of ASCII digits
      (leading zeros allowed); `None` is the `ValueError` the source would raise. */
  function ParseDecimal(s: string): (r: Option<nat>)
    ensures r.Some? <==> s != [] && AllDigits(s)
  {
    if s == [] || !IsDigit(s[|s| - 1]) then None
    else if |s| == 1 then Some(DigitValue(s[0]))
    else match ParseDecimal(s[..|s| - 1])
      case None => None
      case Some(v) => Some(10 * v + DigitValue(s[|s| - 1]))
  }

  /** Reading back the decimal spelling of `n` gives `n`. */
  lemma {:induction false} ParseDecimalString(n: nat)
    ensures ParseDecimal(DecimalString(n)) == Some(n)
  {
    if n >= 10 {
      var p := DecimalString(n / 10);
      ParseDecimalString(n / 10);
      assert (p + [DigitChar(n % 10)])[..|p|] == p;
    }
  }

  /** Reading back the zero-padded spelling of `n` gives `n`. */
  lemma {:induction false} ParsePad2(n: nat)
    ensures ParseDecimal(Pad2(n)) == Some(n)
  {
    ParseDecimalString(n);
    if n < 10 {
      assert Pad2(n) == ['0', DigitChar(n)];
      assert Pad2(n)[..1] == "0";
    }
  }

  /** A four-digit number is spelled with exactly four digits. */
  lemma FourDigits(n: nat)
    requires 1000 <= n <= 9999
    ensures |DecimalString(n)| == 4
  {
    var a, b, c := n / 10, n / 100, n / 1000;
    assert a / 10 == b && b / 10 == c;
    assert |DecimalString(c)| == 1;
    assert |DecimalString(b)| == 2;
    assert |DecimalString(a)| == 3;
  }

  /** The eight-character `YYYYMMDD` text of a date, as `f"{y}{m:02d}{d:02d}"` builds it. */
  function YmdString(year: int, month: nat, day: nat): string {
    IntString(year) + Pad2(month) + Pad2(day)
  }

  /** For a four-digit year, `YmdString` is eight digits whose year, month and day
      fields read back as the numbers it was built from. */
  lemma YmdFields(year: int, month: nat, day: nat)
    requires 1000 <= year <= 9999 && month < 100 && day < 100
    ensures var s := YmdString(year, month, day);
      |s| == 8 && AllDigits(s) &&
      ParseDecimal(s[..4]) == Some(year) &&
      ParseDecimal(s[4..6]) == Some(month) &&
      ParseDecimal(s[6..]) == Some(day)
  {
    var s := YmdString(year, month, day);
    FourDigits(year);
    ParseDecimalString(year);
    ParsePad2(month);
    ParsePad2(day);
    assert s[..4] == DecimalString(year);
    assert s[4..6] == Pad2(month);
    assert s[6..] == Pad2(day);
  }
}
