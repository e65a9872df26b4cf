/**
 * The parts of System.DateTime the backup store reads: calendar fields and the custom
 * format "yyyyMMddHHmm" (minute resolution, every field zero-padded).
 */
module Timestamps {

  datatype DateTime = DateTime(Year: int, Month: int, Day: int, Hour: int, Minute: int, Second: int) {

    /** The range System.DateTime admits (proleptic Gregorian calendar, years 1 to 9999). */
    predicate Valid() {
      1 <= Year <= 9999 && 1 <= Month <= 12 && 1 <= Day <= DaysInMonth(Year, Month) &&
      0 <= Hour < 24 && 0 <= Minute < 60 && 0 <= Second < 60
    }
  }

  predicate IsLeapYear(year: int) {
    year % 4 == 0 && (year % 100 != 0 || year % 400 == 0)
  }

  function DaysInMonth(year: int, month: int): int {
    if month == 2 then (if IsLeapYear(year) then 29 else 28)
    else if month == 4 || month == 6 || month == 9 || month == 11 then 30
    else 31
  }

  /** A value of System.DateTime: always a valid date and time. */
  type Timestamp = t: DateTime | t.Valid() witness DateTime(1, 1, 1, 0, 0, 0)

  /** Two timestamps that agree down to the minute (seconds are ignored). */
  predicate SameMinute(a: Timestamp, b: Timestamp) {
    a.Year == b.Year && a.Month == b.Month && a.Day == b.Day && a.Hour == b.Hour && a.Minute == b.Minute
  }

  function Pow10(n: nat): nat {
    if n == 0 then 1 else 10 * Pow10(n - 1)
  }

  predicate IsDigit(c: char) {
    '0' <= c <= '9'
  }

  predicate AllDigits(s: string) {
    forall i :: 0 <= i < |s| ==> IsDigit(s[i])
  }

  /** The last `width` decimal digits of n, most significant first, padded with zeros. */
  function Digits(n: nat, width: nat): (s: string)
    ensures |s| == width && AllDigits(s)
  {
    if width == 0 then ""
    else Digits(n / 10, width - 1) + [('0' as int + n % 10) as char]
  }

  /** The number a string of decimal digits denotes. */
  function DigitsValue(s: string): nat
    requires AllDigits(s)
  {
    if s == "" then 0
    else 10 * DigitsValue(s[..|s| - 1]) + (s[|s| - 1] as int - '0' as int)
  }

  /** Zero-padded rendering loses nothing when the number fits the width. */
  lemma {:induction false} DigitsRoundTrip(n: nat, width: nat)
    requires n < Pow10(width)
    ensures DigitsValue(Digits(n, width)) == n
  {
    if width > 0 {
      var s := Digits(n, width);
      assert s[..|s| - 1] == Digits(n / 10, width - 1);
      DigitsRoundTrip(n / 10, width - 1);
    }
  }

  /** The format string "yyyyMMddHHmm". */
  function FormatMinute(t: Timestamp): (s: string)
    ensures |s| == 12 && AllDigits(s)
  {
    Digits(t.Year, 4) + Digits(t.Month, 2) + Digits(t.Day, 2) + Digits(t.Hour, 2) + Digits(t.Minute, 2)
  }

  /**
   * The rendering is `yyyyMMddHHmm`: its four-digit field reads back as the year, and the
   * following two-digit fields as the month, day, hour and minute, in that order.
   */
  lemma FormatMinuteFields(t: Timestamp)
    ensures var s := FormatMinute(t);
      DigitsValue(s[..4]) == t.Year && DigitsValue(s[4..6]) == t.Month && DigitsValue(s[6..8]) == t.Day &&
      DigitsValue(s[8..10]) == t.Hour && DigitsValue(s[10..12]) == t.Minute
  {
    var s := FormatMinute(t);
    assert s[..4] == Digits(t.Year, 4);
    assert s[4..6] == Digits(t.Month, 2);
    assert s[6..8] == Digits(t.Day, 2);
    assert s[8..10] == Digits(t.Hour, 2);
    assert s[10..12] == Digits(t.Minute, 2);
    assert Pow10(2) == 100 && Pow10(4) == 10000;
    DigitsRoundTrip(t.Year, 4);
    DigitsRoundTrip(t.Month, 2);
    DigitsRoundTrip(t.Day, 2);
    DigitsRoundTrip(t.Hour, 2);
    DigitsRoundTrip(t.Minute, 2);
  }

  /** Two timestamps render the same exactly when they fall in the same minute. */
  lemma FormatMinuteInjective(a: Timestamp, b: Timestamp)
    ensures FormatMinute(a) == FormatMinute(b) <==> SameMinute(a, b)
  {
    if FormatMinute(a) == FormatMinute(b) {
      FormatMinuteFields(a);
      FormatMinuteFields(b);
    }
  }
}
