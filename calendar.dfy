/**
  Calendar dates and the date parser used when loading records.

  The dashboard coerces the raw publication time with a permissive date
  parser and treats every value it cannot parse as missing.  This module
  gives that parser a concrete meaning: the calendar-date form YYYY-MM-DD
  of ISO 8601 (section 5.2.1.1), with the month in 1..12 and the day within
  the length of the month in the proleptic Gregorian calendar.
 */
module Calendar {
  import opened Wrappers

  datatype Date = Date(year: int, month: int, day: int)

  /** Gregorian leap-year rule. */
  predicate IsLeapYear(y: int) {
    y % 4 == 0 && (y % 100 != 0 || y % 400 == 0)
  }

  function DaysInMonth(y: int, m: int): (n: int)
    requires 1 <= m <= 12
    ensures 28 <= n <= 31
    ensures m == 2 ==> (n == 29 <==> IsLeapYear(y))
  {
    if m == 2 then (if IsLeapYear(y) then 29 else 28)
    else if m == 4 || m == 6 || m == 9 || m == 11 then 30
    else 31
  }

  /** A real day of the calendar. */
  predicate IsValidDate(d: Date) {
    1 <= d.month <= 12 && 1 <= d.day <= DaysInMonth(d.year, d.month)
  }

  predicate IsDigit(c: char) {
    '0' <= c <= '9'
  }

  function DigitValue(c: char): (v: nat)
    requires IsDigit(c)
    ensures v < 10
  {
    c as int - '0' as int
  }

  function DigitChar(v: nat): (c: char)
    requires v < 10
    ensures IsDigit(c) && DigitValue(c) == v
  {
    ('0' as int + v) as char
  }

  /** The number written by a run of decimal digits, most significant first. */
  function Number(s: string): (n: nat)
    requires forall i :: 0 <= i < |s| ==> IsDigit(s[i])
    ensures n < Pow10(|s|)
  {
    if s == [] then 0 else 10 * Number(s[..|s| - 1]) + DigitValue(s[|s| - 1])
  }

  /** The value `v` written with exactly `width` decimal digits, zero-padded. */
  function Digits(v: nat, width: nat): (s: string)
    ensures |s| == width
    ensures forall i :: 0 <= i < |s| ==> IsDigit(s[i])
  {
    if width == 0 then [] else Digits(v / 10, width - 1) + [DigitChar(v % 10)]
  }

  function Pow10(k: nat): (p: nat)
    ensures p >= 1
  {
    if k == 0 then 1 else 10 * Pow10(k - 1)
  }

  /** Reading back `width` padded digits gives the value, when it fits. */
  lemma {:induction false} NumberOfDigits(v: nat, width: nat)
    requires v < Pow10(width)
    ensures Number(Digits(v, width)) == v
  {
    if width > 0 {
      var s := Digits(v, width);
      assert s[..|s| - 1] == Digits(v / 10, width - 1);
      NumberOfDigits(v / 10, width - 1);
    }
  }

  /** Writing the number of a digit string back with its width gives the string. */
  lemma {:induction false} DigitsOfNumber(s: string)
    requires forall i :: 0 <= i < |s| ==> IsDigit(s[i])
    ensures Digits(Number(s), |s|) == s
  {
    if s != [] {
      var init := s[..|s| - 1];
      DigitsOfNumber(init);
      var n := Number(s);
      assert n / 10 == Number(init);
      assert DigitChar(n % 10) == s[|s| - 1];
      assert s == init + [s[|s| - 1]];
    }
  }

  predicate IsDigitsAt(s: string, lo: nat, hi: nat)
    requires lo <= hi <= |s|
  {
    forall i :: lo <= i < hi ==> IsDigit(s[i])
  }

  /** The shape YYYY-MM-DD, before any range check on month and day. */
  predicate HasIsoShape(s: string) {
    |s| == 10 && IsDigitsAt(s, 0, 4) && s[4] == '-' && IsDigitsAt(s, 5, 7) && s[7] == '-' && IsDigitsAt(s, 8, 10)
  }

  /**
    Parses YYYY-MM-DD.  Any other text, and any text naming a day that does
    not exist (month 13, 2021-02-29), yields None rather than an error.
   */
  function ParseDate(s: string): (r: Option<Date>)
    ensures r.Some? ==> IsValidDate(r.value) && 0 <= r.value.year <= 9999
    ensures r.Some? ==> HasIsoShape(s)
  {
    if !HasIsoShape(s) then None
    else
      var d := Date(Number(s[..4]), Number(s[5..7]), Number(s[8..10]));
      assert Pow10(4) == 10000;
      if IsValidDate(d) then Some(d) else None
  }

  /** Writes a date as YYYY-MM-DD. */
  function FormatDate(d: Date): (s: string)
    requires 0 <= d.year && 0 <= d.month && 0 <= d.day
    ensures |s| == 10
  {
    Digits(d.year, 4) + "-" + Digits(d.month, 2) + "-" + Digits(d.day, 2)
  }

  /** Every valid date with a four-digit year survives formatting and parsing. */
  lemma ParseFormat(d: Date)
    requires IsValidDate(d) && 0 <= d.year <= 9999
    ensures ParseDate(FormatDate(d)) == Some(d)
  {
    FormatFields(d);
  }

  /** A day that does not exist, written in the same shape, is rejected. */
  lemma ParseRejectsInvalid(d: Date)
    requires !IsValidDate(d)
    requires 0 <= d.year <= 9999 && 0 <= d.month <= 99 && 0 <= d.day <= 99
    ensures ParseDate(FormatDate(d)) == None
  {
    FormatFields(d);
  }

  /** The written form of a date has the YYYY-MM-DD shape and its three fields read back. */
  lemma FormatFields(d: Date)
    requires 0 <= d.year <= 9999 && 0 <= d.month <= 99 && 0 <= d.day <= 99
    ensures HasIsoShape(FormatDate(d))
    ensures Number(FormatDate(d)[..4]) == d.year
    ensures Number(FormatDate(d)[5..7]) == d.month
    ensures Number(FormatDate(d)[8..10]) == d.day
  {
    var s := FormatDate(d);
    assert s[..4] == Digits(d.year, 4);
    assert s[5..7] == Digits(d.month, 2);
    assert s[8..10] == Digits(d.day, 2);
    assert Pow10(4) == 10000 && Pow10(2) == 100;
    NumberOfDigits(d.year, 4);
    NumberOfDigits(d.month, 2);
    NumberOfDigits(d.day, 2);
  }

  /** Every accepted text is the canonical spelling of the date it parses to. */
  lemma FormatParse(s: string)
    requires ParseDate(s).Some?
    ensures FormatDate(ParseDate(s).value) == s
  {
    DigitsOfNumber(s[..4]);
    DigitsOfNumber(s[5..7]);
    DigitsOfNumber(s[8..10]);
    assert s == s[..4] + "-" + s[5..7] + "-" + s[8..10];
  }
}
