/** DATETIME against the Gregorian calendar (src/common/common.h): the lengths of years and of the 400-year cycle, and
    how the digits of the text become the digits of the value. */
module Calendar {
  import opened Types
  import opened DateTime

  // ----------------------------------------------------------------------- months and years

  /** The days of the first n months of the year. */
  function DaysBefore(year: nat, n: nat): nat
    requires n <= 12
  {
    if n == 0 then 0 else DaysBefore(year, n - 1) + DaysInMonth(year, n)
  }

  /** The days of n years. */
  function DaysOfYears(year: nat, n: nat): nat {
    if n == 0 then 0 else DaysOfYears(year, n - 1) + DaysBefore(year + n - 1, 12)
  }

  /** How many years from 0 on, before the given one, are leap years: every fourth, but of the centuries every
      fourth. */
  function LeapsBefore(year: nat): nat { (year + 3) / 4 - (year + 99) / 100 + (year + 399) / 400 }

  lemma StepBy4(year: nat)
    ensures (year + 4) / 4 == (year + 3) / 4 + if year % 4 == 0 then 1 else 0
  {
  }

  lemma StepBy100(year: nat)
    ensures (year + 100) / 100 == (year + 99) / 100 + if year % 100 == 0 then 1 else 0
  {
  }

  lemma StepBy400(year: nat)
    ensures (year + 400) / 400 == (year + 399) / 400 + if year % 400 == 0 then 1 else 0
  {
  }

  /** The count goes up by one exactly at the years that the code takes for leap years. */
  lemma LeapStep(year: nat)
    ensures LeapsBefore(year + 1) == LeapsBefore(year) + if IsLeapYear(year) then 1 else 0
  {
    var a, b, c := (year + 3) / 4, (year + 99) / 100, (year + 399) / 400;
    assert LeapsBefore(year) == a - b + c;
    assert LeapsBefore(year + 1) == (year + 4) / 4 - (year + 100) / 100 + (year + 400) / 400;
    StepBy4(year);
    StepBy100(year);
    StepBy400(year);
    Multiples(year);
  }

  lemma YearLength(year: nat)
    ensures DaysBefore(year, 12) == 365 + LeapsBefore(year + 1) - LeapsBefore(year)
    ensures DaysBefore(year, 12) == 365 || DaysBefore(year, 12) == 366
  {
    hide LeapsBefore;
    hide IsLeapYear;
    LeapStep(year);
    var leap := if IsLeapYear(year) then 1 else 0;
    assert DaysBefore(year, 1) == 31;
    assert DaysBefore(year, 2) == 59 + leap;
    assert DaysBefore(year, 4) == 120 + leap by { assert DaysBefore(year, 3) == 90 + leap; }
    assert DaysBefore(year, 6) == 181 + leap by { assert DaysBefore(year, 5) == 151 + leap; }
    assert DaysBefore(year, 8) == 243 + leap by { assert DaysBefore(year, 7) == 212 + leap; }
    assert DaysBefore(year, 10) == 304 + leap by { assert DaysBefore(year, 9) == 273 + leap; }
    assert DaysBefore(year, 11) == 334 + leap;
  }

  lemma {:induction false} YearsLength(year: nat, n: nat)
    ensures DaysOfYears(year, n) == 365 * n + LeapsBefore(year + n) - LeapsBefore(year)
  {
    hide LeapsBefore;
    hide DaysBefore;
    if n == 0 {
    } else {
      YearsLength(year, n - 1);
      YearLength(year + n - 1);
    }
  }

  /** The Gregorian cycle: any 400 years have 146097 days. */
  lemma Cycle(year: nat)
    ensures DaysOfYears(year, 400) == 146097
  {
    hide DaysOfYears;
    YearsLength(year, 400);
    assert LeapsBefore(year + 400) == LeapsBefore(year) + 97;
  }

  // --------------------------------------------------------------------- the digits of the value

  /** The digits of a number put together from two are theirs, one after the other. */
  lemma {:induction false} FixedAppend(a: nat, b: nat, v: nat, w: nat)
    requires b < Pow10(w)
    ensures Fixed(a * Pow10(w) + b, v + w) == Fixed(a, v) + Fixed(b, w)
    decreases w
  {
    if w == 0 {
    } else {
      var p := Pow10(w - 1);
      var n := a * Pow10(w) + b;
      assert n == 10 * (a * p) + b;
      SplitDigit(a * p, b);
      FixedAppend(a, b / 10, v, w - 1);
      assert Fixed(n, v + w) == Fixed(n / 10, v + w - 1) + [DigitOf(n % 10)];
    }
  }

  lemma SplitDigit(x: nat, b: nat)
    ensures (10 * x + b) / 10 == x + b / 10 && (10 * x + b) % 10 == b % 10
  {
  }

  lemma PushDigits(a: nat, b: nat, v: nat)
    requires b < 100
    ensures Fixed(Push(a, b), v + 2) == Fixed(a, v) + Fixed(b, 2)
  {
    hide Fixed;
    Pow10Values();
    FixedAppend(a, b, v, 2);
  }

  /** The value of an accepted text has the fourteen digits of the text, in their order. */
  lemma ValueDigits(text: string)
    requires Parsed(text).Some?
    ensures Fixed(Parsed(text).value, 14)
      == text[0..4] + text[5..7] + text[8..10] + text[11..13] + text[14..16] + text[17..19]
  {
    hide Fixed;
    hide Number;
    hide Push;
    hide Encode;
    hide RealDate;
    var d := ReadFields(text).value;
    RealPlaced(d);
    EncodePushes(d);
    var v1 := Push(d.year, d.month);
    var v2 := Push(v1, d.day);
    var v3 := Push(v2, d.hour);
    var v4 := Push(v3, d.minute);
    PushDigits(d.year, d.month, 4);
    PushDigits(v1, d.day, 6);
    PushDigits(v2, d.hour, 8);
    PushDigits(v3, d.minute, 10);
    PushDigits(v4, d.second, 12);
    NumberFixed(text[0..4]);
    NumberFixed(text[5..7]);
    NumberFixed(text[8..10]);
    NumberFixed(text[11..13]);
    NumberFixed(text[14..16]);
    NumberFixed(text[17..19]);
  }

  /** How a negative field looks: fill zeros, then the sign, then the digits of its magnitude. */
  lemma SignAfterFill(n: int, w: nat) returns (fill: nat)
    requires n < 0
    ensures var s, digits := PaddedInt(n, w), Decimal(-n);
      && |s| == fill + 1 + |digits| && (fill == 0 || |s| == w)
      && (forall i :: 0 <= i < fill ==> s[i] == '0') && s[fill] == '-' && s[fill + 1..] == digits
  {
    var digits := Decimal(-n);
    fill := if 1 + |digits| < w then w - 1 - |digits| else 0;
    assert PaddedInt(n, w) == Zeros(fill) + "-" + digits;
  }
}
