/** DATETIME literals (src/common/common.h): text to a 64-bit integer and back. */
module DateTime {
  import opened Types

  datatype Fields = Fields(year: nat, month: nat, day: nat, hour: nat, minute: nat, second: nat)

  predicate IsLeapYear(year: nat) { year % 400 == 0 || (year % 4 == 0 && year % 100 != 0) }

  function DaysInMonth(year: nat, month: nat): nat
    requires 1 <= month <= 12
  {
    if month == 2 && IsLeapYear(year) then 29
    else if month == 2 then 28
    else if month == 4 || month == 6 || month == 9 || month == 11 then 30
    else 31
  }

  predicate RealDate(d: Fields) {
    && 1000 <= d.year <= 9999 && 1 <= d.month <= 12 && 1 <= d.day <= DaysInMonth(d.year, d.month)
    && d.hour <= 23 && d.minute <= 59 && d.second <= 59
  }

  // ------------------------------------------------------------------------- the calendar

  predicate LongMonth(m: nat) { m in {1, 3, 5, 7, 8, 10, 12} }

  predicate ShortMonth(m: nat) { m in {4, 6, 9, 11} }

  lemma MonthLengths(year: nat, month: nat)
    requires 1 <= month <= 12
    ensures LongMonth(month) || ShortMonth(month) || month == 2
    ensures LongMonth(month) ==> DaysInMonth(year, month) == 31
    ensures ShortMonth(month) ==> DaysInMonth(year, month) == 30
    ensures month == 2 ==>
      DaysInMonth(year, month) == if year % 4 == 0 && (year % 100 != 0 || year % 400 == 0) then 29 else 28
  {
    Multiples(year);
  }

  lemma Multiples(year: nat)
    ensures year % 100 == 0 ==> year % 4 == 0
    ensures year % 400 == 0 ==> year % 100 == 0
  {
    assert year == 100 * (year / 100) + year % 100 && year == 400 * (year / 400) + year % 400;
    if year % 100 == 0 { assert year == 4 * (25 * (year / 100)); }
    if year % 400 == 0 { assert year == 100 * (4 * (year / 400)); }
  }

  /** A day of the Gregorian calendar. */
  predicate OnCalendar(year: nat, month: nat, day: nat) {
    || (LongMonth(month) && 1 <= day <= 31)
    || (ShortMonth(month) && 1 <= day <= 30)
    || (month == 2 && 1 <= day <= 28)
    || (month == 2 && day == 29 && year % 4 == 0 && (year % 100 != 0 || year % 400 == 0))
  }

  lemma RealDateIff(d: Fields)
    ensures RealDate(d) <==>
      1000 <= d.year <= 9999 && OnCalendar(d.year, d.month, d.day) && d.hour < 24 && d.minute < 60 && d.second < 60
  {
    hide DaysInMonth;
    if 1 <= d.month <= 12 { MonthLengths(d.year, d.month); }
  }

  // ------------------------------------------------------------------------- the encoding

  function Encode(d: Fields): nat {
    d.year * 1_00_00_00_00_00 + d.month * 1_00_00_00_00 + d.day * 1_00_00_00 + d.hour * 1_00_00 + d.minute * 100
      + d.second
  }

  /** The fields, split off one by one from the right. */
  function Decode(value: nat): Fields {
    var v1 := value / 100;
    var v2 := v1 / 100;
    var v3 := v2 / 100;
    var v4 := v3 / 100;
    Fields(v4 / 100, v4 % 100, v3 % 100, v2 % 100, v1 % 100, value % 100)
  }

  // ------------------------------------------------------------------------------- numbers

  predicate IsDigit(c: char) { '0' <= c <= '9' }

  function DigitOf(n: nat): (c: char)
    requires n < 10
    ensures IsDigit(c) && c as int - '0' as int == n
  {
    ('0' as int + n) as char
  }

  /** The value of a run of digits; None is the error of parse_fixed_int. */
  function Number(s: string): Option<nat> {
    if s == [] then Some(0)
    else
      var n := Number(s[..|s| - 1]);
      var c := s[|s| - 1];
      if n.None? || !IsDigit(c) then None else Some(n.value * 10 + (c as int - '0' as int))
  }

  method ParseFixedInt(text: string, pos: nat, len: nat) returns (r: Option<nat>)
    requires pos + len <= |text|
    ensures r == Number(text[pos..pos + len])
  {
    var value := 0;
    for i := 0 to len
      invariant Number(text[pos..pos + i]) == Some(value)
    {
      var ch := text[pos + i];
      assert text[pos..pos + i + 1][..i] == text[pos..pos + i];
      if !IsDigit(ch) {
        NotANumber(text[pos..pos + len], i);
        assert text[pos..pos + len][..i + 1] == text[pos..pos + i + 1];
        return None;
      }
      value := value * 10 + (ch as int - '0' as int);
    }
    return Some(value);
  }

  lemma {:induction false} NotANumber(s: string, i: nat)
    requires i < |s| && !IsDigit(s[i])
    ensures Number(s).None?
    decreases |s|
  {
    if i == |s| - 1 {
    } else {
      NotANumber(s[..|s| - 1], i);
    }
  }

  /** The decimal digits as an ostream prints them. */
  function Decimal(n: nat): (s: string)
    ensures |s| >= 1
  {
    if n < 10 then [DigitOf(n)] else Decimal(n / 10) + [DigitOf(n % 10)]
  }

  function Zeros(n: nat): (s: string)
    ensures |s| == n
  {
    seq(n, _ => '0')
  }

  /** An ostream with fill '0' and the given width. */
  function Padded(n: nat, width: nat): string {
    var s := Decimal(n);
    if |s| < width then Zeros(width - |s|) + s else s
  }

  function Pow10(w: nat): nat { if w == 0 then 1 else 10 * Pow10(w - 1) }

  /** Exactly w digits. */
  function Fixed(n: nat, w: nat): (s: string)
    ensures |s| == w
  {
    if w == 0 then [] else Fixed(n / 10, w - 1) + [DigitOf(n % 10)]
  }

  lemma {:induction false} FixedNumber(n: nat, w: nat)
    requires n < Pow10(w)
    ensures Number(Fixed(n, w)) == Some(n)
  {
    if w == 0 {
    } else {
      FixedNumber(n / 10, w - 1);
      assert Fixed(n, w)[..w - 1] == Fixed(n / 10, w - 1);
    }
  }

  lemma {:induction false} NumberFixed(s: string)
    requires Number(s).Some?
    ensures Number(s).value < Pow10(|s|) && Fixed(Number(s).value, |s|) == s
  {
    if s == [] {
    } else {
      var p := s[..|s| - 1];
      NumberFixed(p);
      var n := Number(s).value;
      assert n / 10 == Number(p).value;
      assert s == p + [s[|s| - 1]];
    }
  }

  lemma {:induction false} ZeroFixed(w: nat)
    ensures Fixed(0, w) == Zeros(w)
  {
    if w == 0 {
    } else {
      ZeroFixed(w - 1);
    }
  }

  lemma {:induction false} PaddedFixed(n: nat, w: nat)
    requires w >= 1 && n < Pow10(w)
    ensures Padded(n, w) == Fixed(n, w) && |Decimal(n)| <= w
  {
    if n < 10 {
      ZeroFixed(w - 1);
    } else {
      PaddedFixed(n / 10, w - 1);
      assert Padded(n, w) == Padded(n / 10, w - 1) + [DigitOf(n % 10)];
    }
  }

  // -------------------------------------------------------------------------- parse and format

  predicate Punctuated(text: string) {
    |text| == 19 && text[4] == '-' && text[7] == '-' && text[10] == ' ' && text[13] == ':' && text[16] == ':'
  }

  /** The six numbers of a well-punctuated text. */
  function ReadFields(text: string): Option<Fields>
    requires Punctuated(text)
  {
    var y, m, d := Number(text[0..4]), Number(text[5..7]), Number(text[8..10]);
    var h, mi, s := Number(text[11..13]), Number(text[14..16]), Number(text[17..19]);
    if y.None? || m.None? || d.None? || h.None? || mi.None? || s.None? then None
    else Some(Fields(y.value, m.value, d.value, h.value, mi.value, s.value))
  }

  function Parsed(text: string): Option<nat> {
    if !Punctuated(text) then None
    else
      var d := ReadFields(text);
      if d.None? || !RealDate(d.value) then None else Some(Encode(d.value))
  }

  /** The texts that are accepted: five separators in place, digits everywhere else, a year from 1000 to 9999, a day of
      the calendar and a time of day. */
  predicate Acceptable(text: string) {
    && Punctuated(text) && ReadFields(text).Some?
    && var d := ReadFields(text).value;
       1000 <= d.year <= 9999 && OnCalendar(d.year, d.month, d.day) && d.hour < 24 && d.minute < 60 && d.second < 60
  }

  lemma AcceptedIff(text: string)
    ensures Parsed(text).Some? <==> Acceptable(text)
  {
    hide RealDate;
    hide OnCalendar;
    hide ReadFields;
    if Punctuated(text) && ReadFields(text).Some? { RealDateIff(ReadFields(text).value); }
  }

  /** parse_datetime_literal. */
  method ParseDatetimeLiteral(text: string) returns (r: Option<nat>)
    ensures r == Parsed(text)
    ensures r.Some? <==> Acceptable(text)
    ensures r.Some? ==> r.value < 1_0000_00_00_00_00_00
  {
    hide Number;
    hide OnCalendar;
    AcceptedIff(text);
    if !Punctuated(text) { return None; }
    var year := ParseFixedInt(text, 0, 4);
    if year.None? { return None; }
    var month := ParseFixedInt(text, 5, 2);
    if month.None? { return None; }
    var day := ParseFixedInt(text, 8, 2);
    if day.None? { return None; }
    var hour := ParseFixedInt(text, 11, 2);
    if hour.None? { return None; }
    var minute := ParseFixedInt(text, 14, 2);
    if minute.None? { return None; }
    var second := ParseFixedInt(text, 17, 2);
    if second.None? { return None; }
    var d := Fields(year.value, month.value, day.value, hour.value, minute.value, second.value);
    if !RealDate(d) { return None; }
    return Some(Encode(d));
  }

  function Joined(y: string, m: string, d: string, h: string, mi: string, sec: string): string {
    y + "-" + m + "-" + d + " " + h + ":" + mi + ":" + sec
  }

  function FormatFields(d: Fields): string {
    Joined(Padded(d.year, 4), Padded(d.month, 2), Padded(d.day, 2), Padded(d.hour, 2), Padded(d.minute, 2),
           Padded(d.second, 2))
  }

  /** An ostream prints the sign of a negative number after the fill characters. */
  function PaddedInt(n: int, width: nat): string {
    if n >= 0 then Padded(n, width)
    else
      var s := "-" + Decimal(-n);
      if |s| < width then Zeros(width - |s|) + s else s
  }

  /** C++ division and remainder by 100, which truncate toward zero. */
  function DivBy100(v: int): int { if v >= 0 then v / 100 else -(-v / 100) }

  function ModBy100(v: int): int { if v >= 0 then v % 100 else -(-v % 100) }

  function Negated(n: nat): int { -(n as int) }

  /** Splitting off two digits commutes with the sign. */
  lemma SplitsSigned(n: nat)
    ensures DivBy100(n) == n / 100 && ModBy100(n) == n % 100
    ensures DivBy100(Negated(n)) == Negated(n / 100) && ModBy100(Negated(n)) == Negated(n % 100)
  {
  }

  /** The text of any value: a negative one shows its fields with signs. */
  function FormatValue(v: int): string {
    if v >= 0 then FormatFields(Decode(v))
    else
      var d := Decode(-v);
      Joined(PaddedInt(Negated(d.year), 4), PaddedInt(Negated(d.month), 2), PaddedInt(Negated(d.day), 2),
             PaddedInt(Negated(d.hour), 2), PaddedInt(Negated(d.minute), 2), PaddedInt(Negated(d.second), 2))
  }

  /** format_datetime_value: the fields are split off one by one from the right. */
  method FormatDatetimeValue(v: int) returns (text: string)
    ensures text == FormatValue(v)
  {
    hide DivBy100;
    hide ModBy100;
    hide Joined;
    hide Padded;
    ghost var n := if v >= 0 then v else -v;
    SplitsSigned(n);
    SplitsSigned(n / 100);
    SplitsSigned(n / 100 / 100);
    SplitsSigned(n / 100 / 100 / 100);
    SplitsSigned(n / 100 / 100 / 100 / 100);
    var value := v;
    var second := ModBy100(value);
    value := DivBy100(value);
    var minute := ModBy100(value);
    value := DivBy100(value);
    var hour := ModBy100(value);
    value := DivBy100(value);
    var day := ModBy100(value);
    value := DivBy100(value);
    var month := ModBy100(value);
    value := DivBy100(value);
    text := Joined(PaddedInt(value, 4), PaddedInt(month, 2), PaddedInt(day, 2), PaddedInt(hour, 2),
                   PaddedInt(minute, 2), PaddedInt(second, 2));
  }

  /** Two more digits on the right. */
  function Push(a: nat, b: nat): nat { a * 100 + b }

  lemma PushSplits(a: nat, b: nat)
    requires b < 100
    ensures Push(a, b) / 100 == a && Push(a, b) % 100 == b
  {
  }

  lemma PushOrder(a: nat, b: nat, a': nat, b': nat)
    requires b < 100 && b' < 100
    ensures Push(a, b) < Push(a', b') <==> a < a' || (a == a' && b < b')
    ensures Push(a, b) == Push(a', b') <==> a == a' && b == b'
  {
  }

  lemma EncodePushes(d: Fields)
    ensures Encode(d) == Push(Push(Push(Push(Push(d.year, d.month), d.day), d.hour), d.minute), d.second)
  {
  }

  lemma LastDay(year: nat, month: nat)
    requires 1 <= month <= 12
    ensures DaysInMonth(year, month) <= 31
  {
  }

  /** The encoding is one-to-one on real dates and fits 64 bits. */
  lemma DecodeEncode(d: Fields)
    requires RealDate(d)
    ensures Decode(Encode(d)) == d && Encode(d) < 1_0000_00_00_00_00_00
  {
    hide DaysInMonth;
    hide Encode;
    hide Push;
    LastDay(d.year, d.month);
    EncodePushes(d);
    var v4 := Push(d.year, d.month);
    var v3 := Push(v4, d.day);
    var v2 := Push(v3, d.hour);
    var v1 := Push(v2, d.minute);
    PushSplits(d.year, d.month);
    PushSplits(v4, d.day);
    PushSplits(v3, d.hour);
    PushSplits(v2, d.minute);
    PushSplits(v1, d.second);
    EncodeFits(d);
  }

  lemma EncodeFits(d: Fields)
    requires d.year <= 9999 && d.month < 100 && d.day < 100 && d.hour < 100 && d.minute < 100 && d.second < 100
    ensures Encode(d) < 1_0000_00_00_00_00_00
  {
  }

  predicate Before(a: Fields, b: Fields) {
    a.year < b.year || (a.year == b.year && (
    a.month < b.month || (a.month == b.month && (
    a.day < b.day || (a.day == b.day && (
    a.hour < b.hour || (a.hour == b.hour && (
    a.minute < b.minute || (a.minute == b.minute && a.second < b.second)))))))))
  }

  /** The integer order of encodings is the calendar order. */
  lemma OrderPreserved(a: Fields, b: Fields)
    requires RealDate(a) && RealDate(b)
    ensures Encode(a) < Encode(b) <==> Before(a, b)
    ensures Encode(a) == Encode(b) <==> a == b
  {
    hide DaysInMonth;
    hide Encode;
    hide Push;
    LastDay(a.year, a.month);
    LastDay(b.year, b.month);
    EncodePushes(a);
    EncodePushes(b);
    var a4, b4 := Push(a.year, a.month), Push(b.year, b.month);
    var a3, b3 := Push(a4, a.day), Push(b4, b.day);
    var a2, b2 := Push(a3, a.hour), Push(b3, b.hour);
    var a1, b1 := Push(a2, a.minute), Push(b2, b.minute);
    PushOrder(a.year, a.month, b.year, b.month);
    PushOrder(a4, a.day, b4, b.day);
    PushOrder(a3, a.hour, b3, b.hour);
    PushOrder(a2, a.minute, b2, b.minute);
    PushOrder(a1, a.second, b1, b.second);
  }

  lemma Pow10Values()
    ensures Pow10(4) == 10000 && Pow10(2) == 100
  {
    assert Pow10(3) == 1000;
  }

  /** Fields that fit their places in the text. */
  predicate Placed(d: Fields) {
    d.year < 10000 && d.month < 100 && d.day < 100 && d.hour < 100 && d.minute < 100 && d.second < 100
  }

  lemma FieldsFixed(d: Fields)
    requires Placed(d)
    ensures FormatFields(d) == Joined(Fixed(d.year, 4), Fixed(d.month, 2), Fixed(d.day, 2), Fixed(d.hour, 2),
              Fixed(d.minute, 2), Fixed(d.second, 2))
  {
    Pow10Values();
    PaddedFixed(d.year, 4);
    PaddedFixed(d.month, 2);
    PaddedFixed(d.day, 2);
    PaddedFixed(d.hour, 2);
    PaddedFixed(d.minute, 2);
    PaddedFixed(d.second, 2);
  }

  /** The text is its six numbers and the punctuation between them. */
  lemma TextSlices(text: string)
    requires Punctuated(text)
    ensures text == Joined(text[0..4], text[5..7], text[8..10], text[11..13], text[14..16], text[17..19])
  {
    assert text == text[0..4] + [text[4]] + text[5..7] + [text[7]] + text[8..10] + [text[10]] + text[11..13]
      + [text[13]]
                   + text[14..16] + [text[16]] + text[17..19];
  }

  /** Formatting the value of an accepted text gives the text back. */
  lemma TextRoundTrip(text: string)
    requires Parsed(text).Some?
    ensures FormatValue(Parsed(text).value) == text
  {
    hide Number;
    hide Fixed;
    hide RealDate;
    hide FormatFields;
    hide Encode;
    hide Decode;
    var d := ReadFields(text).value;
    DecodeEncode(d);
    RealPlaced(d);
    FieldsFixed(d);
    NumberFixed(text[0..4]);
    NumberFixed(text[5..7]);
    NumberFixed(text[8..10]);
    NumberFixed(text[11..13]);
    NumberFixed(text[14..16]);
    NumberFixed(text[17..19]);
    TextSlices(text);
  }

  lemma RealPlaced(d: Fields)
    requires RealDate(d)
    ensures Placed(d)
  {
    hide DaysInMonth;
    LastDay(d.year, d.month);
  }

  lemma JoinedSlices(y: string, m: string, d: string, h: string, mi: string, sec: string)
    requires |y| == 4 && |m| == |d| == |h| == |mi| == |sec| == 2
    ensures var text := Joined(y, m, d, h, mi, sec);
      && Punctuated(text) && text[0..4] == y && text[5..7] == m && text[8..10] == d
      && text[11..13] == h && text[14..16] == mi && text[17..19] == sec
  {
  }

  /** Parsing formatted fields reads them back; they are accepted exactly when they are a real date. */
  lemma PlacedRoundTrip(d: Fields)
    requires Placed(d)
    ensures Parsed(FormatFields(d)) == if RealDate(d) then Some(Encode(d)) else None
  {
    hide Number;
    hide Fixed;
    hide Joined;
    hide FormatFields;
    hide Encode;
    hide DaysInMonth;
    FieldsFixed(d);
    Pow10Values();
    FixedNumber(d.year, 4);
    FixedNumber(d.month, 2);
    FixedNumber(d.day, 2);
    FixedNumber(d.hour, 2);
    FixedNumber(d.minute, 2);
    FixedNumber(d.second, 2);
    JoinedSlices(Fixed(d.year, 4), Fixed(d.month, 2), Fixed(d.day, 2), Fixed(d.hour, 2), Fixed(d.minute, 2),
      Fixed(d.second, 2));
  }

  /** Parsing a formatted date gives its encoding. */
  lemma ValueRoundTrip(d: Fields)
    requires RealDate(d)
    ensures Parsed(FormatFields(d)) == Some(Encode(d))
  {
    hide Parsed;
    hide FormatFields;
    RealPlaced(d);
    PlacedRoundTrip(d);
  }

  // -------------------------------------------------------------- values that are no dates

  lemma {:induction false} LongDecimal(n: nat, w: nat)
    requires n >= Pow10(w)
    ensures |Decimal(n)| > w
  {
    if w == 0 {
    } else {
      LongDecimal(n / 10, w - 1);
    }
  }

  /** Every field takes at least its width, and a negative one shows a sign inside it. */
  lemma FieldText(n: int, w: nat)
    ensures |PaddedInt(n, w)| >= w
    ensures n < 0 ==> Number(PaddedInt(n, w)).None?
  {
    if n < 0 {
      var s := PaddedInt(n, w);
      var i := if 1 + |Decimal(-n)| < w then w - 1 - |Decimal(-n)| else 0;
      assert s[i] == '-';
      NotANumber(s, i);
    }
  }

  /** A text longer than 19 characters, or with a field that is no number, is refused. */
  lemma JoinedRefused(y: string, m: string, d: string, h: string, mi: string, sec: string)
    requires |y| >= 4 && |m| >= 2 && |d| >= 2 && |h| >= 2 && |mi| >= 2 && |sec| >= 2
    requires |y| > 4 || Number(y).None? || Number(m).None? || Number(d).None? || Number(h).None? || Number(mi).None?
      || Number(sec).None?
    ensures Parsed(Joined(y, m, d, h, mi, sec)) == None
  {
    hide Number;
    hide RealDate;
    var text := Joined(y, m, d, h, mi, sec);
    assert |text| == |y| + |m| + |d| + |h| + |mi| + |sec| + 5;
    if |text| == 19 { JoinedSlices(y, m, d, h, mi, sec); }
  }

  lemma NegativeRefused(v: int)
    requires v < 0
    ensures Parsed(FormatValue(v)) == None
  {
    hide Number;
    hide PaddedInt;
    hide Joined;
    hide Parsed;
    hide Decode;
    var d := Decode(-v);
    FieldText(Negated(d.year), 4);
    FieldText(Negated(d.month), 2);
    FieldText(Negated(d.day), 2);
    FieldText(Negated(d.hour), 2);
    FieldText(Negated(d.minute), 2);
    FieldText(Negated(d.second), 2);
    SomeField(-v);
    JoinedRefused(PaddedInt(Negated(d.year), 4), PaddedInt(Negated(d.month), 2), PaddedInt(Negated(d.day), 2),
      PaddedInt(Negated(d.hour), 2), PaddedInt(Negated(d.minute), 2), PaddedInt(Negated(d.second), 2));
  }

  lemma SomeField(v: nat)
    requires v > 0
    ensures Decode(v) != Fields(0, 0, 0, 0, 0, 0)
  {
  }

  lemma SplitPlaces(v: nat)
    ensures var d := Decode(v);
      d.month < 100 && d.day < 100 && d.hour < 100 && d.minute < 100 && d.second < 100 && Encode(d) == v
  {
    var v1 := v / 100;
    var v2 := v1 / 100;
    var v3 := v2 / 100;
    var v4 := v3 / 100;
    assert v == 100 * v1 + v % 100 && v1 == 100 * v2 + v1 % 100 && v2 == 100 * v3 + v2 % 100;
    assert v3 == 100 * v4 + v3 % 100 && v4 == 100 * (v4 / 100) + v4 % 100;
  }

  lemma LongYearRefused(v: nat)
    requires Decode(v).year >= 10000
    ensures Parsed(FormatValue(v)) == None
  {
    hide Number;
    hide Joined;
    hide Parsed;
    hide Decode;
    var d := Decode(v);
    Pow10Values();
    LongDecimal(d.year, 4);
    FieldText(d.month, 2);
    FieldText(d.day, 2);
    FieldText(d.hour, 2);
    FieldText(d.minute, 2);
    FieldText(d.second, 2);
    JoinedRefused(Padded(d.year, 4), Padded(d.month, 2), Padded(d.day, 2), Padded(d.hour, 2), Padded(d.minute, 2),
      Padded(d.second, 2));
  }

  /** For every integer: its text is accepted if and only if it encodes a real date, and then it parses to it. */
  lemma FormatParsesIff(v: int)
    ensures Parsed(FormatValue(v)) == if v >= 0 && RealDate(Decode(v)) then Some(v) else None
  {
    hide Parsed;
    hide Decode;
    hide Encode;
    hide FormatFields;
    hide DaysInMonth;
    hide Joined;
    if v < 0 {
      NegativeRefused(v);
    } else {
      SplitPlaces(v);
      if Decode(v).year >= 10000 {
        LongYearRefused(v);
      } else {
        PlacedRoundTrip(Decode(v));
      }
    }
  }
}
