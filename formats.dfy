// Text forms the core produces: Long.toString for the ids carried by outbox
// events, and the DateTimeFormatter patterns "yyyy-MM-dd" and "yyyy-MM" used as
// period labels.
module Formats {
  import opened Results
  import opened Calendar

  predicate IsDigit(c: char) {
    '0' <= c <= '9'
  }

  function DigitChar(d: int): (c: char)
    requires 0 <= d <= 9
    ensures IsDigit(c)
  {
    ('0' as int + d) as char
  }

  function DigitValue(c: char): (d: int)
    requires IsDigit(c)
    ensures 0 <= d <= 9 && DigitChar(d) == c
  {
    c as int - '0' as int
  }

  predicate AllDigits(s: string) {
    forall i :: 0 <= i < |s| ==> IsDigit(s[i])
  }

  /** The number a string of decimal digits denotes (leading zeros allowed). */
  function DigitsValue(s: string): nat
    requires AllDigits(s)
  {
    if s == [] then 0 else DigitsValue(s[..|s| - 1]) * 10 + DigitValue(s[|s| - 1])
  }

  /** Decimal digits of n, without leading zeros ("0" for zero). */
  function NatToString(n: nat): (s: string)
    ensures |s| >= 1 && AllDigits(s)
  {
    if n < 10 then [DigitChar(n)] else NatToString(n / 10) + [DigitChar(n % 10)]
  }

  /** Long.toString: a minus sign before the digits of a negative number. */
  function LongToString(n: int): string {
    if n < 0 then "-" + NatToString(-n) else NatToString(n)
  }

  /** Long.parseLong on the strings LongToString produces. */
  function ParseLong(s: string): Option<int> {
    if |s| >= 2 && s[0] == '-' && AllDigits(s[1..]) then (var v: int := DigitsValue(s[1..]); Some(-v))
    else if |s| >= 1 && AllDigits(s) then Some(DigitsValue(s))
    else None
  }

  lemma {:induction false} NatToStringValue(n: nat)
    ensures DigitsValue(NatToString(n)) == n
  {
    var s := NatToString(n);
    if n < 10 {
      assert s[..0] == [];
    } else {
      NatToStringValue(n / 10);
      assert s[..|s| - 1] == NatToString(n / 10);
    }
  }

  /** Parsing the string form of a Long gives the Long back. */
  lemma {:induction false} LongToStringRoundTrip(n: int)
    ensures ParseLong(LongToString(n)) == Some(n)
  {
    var s := LongToString(n);
    if n < 0 {
      var digits := NatToString(-n);
      assert s == "-" + digits;
      assert s[1..] == digits;
      assert |s| >= 2 && s[0] == '-';
      NatToStringValue(-n);
    } else {
      assert s == NatToString(n);
      assert IsDigit(s[0]);
      NatToStringValue(n);
    }
  }

  /** Distinct Longs have distinct string forms. */
  lemma LongToStringInjective(a: int, b: int)
    requires LongToString(a) == LongToString(b)
    ensures a == b
  {
    LongToStringRoundTrip(a);
    LongToStringRoundTrip(b);
  }

  function Zeros(k: nat): (s: string)
    ensures |s| == k && AllDigits(s)
  {
    if k == 0 then "" else "0" + Zeros(k - 1)
  }

  /** Left-pads s with zeros to the given width; longer strings are kept. */
  function PadLeft(s: string, width: nat): string {
    if |s| >= width then s else Zeros(width - |s|) + s
  }

  /** Java's 'y' is the year of era: 1 - year before year 1. */
  function YearOfEra(year: int): (y: nat)
    ensures y >= 1
  {
    if year >= 1 then year else 1 - year
  }

  /** Pattern letters "yyyy" (SignStyle.EXCEEDS_PAD: a '+' once the value
      needs more than four digits). */
  function YearText(year: int): string {
    var y := YearOfEra(year);
    (if y >= 10000 then "+" else "") + PadLeft(NatToString(y), 4)
  }

  /** Pattern letters "MM" and "dd": two digits, zero-padded. */
  function TwoDigits(n: nat): string {
    PadLeft(NatToString(n), 2)
  }

  /** YearMonth.format(ofPattern("yyyy-MM")). */
  function YearMonthLabel(year: int, month: nat): string {
    YearText(year) + "-" + TwoDigits(month)
  }

  /** LocalDate.format(ofPattern("yyyy-MM-dd")). */
  function DateLabel(d: LocalDate): string {
    YearMonthLabel(d.year, d.month) + "-" + TwoDigits(d.day)
  }

  /** Reads back a label of the shape dddd-dd-dd. */
  function ParseDateLabel(s: string): Option<Date> {
    if |s| == 10 && s[4] == '-' && s[7] == '-'
       && AllDigits(s[..4]) && AllDigits(s[5..7]) && AllDigits(s[8..])
    then Some(Date(DigitsValue(s[..4]), DigitsValue(s[5..7]), DigitsValue(s[8..])))
    else None
  }

  /** Reads back a label of the shape dddd-dd. */
  function ParseYearMonthLabel(s: string): Option<(int, int)> {
    if |s| == 7 && s[4] == '-' && AllDigits(s[..4]) && AllDigits(s[5..])
    then Some((DigitsValue(s[..4]), DigitsValue(s[5..])))
    else None
  }

  lemma {:induction false} NatToStringLength(n: nat, k: nat)
    requires n < Pow10(k) && k >= 1
    ensures |NatToString(n)| <= k
  {
    if n >= 10 {
      NatToStringLength(n / 10, k - 1);
    }
  }

  function Pow10(k: nat): (p: nat)
    ensures p >= 1
  {
    if k == 0 then 1 else 10 * Pow10(k - 1)
  }

  lemma {:induction false} ZerosPrefixValue(k: nat, s: string)
    requires AllDigits(s)
    ensures AllDigits(Zeros(k) + s) && DigitsValue(Zeros(k) + s) == DigitsValue(s)
  {
    if s == [] {
      assert Zeros(k) + s == Zeros(k);
      ZerosValue(k);
    } else {
      var t := Zeros(k) + s;
      assert t[..|t| - 1] == Zeros(k) + s[..|s| - 1];
      ZerosPrefixValue(k, s[..|s| - 1]);
    }
  }

  lemma {:induction false} ZerosValue(k: nat)
    ensures DigitsValue(Zeros(k)) == 0
  {
    if k > 0 {
      var z := Zeros(k);
      assert z[..k - 1] == Zeros(k - 1) by {
        ZerosAllZero(k);
        ZerosAllZero(k - 1);
      }
      ZerosValue(k - 1);
      ZerosAllZero(k);
    }
  }

  lemma {:induction false} ZerosAllZero(k: nat)
    ensures forall i :: 0 <= i < k ==> Zeros(k)[i] == '0'
  {
    if k > 0 {
      ZerosAllZero(k - 1);
    }
  }

  /** A zero-padded field of width `width` holding n has exactly that width and reads back as n. */
  lemma PaddedField(n: nat, width: nat)
    requires width >= 1 && n < Pow10(width)
    ensures |PadLeft(NatToString(n), width)| == width
    ensures AllDigits(PadLeft(NatToString(n), width))
    ensures DigitsValue(PadLeft(NatToString(n), width)) == n
  {
    var s := NatToString(n);
    NatToStringLength(n, width);
    NatToStringValue(n);
    if |s| < width {
      var p := PadLeft(s, width);
      assert p == Zeros(width - |s|) + s;
      ZerosPrefixValue(width - |s|, s);
    }
  }

  /** For the years 1 to 9999 a month label has the shape dddd-dd and reads back as its year and month. */
  lemma {:induction false} YearMonthLabelRoundTrip(year: int, month: int)
    requires 1 <= year <= 9999 && 1 <= month <= 12
    ensures |YearMonthLabel(year, month)| == 7
    ensures ParseYearMonthLabel(YearMonthLabel(year, month)) == Some((year, month))
  {
    var y := PadLeft(NatToString(year), 4);
    var m := TwoDigits(month);
    assert Pow10(4) == 10000 && Pow10(2) == 100;
    PaddedField(year, 4);
    PaddedField(month, 2);
    var s := YearMonthLabel(year, month);
    assert s == y + "-" + m;
    assert s[..4] == y && s[5..] == m;
  }

  /** For the years 1 to 9999 a date label has the shape dddd-dd-dd and reads back as its date. */
  lemma {:induction false} DateLabelRoundTrip(d: LocalDate)
    requires 1 <= d.year <= 9999
    ensures |DateLabel(d)| == 10
    ensures ParseDateLabel(DateLabel(d)) == Some(d)
  {
    var ym := YearMonthLabel(d.year, d.month);
    var dd := TwoDigits(d.day);
    YearMonthLabelRoundTrip(d.year, d.month);
    assert Pow10(2) == 100;
    PaddedField(d.day, 2);
    var s := DateLabel(d);
    assert s == ym + "-" + dd;
    assert s[..4] == ym[..4] && s[4] == ym[4] && s[5..7] == ym[5..] && s[7] == '-' && s[8..] == dd;
  }

  /** "yyyy" prints the year of era without the era, so 1 BCE (proleptic
      year 0) and 1 CE get the same label; from year 10000 on the label
      gains a leading '+'. */
  lemma YearOfEraLabels()
    ensures YearText(0) == YearText(1) == "0001"
    ensures DateLabel(Date(0, 1, 1)) == DateLabel(Date(1, 1, 1))
    ensures YearText(10000) == "+10000"
  {
    assert NatToString(1) == "1";
    assert Zeros(3) == "000";
    assert NatToString(10000) == "10000" by {
      assert NatToString(1000) == "1000" by {
        assert NatToString(100) == "100" by {
          assert NatToString(10) == "10";
        }
      }
    }
  }
}
