/**
 * Calendar dates as the system prints them: `${yyyy}-${mm}-${dd}` with the
 * year as `String(getFullYear())` and month and day padded to two digits.
 * Turning a cell or a string into a `Date` is the host's business and is
 * not modelled here; what is modelled is the formatting of the fields read
 * back from it, and that the text can be read back into the same fields.
 */
module Dates {
  import opened Wrappers
  import opened Text

  /** The local calendar fields of a parsed `Date`: year, `getMonth() + 1`, `getDate()`. */
  datatype CalendarDate = CalendarDate(year: int, month: int, day: int)

  predicate ValidFields(d: CalendarDate) {
    1 <= d.month <= 12 && 1 <= d.day <= 31
  }

  /** What `getFullYear`, `getMonth` and `getDate` can return for a valid `Date`. */
  type Date = d: CalendarDate | ValidFields(d) witness CalendarDate(1970, 1, 1)

  /** `String(n).padStart(2, '0')` */
  function Pad2(n: nat): (r: string)
    ensures n < 100 ==> |r| == 2 && AllDigits(r) && DigitsValue(r) == n
  {
    var s := NatToDecimal(n);
    DecimalRoundTrip(n);
    if |s| >= 2 then s else "0" + s
  }

  /** `${yyyy}-${mm}-${dd}` */
  function FormatISO(d: Date): string {
    IntToDecimal(d.year) + "-" + Pad2(d.month) + "-" + Pad2(d.day)
  }

  /** Reads back the year of a date: an optional minus sign and at least one digit. */
  function DecodeYear(s: string): Option<int> {
    if s != [] && s[0] == '-' then
      if s[1..] != [] && AllDigits(s[1..]) then Some(-(DigitsValue(s[1..]) as int)) else None
    else if s != [] && AllDigits(s) then Some(DigitsValue(s))
    else None
  }

  /**
   * Reads `<year>-<mm>-<dd>` from the end: the last two characters are the
   * day, the two before the second-to-last dash the month, the rest the year.
   */
  function DecodeISO(s: string): Option<CalendarDate> {
    if |s| < 7 || s[|s| - 6] != '-' || s[|s| - 3] != '-' then None
    else
      var month := s[|s| - 5..|s| - 3];
      var day := s[|s| - 2..];
      if !AllDigits(month) || !AllDigits(day) then None
      else match DecodeYear(s[..|s| - 6])
        case None => None
        case Some(year) => Some(CalendarDate(year, DigitsValue(month), DigitsValue(day)))
  }

  lemma DecodeYearRoundTrip(y: int)
    ensures DecodeYear(IntToDecimal(y)) == Some(y)
  {
    DecimalRoundTrip(if y < 0 then -y else y);
    if y < 0 {
      assert IntToDecimal(y)[1..] == NatToDecimal(-y);
    } else {
      assert NatToDecimal(y)[0] != '-';
    }
  }

  /** The printed date reads back as the fields it was printed from. */
  lemma FormatRoundTrip(d: Date)
    ensures DecodeISO(FormatISO(d)) == Some(d)
  {
    var y := IntToDecimal(d.year);
    var s := FormatISO(d);
    assert |y| >= 1;
    assert s[..|s| - 6] == y;
    assert s[|s| - 5..|s| - 3] == Pad2(d.month);
    assert s[|s| - 2..] == Pad2(d.day);
    DecodeYearRoundTrip(d.year);
  }

  /** Different dates are printed differently. */
  lemma FormatInjective(d1: Date, d2: Date)
    requires FormatISO(d1) == FormatISO(d2)
    ensures d1 == d2
  {
    FormatRoundTrip(d1);
    FormatRoundTrip(d2);
  }

  function Pow10(k: nat): nat {
    if k == 0 then 1 else 10 * Pow10(k - 1)
  }

  lemma {:induction false} DecimalLength(n: nat, k: nat)
    requires Pow10(k) <= n < Pow10(k + 1)
    ensures |NatToDecimal(n)| == k + 1
    decreases k
  {
    if k > 0 {
      DecimalLength(n / 10, k - 1);
    }
  }

  /** With a four-digit year the text is exactly `YYYY-MM-DD`: ten characters, digits and two dashes. */
  lemma FourDigitYearShape(d: Date)
    requires 1000 <= d.year <= 9999
    ensures var s := FormatISO(d);
      && |s| == 10 && s[4] == '-' && s[7] == '-'
      && AllDigits(s[..4]) && AllDigits(s[5..7]) && AllDigits(s[8..])
  {
    DecimalLength(d.year, 3);
    var s := FormatISO(d);
    assert s[..4] == NatToDecimal(d.year);
    assert s[5..7] == Pad2(d.month);
    assert s[8..] == Pad2(d.day);
  }

  /**
   * A year as `String` writes it: an optional minus sign, then decimal
   * digits with no leading zero, the year 0 being the single digit "0".
   */
  predicate CanonicalYear(y: string) {
    if y != [] && y[0] == '-' then |y| > 1 && AllDigits(y[1..]) && y[1] != '0'
    else y != [] && AllDigits(y) && (y[0] == '0' ==> |y| == 1)
  }

  /** A date text as the system prints it: a canonical year, then a two-digit month and day. */
  predicate CanonicalISO(s: string) {
    && |s| >= 7 && s[|s| - 6] == '-' && s[|s| - 3] == '-'
    && AllDigits(s[|s| - 5..|s| - 3]) && AllDigits(s[|s| - 2..])
    && CanonicalYear(s[..|s| - 6])
  }

  lemma NatToDecimalCanonical(n: nat)
    ensures CanonicalYear(NatToDecimal(n))
  {
    if n < 10 {
      assert |NatToDecimal(n)| == 1;
    }
  }

  /** Printed dates are canonical: no zero-padded year. */
  lemma FormatCanonical(d: Date)
    ensures CanonicalISO(FormatISO(d))
  {
    var y := IntToDecimal(d.year);
    var s := FormatISO(d);
    assert s[..|s| - 6] == y;
    assert s[|s| - 5..|s| - 3] == Pad2(d.month);
    assert s[|s| - 2..] == Pad2(d.day);
    NatToDecimalCanonical(if d.year < 0 then -d.year else d.year);
    if d.year < 0 {
      assert y[1..] == NatToDecimal(-d.year);
    } else {
      assert y == NatToDecimal(d.year);
      assert y[0] != '-';
    }
  }

  /** Canonical digits are the decimal numeral of their value. */
  lemma {:induction false} CanonicalDigits(y: string)
    requires y != [] && AllDigits(y) && (y[0] == '0' ==> |y| == 1)
    ensures NatToDecimal(DigitsValue(y)) == y
    decreases |y|
  {
    var c := y[|y| - 1];
    if |y| == 1 {
      assert NatToDecimal(DigitValue(c)) == [DigitChar(DigitValue(c))];
    } else {
      var init := y[..|y| - 1];
      assert init[0] == y[0];
      CanonicalDigits(init);
      var n := DigitsValue(y);
      assert n == DigitsValue(init) * 10 + DigitValue(c);
      assert DigitsValue(init) != 0;
      assert n / 10 == DigitsValue(init) && n % 10 == DigitValue(c);
      assert y == init + [c];
    }
  }

  /** Two digits are `padStart(2, '0')` of their value. */
  lemma TwoDigits(m: string)
    requires |m| == 2 && AllDigits(m)
    ensures Pad2(DigitsValue(m)) == m
  {
    assert m[..1][..0] == [];
    assert DigitsValue(m[..1]) == DigitValue(m[0]);
    var v := DigitsValue(m);
    assert v == DigitValue(m[0]) * 10 + DigitValue(m[1]);
    if DigitValue(m[0]) == 0 {
      assert NatToDecimal(v) == [DigitChar(v)];
    } else {
      assert v / 10 == DigitValue(m[0]) && v % 10 == DigitValue(m[1]);
      assert NatToDecimal(v / 10) == [DigitChar(v / 10)];
    }
  }

  /** A canonical year is `String` of the year it reads back as. */
  lemma CanonicalYearPrinted(y: string, year: int)
    requires CanonicalYear(y) && DecodeYear(y) == Some(year)
    ensures y == IntToDecimal(year)
  {
    if y[0] == '-' {
      CanonicalDigits(y[1..]);
      assert y == "-" + y[1..];
    } else {
      CanonicalDigits(y);
    }
  }

  /** A canonical text that reads back as a date is exactly that date printed. */
  lemma CanonicalDecodeUnique(s: string, d: Date)
    requires CanonicalISO(s) && DecodeISO(s) == Some(d)
    ensures s == FormatISO(d)
  {
    var y := s[..|s| - 6];
    var month := s[|s| - 5..|s| - 3];
    var day := s[|s| - 2..];
    TwoDigits(month);
    TwoDigits(day);
    CanonicalYearPrinted(y, d.year);
    assert s == y + "-" + month + "-" + day;
  }
}
