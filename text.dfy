/**
 * ASCII strings with the behaviour of the JavaScript string built-ins the
 * system relies on: `toLowerCase`, `toUpperCase`, `trim`, `includes`,
 * `indexOf`, `lastIndexOf`, `replace` with a string pattern, `String(n)` for
 * integers, `parseInt(s, 10)` and the default `<` comparison used by `sort()`.
 */
module Text {
  import opened Wrappers

  predicate IsUpperLetter(c: char) { 'A' <= c <= 'Z' }
  predicate IsLowerLetter(c: char) { 'a' <= c <= 'z' }
  predicate IsDigit(c: char) { '0' <= c <= '9' }

  /** The characters the pattern `[a-z0-9]` accepts. */
  predicate IsLowerAlnum(c: char) { IsLowerLetter(c) || IsDigit(c) }

  predicate AllDigits(s: string) { forall i :: 0 <= i < |s| ==> IsDigit(s[i]) }

  /** The white space `trim` and `parseInt` skip, restricted to ASCII. */
  predicate IsWhitespace(c: char) {
    c == ' ' || c == '\t' || c == '\n' || c == '\r' || c as int == 0x0B || c as int == 0x0C
  }

  // ----- case mapping -----

  function LowerChar(c: char): char {
    if IsUpperLetter(c) then (c as int + 32) as char else c
  }

  function UpperChar(c: char): char {
    if IsLowerLetter(c) then (c as int - 32) as char else c
  }

  /** `s.toLowerCase()` */
  function ToLower(s: string): (r: string)
    ensures |r| == |s|
    ensures forall i :: 0 <= i < |s| ==> r[i] == LowerChar(s[i])
  {
    seq(|s|, i requires 0 <= i < |s| => LowerChar(s[i]))
  }

  /** `s.toUpperCase()` */
  function ToUpper(s: string): (r: string)
    ensures |r| == |s|
    ensures forall i :: 0 <= i < |s| ==> r[i] == UpperChar(s[i])
  {
    seq(|s|, i requires 0 <= i < |s| => UpperChar(s[i]))
  }

  // ----- trim -----

  function TrimStart(s: string): (r: string)
    ensures |r| <= |s| && r == s[|s| - |r|..]
    ensures r == [] || !IsWhitespace(r[0])
    ensures forall i :: 0 <= i < |s| - |r| ==> IsWhitespace(s[i])
  {
    if s != [] && IsWhitespace(s[0]) then TrimStart(s[1..]) else s
  }

  function TrimEnd(s: string): (r: string)
    ensures |r| <= |s| && r == s[..|r|]
    ensures r == [] || !IsWhitespace(r[|r| - 1])
    ensures forall i :: |r| <= i < |s| ==> IsWhitespace(s[i])
  {
    if s != [] && IsWhitespace(s[|s| - 1]) then TrimEnd(s[..|s| - 1]) else s
  }

  /** No white space at either end. */
  predicate IsTrimmed(s: string) {
    s == [] || (!IsWhitespace(s[0]) && !IsWhitespace(s[|s| - 1]))
  }

  /** `r` is `s[i..i + |r|]` and everything around it in `s` is white space. */
  predicate CutAt(s: string, r: string, i: nat) {
    && i + |r| <= |s| && r == s[i..i + |r|]
    && (forall j :: 0 <= j < i ==> IsWhitespace(s[j]))
    && (forall j :: i + |r| <= j < |s| ==> IsWhitespace(s[j]))
  }

  /**
   * `s.trim()`: the slice of `s` left after removing the white space at both
   * ends; everything removed is white space and what is left has none at
   * either end.
   */
  function Trim(s: string): (r: string)
    ensures IsTrimmed(r)
    ensures exists i :: 0 <= i <= |s| && CutAt(s, r, i)
  {
    var t := TrimStart(s);
    var r := TrimEnd(t);
    assert CutAt(s, r, |s| - |t|);
    r
  }

  lemma TrimOfTrimmed(s: string)
    requires IsTrimmed(s)
    ensures Trim(s) == s
  {
  }

  /** Trimming twice is trimming once. */
  lemma TrimIdempotent(s: string)
    ensures Trim(Trim(s)) == Trim(s)
  {
    TrimOfTrimmed(Trim(s));
  }

  predicate AllWhitespace(s: string) {
    forall i :: 0 <= i < |s| ==> IsWhitespace(s[i])
  }

  lemma {:induction false} TrimStartSkips(a: string, s: string)
    requires AllWhitespace(a)
    requires s == [] || !IsWhitespace(s[0])
    ensures TrimStart(a + s) == s
  {
    if a == [] {
      assert a + s == s;
    } else {
      assert (a + s)[1..] == a[1..] + s;
      TrimStartSkips(a[1..], s);
    }
  }

  lemma {:induction false} TrimEndSkips(s: string, b: string)
    requires AllWhitespace(b)
    requires s == [] || !IsWhitespace(s[|s| - 1])
    ensures TrimEnd(s + b) == s
  {
    if b == [] {
      assert s + b == s;
    } else {
      assert (s + b)[..|s + b| - 1] == s + b[..|b| - 1];
      TrimEndSkips(s, b[..|b| - 1]);
    }
  }

  /** Trimming removes exactly the white space around a trimmed text. */
  lemma {:induction false} TrimSurrounded(a: string, t: string, b: string)
    requires AllWhitespace(a) && AllWhitespace(b) && IsTrimmed(t)
    ensures Trim(a + t + b) == t
  {
    if t == [] {
      assert a + t + b == (a + b) + [];
      TrimStartSkips(a + b, []);
    } else {
      assert a + t + b == a + (t + b);
      TrimStartSkips(a, t + b);
      TrimEndSkips(t, b);
    }
  }

  lemma CutDecompose(h: string, t: string, i: nat)
    requires CutAt(h, t, i)
    ensures h == h[..i] + t + h[i + |t|..]
    ensures AllWhitespace(h[..i]) && AllWhitespace(h[i + |t|..])
  {
  }

  lemma ConcatAssoc(a: string, pre: string, t: string, post: string, b: string)
    ensures a + (pre + t + post) + b == (a + pre) + t + (post + b)
  {
  }

  lemma ToUpperConcat(x: string, y: string)
    ensures ToUpper(x + y) == ToUpper(x) + ToUpper(y)
  {
  }

  lemma ToUpperKeepsWhitespace(s: string)
    ensures AllWhitespace(s) ==> AllWhitespace(ToUpper(s))
    ensures IsTrimmed(s) ==> IsTrimmed(ToUpper(s))
  {
  }

  /** White space added around a text does not change its trimmed form. */
  lemma {:induction false} TrimIgnoresPadding(a: string, h: string, b: string)
    requires AllWhitespace(a) && AllWhitespace(b)
    ensures Trim(a + h + b) == Trim(h)
  {
    var t := Trim(h);
    var i :| 0 <= i <= |h| && CutAt(h, t, i);
    var pre, post := h[..i], h[i + |t|..];
    CutDecompose(h, t, i);
    assert a + h + b == a + (pre + t + post) + b;
    ConcatAssoc(a, pre, t, post, b);
    WhitespaceConcat(a, pre);
    WhitespaceConcat(post, b);
    TrimSurrounded(a + pre, t, post + b);
  }

  /** Trimming leaves nothing only of a text that is all white space. */
  lemma TrimToNothing(s: string)
    ensures Trim(s) == [] ==> AllWhitespace(s)
  {
    if Trim(s) == [] {
      var i :| 0 <= i <= |s| && CutAt(s, [], i);
      forall k | 0 <= k < |s| ensures IsWhitespace(s[k]) {
        if k < i {} else {}
      }
    }
  }

  lemma WhitespaceConcat(x: string, y: string)
    requires AllWhitespace(x) && AllWhitespace(y)
    ensures AllWhitespace(x + y)
  {
    forall k | 0 <= k < |x + y| ensures IsWhitespace((x + y)[k]) {
      if k >= |x| { assert (x + y)[k] == y[k - |x|]; }
    }
  }

  /** Trimming and upper-casing commute: case mapping keeps white space where it is. */
  lemma {:induction false} TrimToUpper(h: string)
    ensures Trim(ToUpper(h)) == ToUpper(Trim(h))
  {
    var t := Trim(h);
    var i :| 0 <= i <= |h| && CutAt(h, t, i);
    var pre, post := h[..i], h[i + |t|..];
    CutDecompose(h, t, i);
    ToUpperConcat(pre + t, post);
    ToUpperConcat(pre, t);
    ToUpperKeepsWhitespace(pre);
    ToUpperKeepsWhitespace(t);
    ToUpperKeepsWhitespace(post);
    TrimSurrounded(ToUpper(pre), ToUpper(t), ToUpper(post));
  }

  // ----- substring search -----

  predicate OccursAt(s: string, pat: string, i: nat) {
    i + |pat| <= |s| && s[i..i + |pat|] == pat
  }

  /** `s.includes(pat)` */
  predicate Contains(s: string, pat: string) {
    exists i :: 0 <= i <= |s| && OccursAt(s, pat, i)
  }

  lemma OccursAtShift(s: string, pat: string)
    requires s != []
    ensures forall j: nat :: OccursAt(s[1..], pat, j) <==> OccursAt(s, pat, j + 1)
    ensures forall j :: 1 <= j ==> (OccursAt(s, pat, j) <==> OccursAt(s[1..], pat, j - 1))
  {
    forall j: nat ensures OccursAt(s[1..], pat, j) <==> OccursAt(s, pat, j + 1) {
      if j + 1 + |pat| <= |s| {
        assert s[1..][j..j + |pat|] == s[j + 1..j + 1 + |pat|];
      }
    }
  }

  /** `s.indexOf(pat)`: the first position where `pat` occurs, or -1. */
  function IndexOf(s: string, pat: string): (r: int)
    ensures -1 <= r <= |s|
    ensures r == -1 <==> !Contains(s, pat)
    ensures r >= 0 ==> OccursAt(s, pat, r) && forall j :: 0 <= j < r ==> !OccursAt(s, pat, j)
    decreases |s|
  {
    if |s| < |pat| then
      -1
    else if s[..|pat|] == pat then
      assert OccursAt(s, pat, 0);
      0
    else
      assert !OccursAt(s, pat, 0);
      OccursAtShift(s, pat);
      var k := IndexOf(s[1..], pat);
      if k < 0 then
        -1
      else
        assert OccursAt(s[1..], pat, k);
        k + 1
  }

  /** `s.replace(pat, rep)` for a string pattern: only the first occurrence is replaced. */
  function ReplaceFirst(s: string, pat: string, rep: string): string {
    var i := IndexOf(s, pat);
    if i < 0 then s else s[..i] + rep + s[i + |pat|..]
  }

  /** Replacing a leading pattern by nothing leaves what follows it. */
  lemma ReplaceLeading(pat: string, s: string)
    ensures ReplaceFirst(pat + s, pat, "") == s
  {
    assert OccursAt(pat + s, pat, 0);
    assert (pat + s)[|pat|..] == s;
  }

  /** A text in which the pattern does not occur is left as it is. */
  lemma ReplaceAbsent(s: string, pat: string, rep: string)
    requires !Contains(s, pat)
    ensures ReplaceFirst(s, pat, rep) == s
  {
  }

  /** `s.lastIndexOf(c)` for a one-character pattern. */
  function LastIndexOf(s: string, c: char): (r: int)
    ensures -1 <= r < |s|
    ensures r >= 0 ==> s[r] == c && forall j :: r < j < |s| ==> s[j] != c
    ensures r == -1 ==> c !in s
  {
    if s == [] then -1
    else if s[|s| - 1] == c then |s| - 1
    else LastIndexOf(s[..|s| - 1], c)
  }

  // ----- decimal numerals -----

  function DigitChar(d: nat): (c: char)
    requires d < 10
    ensures IsDigit(c)
  {
    ('0' as int + d) as char
  }

  function DigitValue(c: char): nat
    requires IsDigit(c)
  {
    c as int - '0' as int
  }

  /** The decimal numeral of `n`, without leading zeros. */
  function NatToDecimal(n: nat): (r: string)
    ensures r != [] && AllDigits(r)
    ensures r[0] == '0' <==> n == 0
    decreases n
  {
    if n < 10 then [DigitChar(n)] else NatToDecimal(n / 10) + [DigitChar(n % 10)]
  }

  /** `String(i)` for an integer-valued number. */
  function IntToDecimal(i: int): string {
    if i < 0 then "-" + NatToDecimal(-i) else NatToDecimal(i)
  }

  /** The value of a string of decimal digits (0 for the empty string). */
  function DigitsValue(s: string): nat
    requires AllDigits(s)
  {
    if s == [] then 0 else DigitsValue(s[..|s| - 1]) * 10 + DigitValue(s[|s| - 1])
  }

  /** Reading back a numeral gives the number it was written from. */
  lemma {:induction false} DecimalRoundTrip(n: nat)
    ensures DigitsValue(NatToDecimal(n)) == n
    decreases n
  {
    if n >= 10 {
      DecimalRoundTrip(n / 10);
      var r := NatToDecimal(n);
      assert r[..|r| - 1] == NatToDecimal(n / 10);
    }
  }

  /** The longest prefix of `s` made of digits. */
  function DigitPrefix(s: string): (r: string)
    ensures AllDigits(r) && |r| <= |s| && r == s[..|r|]
    ensures |r| < |s| ==> !IsDigit(s[|r|])
  {
    if s != [] && IsDigit(s[0]) then [s[0]] + DigitPrefix(s[1..]) else []
  }

  /**
   * `parseInt(s, 10)`: skip leading white space, read an optional sign and
   * then as many digits as there are; `None` (NaN) when there are none.
   */
  function ParseInt(s: string): Option<int> {
    var t := TrimStart(s);
    var negative := t != [] && t[0] == '-';
    var rest := if t != [] && (t[0] == '-' || t[0] == '+') then t[1..] else t;
    var digits := DigitPrefix(rest);
    var value: int := DigitsValue(digits);
    if digits == [] then None
    else if negative then Some(-value)
    else Some(value)
  }

  lemma DigitPrefixOfDigits(s: string, tail: string)
    requires AllDigits(s)
    requires tail == [] || !IsDigit(tail[0])
    ensures DigitPrefix(s + tail) == s
  {
    if s != [] {
      assert (s + tail)[1..] == s[1..] + tail;
      DigitPrefixOfDigits(s[1..], tail);
    } else {
      assert s + tail == tail;
    }
  }

  /** `parseInt` reads a numeral back, and stops at the first character that is not a digit. */
  lemma ParseIntOfNumeral(n: nat, tail: string)
    requires tail == [] || !IsDigit(tail[0])
    ensures ParseInt(NatToDecimal(n) + tail) == Some(n)
  {
    var d := NatToDecimal(n);
    var s := d + tail;
    assert s[0] == d[0] && IsDigit(s[0]);
    TrimStartOfNonSpace(s);
    DigitPrefixOfDigits(d, tail);
    DecimalRoundTrip(n);
  }

  /** `parseInt(String(i))` is `i`, for negative integers too. */
  lemma IntToDecimalRoundTrip(i: int)
    ensures ParseInt(IntToDecimal(i)) == Some(i)
  {
    if i < 0 {
      ParseIntOfMinus(-i);
    } else {
      assert IntToDecimal(i) == NatToDecimal(i) + [];
      ParseIntOfNumeral(i, []);
    }
  }

  /** `parseInt` of a minus sign followed by the numeral of `n` is `-n`. */
  lemma ParseIntOfMinus(n: nat)
    requires n > 0
    ensures ParseInt(IntToDecimal(-(n as int))) == Some(-(n as int))
  {
    var d := NatToDecimal(n);
    var s := "-" + d;
    assert IntToDecimal(-(n as int)) == s;
    assert s[0] == '-' && !IsWhitespace(s[0]);
    TrimStartOfNonSpace(s);
    assert s[1..] == d;
    DigitPrefixOfDigits(d, []);
    assert d + [] == d;
    assert DigitPrefix(d) == d;
    DecimalRoundTrip(n);
  }

  lemma TrimStartOfNonSpace(s: string)
    requires s != [] && !IsWhitespace(s[0])
    ensures TrimStart(s) == s
  {
  }

  // ----- the default string order of `sort()` -----

  /**
   * `a < b` on strings: character by character, by code point, a proper
   * prefix first. This is the code-unit order of `sort()` on characters
   * inside the Basic Multilingual Plane.
   */
  predicate Less(a: string, b: string)
    decreases |a|
  {
    if a == [] then b != []
    else if b == [] then false
    else if a[0] != b[0] then a[0] < b[0]
    else Less(a[1..], b[1..])
  }

  lemma {:induction false} LessIrreflexive(a: string)
    ensures !Less(a, a)
    decreases |a|
  {
    if a != [] { LessIrreflexive(a[1..]); }
  }

  lemma {:induction false} LessTransitive(a: string, b: string, c: string)
    requires Less(a, b) && Less(b, c)
    ensures Less(a, c)
    decreases |a|
  {
    if a != [] && a[0] == b[0] && b[0] == c[0] {
      LessTransitive(a[1..], b[1..], c[1..]);
    }
  }

  lemma {:induction false} LessTotal(a: string, b: string)
    ensures a == b || Less(a, b) || Less(b, a)
    decreases |a|
  {
    if a != [] && b != [] && a[0] == b[0] {
      LessTotal(a[1..], b[1..]);
      if a[1..] == b[1..] {
        assert a == [a[0]] + a[1..] && b == [b[0]] + b[1..];
      }
    }
  }

  lemma {:induction false} LessAsymmetric(a: string, b: string)
    requires Less(a, b)
    ensures !Less(b, a)
    decreases |a|
  {
    if a != [] && b != [] && a[0] == b[0] {
      LessAsymmetric(a[1..], b[1..]);
    }
  }
}
