/**
 * `JSON.stringify` on the scalar values a dashboard cell can hold, and
 * reading a JSON string literal back (`JSON.parse`). Strings are escaped as
 * section 24.5.2.3 (QuoteJSONString) of ECMA-262 escapes them: the quote,
 * the backslash and every control character, with the short forms `\b`,
 * `\t`, `\n`, `\f`, `\r` where they exist and `\u00xx` (lower-case hex)
 * otherwise.
 */
module Json {
  import opened Wrappers
  import opened Text

  /** A scalar JSON value; objects and arrays never occur in a cell. */
  datatype Json = JNull | JBool(b: bool) | JNumber(n: int) | JString(s: string)

  function HexDigit(d: nat): (c: char)
    requires d < 16
  {
    if d < 10 then ('0' as int + d) as char else ('a' as int + d - 10) as char
  }

  /** The value of one hexadecimal digit, either case. */
  function HexValue(c: char): Option<nat> {
    if '0' <= c <= '9' then Some(c as int - '0' as int)
    else if 'a' <= c <= 'f' then Some(c as int - 'a' as int + 10)
    else if 'A' <= c <= 'F' then Some(c as int - 'A' as int + 10)
    else None
  }

  lemma HexDigitValue(d: nat)
    requires d < 16
    ensures HexValue(HexDigit(d)) == Some(d)
  {
  }

  /** The escape of one character inside a JSON string literal. */
  function EscapeChar(c: char): (r: string)
    ensures r != [] && '\n' !in r
    ensures r[0] != '\\' ==> r == [c]
  {
    if c == '"' then "\\\""
    else if c == '\\' then "\\\\"
    else if c as int == 8 then "\\b"
    else if c == '\t' then "\\t"
    else if c == '\n' then "\\n"
    else if c as int == 12 then "\\f"
    else if c == '\r' then "\\r"
    else if c as int < 0x20 then "\\u00" + [HexDigit(c as int / 16), HexDigit(c as int % 16)]
    else [c]
  }

  /** The body of a JSON string literal; no line break survives in it. */
  function Escape(s: string): (r: string)
    ensures '\n' !in r
  {
    if s == [] then [] else EscapeChar(s[0]) + Escape(s[1..])
  }

  /** `JSON.stringify(s)` for a string. */
  function Quote(s: string): (r: string)
    ensures |r| >= 2 && r[0] == '"' && r[|r| - 1] == '"'
    ensures '\n' !in r
  {
    "\"" + Escape(s) + "\""
  }

  /** The character a two-character escape `\e` stands for. */
  function Unescaped(e: char): Option<char> {
    if e == '"' then Some('"')
    else if e == '\\' then Some('\\')
    else if e == '/' then Some('/')
    else if e == 'b' then Some(8 as char)
    else if e == 'f' then Some(12 as char)
    else if e == 'n' then Some('\n')
    else if e == 'r' then Some('\r')
    else if e == 't' then Some('\t')
    else None
  }

  /** The value of four hexadecimal digits. */
  function HexQuad(s: string): Option<nat>
    requires |s| == 4
  {
    match (HexValue(s[0]), HexValue(s[1]), HexValue(s[2]), HexValue(s[3]))
    case (Some(a), Some(b), Some(c), Some(d)) => Some(((a * 16 + b) * 16 + c) * 16 + d)
    case _ => None
  }

  /** A code point that is a character (not a surrogate). */
  predicate IsScalar(v: nat) {
    v < 0xD800 || (0xE000 <= v < 0x11_0000)
  }

  function Prepend(c: char, rest: Option<string>): Option<string> {
    match rest
    case None => None
    case Some(t) => Some([c] + t)
  }

  /** Reads the body of a JSON string literal; `None` when it is not well formed. */
  function Unescape(s: string): Option<string>
    decreases |s|
  {
    if s == [] then Some([])
    else if s[0] == '\\' then
      if |s| < 2 then None
      else if s[1] == 'u' then
        if |s| < 6 then None
        else match HexQuad(s[2..6])
          case None => None
          case Some(v) => if IsScalar(v) then Prepend(v as char, Unescape(s[6..])) else None
      else match Unescaped(s[1])
        case None => None
        case Some(c) => Prepend(c, Unescape(s[2..]))
    else if s[0] == '"' || s[0] as int < 0x20 then None
    else Prepend(s[0], Unescape(s[1..]))
  }

  /** `JSON.parse` of a string literal. */
  function ParseString(q: string): Option<string> {
    if |q| >= 2 && q[0] == '"' && q[|q| - 1] == '"' then Unescape(q[1..|q| - 1]) else None
  }

  /** Reading an escaped character back gives the character, whatever follows it. */
  lemma UnescapeEscapeChar(c: char, rest: string)
    ensures Unescape(EscapeChar(c) + rest) == Prepend(c, Unescape(rest))
  {
    var e := EscapeChar(c);
    var s := e + rest;
    if c as int < 0x20 && c != '\t' && c != '\n' && c != '\r' && c as int != 8 && c as int != 12 {
      var hi := c as int / 16;
      var lo := c as int % 16;
      assert s[2..6] == ['0', '0', HexDigit(hi), HexDigit(lo)];
      HexDigitValue(hi);
      HexDigitValue(lo);
      assert s[6..] == rest;
    } else if e[0] == '\\' {
      assert s[2..] == rest;
    } else {
      assert s[1..] == rest;
    }
  }

  /** `JSON.parse` undoes the escaping of `JSON.stringify`. */
  lemma {:induction false} EscapeRoundTrip(s: string)
    ensures Unescape(Escape(s)) == Some(s)
  {
    if s != [] {
      EscapeRoundTrip(s[1..]);
      UnescapeEscapeChar(s[0], Escape(s[1..]));
      assert [s[0]] + s[1..] == s;
    }
  }

  lemma QuoteRoundTrip(s: string)
    ensures ParseString(Quote(s)) == Some(s)
  {
    var q := Quote(s);
    assert q[1..|q| - 1] == Escape(s);
    EscapeRoundTrip(s);
  }

  /** Different strings are written differently. */
  lemma QuoteInjective(s: string, t: string)
    requires Quote(s) == Quote(t)
    ensures s == t
  {
    QuoteRoundTrip(s);
    QuoteRoundTrip(t);
  }

  /** `JSON.stringify(v)` */
  function Stringify(v: Json): (r: string)
    ensures '\n' !in r
    ensures v.JString? ==> ParseString(r) == Some(v.s)
    ensures v.JNumber? ==> ParseInt(r) == Some(v.n)
    ensures v.JBool? ==> r == (if v.b then "true" else "false")
  {
    match v
    case JNull => "null"
    case JBool(b) => if b then "true" else "false"
    case JNumber(n) => DecimalHasNoBreak(n); IntToDecimalRoundTrip(n); IntToDecimal(n)
    case JString(s) => QuoteRoundTrip(s); Quote(s)
  }

  lemma DecimalHasNoBreak(n: int)
    ensures '\n' !in IntToDecimal(n)
  {
    var d := NatToDecimal(if n < 0 then -n else n);
    assert forall i :: 0 <= i < |d| ==> IsDigit(d[i]);
  }
}
