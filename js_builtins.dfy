/** The JavaScript built-ins the core relies on: `String.prototype.trim`,
    `Number.isInteger`, `Number.parseInt(s, 10)` and the decimal rendering of
    an integer in a template literal. */
module JsBuiltins {
  import opened Wrappers

  /** WhiteSpace and LineTerminator code points of ECMAScript: what `trim`
      removes and what `parseInt` skips before the number. */
  predicate IsWhitespace(c: char) {
    || c == '\t' || c == '\n' || c == '\U{B}' || c == '\U{C}' || c == '\r'
    || c == ' ' || c == '\U{A0}' || c == '\U{1680}'
    || ('\U{2000}' <= c <= '\U{200A}')
    || c == '\U{2028}' || c == '\U{2029}' || c == '\U{202F}' || c == '\U{205F}'
    || c == '\U{3000}' || c == '\U{FEFF}'
  }

  /** Every character is whitespace (the empty string included). */
  predicate Blank(s: string) {
    forall i :: 0 <= i < |s| ==> IsWhitespace(s[i])
  }

  /** Leading whitespace removed. */
  function TrimStart(s: string): string {
    if s != [] && IsWhitespace(s[0]) then TrimStart(s[1..]) else s
  }

  /** Trailing whitespace removed. */
  function TrimEnd(s: string): string {
    if s != [] && IsWhitespace(s[|s| - 1]) then TrimEnd(s[..|s| - 1]) else s
  }

  /** TrimStart gives the suffix of `s` that is empty or starts with a
      non-whitespace character, everything before it being whitespace. */
  lemma {:induction false} TrimStartSpec(s: string)
    ensures var r := TrimStart(s);
      && |r| <= |s| && r == s[|s| - |r|..]
      && Blank(s[..|s| - |r|])
      && (r == [] || !IsWhitespace(r[0]))
  {
    if s != [] && IsWhitespace(s[0]) {
      TrimStartSpec(s[1..]);
      var r := TrimStart(s);
      assert s[..|s| - |r|] == [s[0]] + s[1..][..|s| - 1 - |r|];
    }
  }

  /** TrimEnd gives the prefix of `s` that is empty or ends with a
      non-whitespace character, everything after it being whitespace. */
  lemma {:induction false} TrimEndSpec(s: string)
    ensures var r := TrimEnd(s);
      && |r| <= |s| && r == s[..|r|]
      && Blank(s[|r|..])
      && (r == [] || !IsWhitespace(r[|r| - 1]))
  {
    if s != [] && IsWhitespace(s[|s| - 1]) {
      var p := s[..|s| - 1];
      TrimEndSpec(p);
      var r := TrimEnd(s);
      assert s[|r|..] == p[|r|..] + [s[|s| - 1]];
    }
  }

  /** `String.prototype.trim`. */
  function Trim(s: string): (r: string)
    ensures |r| <= |s|
    ensures r != [] ==> !IsWhitespace(r[0]) && !IsWhitespace(r[|r| - 1])
  {
    var t := TrimStart(s);
    TrimStartSpec(s);
    TrimEndSpec(t);
    TrimEnd(t)
  }

  /** `!s.trim()` holds exactly for the strings made of whitespace only. */
  lemma TrimEmptyIffBlank(s: string)
    ensures Trim(s) == [] <==> Blank(s)
  {
    var t := TrimStart(s);
    var k := |s| - |t|;
    TrimStartSpec(s);
    TrimEndSpec(t);
    if Blank(s) {
      // t is a suffix of s, so all of it is whitespace: it must be empty
      assert Blank(s[k..]);
    }
    if Trim(s) == [] {
      // TrimEnd(t) is empty, so all of t is whitespace, and so is s[..k]
      assert Blank(t[0..]);
      assert s == s[..k] + t;
    }
  }

  /** A JavaScript number value. */
  datatype Number = Finite(value: real) | NaN | Infinity | NegInfinity

  /** `Number.isInteger`: finite and without a fractional part. */
  predicate IsInteger(x: Number) {
    x.Finite? && x.value == x.value.Floor as real
  }

  predicate IsDigit(c: char) {
    '0' <= c <= '9'
  }

  /** The longest prefix of `s` made of decimal digits. */
  function LeadingDigits(s: string): (d: string)
    ensures |d| <= |s| && d == s[..|d|]
    ensures forall i :: 0 <= i < |d| ==> IsDigit(d[i])
    ensures |d| == |s| || !IsDigit(s[|d|])
  {
    if s != [] && IsDigit(s[0]) then [s[0]] + LeadingDigits(s[1..]) else []
  }

  /** The value of a string of decimal digits, most significant first. */
  function DigitsValue(d: string): (n: nat)
    requires forall i :: 0 <= i < |d| ==> IsDigit(d[i])
  {
    if d == [] then 0
    else
      assert IsDigit(d[|d| - 1]);
      DigitsValue(d[..|d| - 1]) * 10 + (d[|d| - 1] as int - '0' as int)
  }

  /** `Number.parseInt(s, 10)`, with None for NaN: leading whitespace is
      skipped, one optional sign is read, then the longest run of decimal
      digits; no digit at all gives NaN. */
  function ParseInt(s: string): (r: Option<int>)
    ensures r.Some? <==> LeadingDigits(SignStripped(TrimStart(s))) != []
  {
    var t := TrimStart(s);
    var digits := LeadingDigits(SignStripped(t));
    if digits == [] then None
    else if t[0] == '-' then Some(0 - DigitsValue(digits))
    else Some(DigitsValue(digits))
  }

  /** The text after one leading `+` or `-`, if there is one. */
  function SignStripped(t: string): string {
    if t != [] && (t[0] == '-' || t[0] == '+') then t[1..] else t
  }

  /** The decimal digits of a natural number, without leading zeros. */
  function NatDigits(n: nat): (d: string)
    ensures d != [] && forall i :: 0 <= i < |d| ==> IsDigit(d[i])
  {
    var last := ['0' + (n % 10) as char];
    if n < 10 then last else NatDigits(n / 10) + last
  }

  /** `${n}` for an integer-valued number: a minus sign before the digits of a
      negative value. */
  function DecimalString(n: int): string {
    if n < 0 then "-" + NatDigits(-n) else NatDigits(n)
  }

  lemma {:induction false} DigitsValueOfNatDigits(n: nat)
    ensures DigitsValue(NatDigits(n)) == n
  {
    var d := NatDigits(n);
    if n >= 10 {
      DigitsValueOfNatDigits(n / 10);
      assert d[..|d| - 1] == NatDigits(n / 10);
    }
  }

  lemma {:induction false} LeadingDigitsOfDigits(d: string, rest: string)
    requires forall i :: 0 <= i < |d| ==> IsDigit(d[i])
    requires rest == [] || !IsDigit(rest[0])
    ensures LeadingDigits(d + rest) == d
  {
    if d != [] {
      assert (d + rest)[1..] == d[1..] + rest;
      LeadingDigitsOfDigits(d[1..], rest);
    }
  }

  /** `parseInt` of a string with no leading whitespace that starts with a
      minus sign followed by the digits `d`. */
  lemma ParseIntOfNegativeRun(s: string, d: string)
    requires d != [] && forall i :: 0 <= i < |d| ==> IsDigit(d[i])
    requires TrimStart(s) == s && LeadingDigits(SignStripped(s)) == d && s[0] == '-'
    ensures ParseInt(s) == Some(0 - DigitsValue(d))
  {
  }

  /** `parseInt` of a string with no leading whitespace and no minus sign
      whose digits after an optional plus sign are `d`. */
  lemma ParseIntOfNonNegativeRun(s: string, d: string)
    requires d != [] && forall i :: 0 <= i < |d| ==> IsDigit(d[i])
    requires TrimStart(s) == s && LeadingDigits(SignStripped(s)) == d && s[0] != '-'
    ensures ParseInt(s) == Some(DigitsValue(d))
  {
  }

  /** Text that begins with a digit has no leading whitespace and no sign. */
  lemma DigitFirstUntrimmed(s: string)
    requires s != [] && IsDigit(s[0])
    ensures TrimStart(s) == s && SignStripped(s) == s
  {
  }

  /** Text that begins with a minus sign has no leading whitespace, and the
      sign is what is stripped. */
  lemma MinusFirstUntrimmed(s: string)
    requires s != [] && s[0] == '-'
    ensures TrimStart(s) == s && SignStripped(s) == s[1..]
  {
  }

  /** `parseInt` reads a run of digits up to the first non-digit. */
  lemma ParseIntOfDigits(d: string, rest: string)
    requires d != [] && forall i :: 0 <= i < |d| ==> IsDigit(d[i])
    requires rest == [] || !IsDigit(rest[0])
    ensures ParseInt(d + rest) == Some(DigitsValue(d))
  {
    var s := d + rest;
    assert s[0] == d[0];
    DigitFirstUntrimmed(s);
    LeadingDigitsOfDigits(d, rest);
    ParseIntOfNonNegativeRun(s, d);
  }

  /** `parseInt` reads a minus sign and a run of digits up to the first non-digit. */
  lemma ParseIntOfNegatedDigits(d: string, rest: string)
    requires d != [] && forall i :: 0 <= i < |d| ==> IsDigit(d[i])
    requires rest == [] || !IsDigit(rest[0])
    ensures ParseInt("-" + d + rest) == Some(0 - DigitsValue(d))
  {
    var u := d + rest;
    var t := "-" + d + rest;
    assert t == ['-'] + u;
    assert t[0] == '-' && t[1..] == u;
    MinusFirstUntrimmed(t);
    LeadingDigitsOfDigits(d, rest);
    ParseIntOfNegativeRun(t, d);
  }

  /** Reading back the decimal rendering of an integer recovers it, whatever
      non-digit text follows the digits. */
  lemma ParseIntOfDecimalString(n: int, rest: string)
    requires rest == [] || !IsDigit(rest[0])
    ensures ParseInt(DecimalString(n) + rest) == Some(n)
  {
    if n < 0 {
      ParseIntOfNegatedDigits(NatDigits(-n), rest);
      DigitsValueOfNatDigits(-n);
    } else {
      ParseIntOfDigits(NatDigits(n), rest);
      DigitsValueOfNatDigits(n);
    }
  }
}
