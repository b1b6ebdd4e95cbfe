/**
 * The two JavaScript number conversions the size selector relies on:
 * `Number.parseInt(s)` with no radix (NaN is `None`) and `String(n)` for the
 * integers it can return.
 */
module JsNumber {
  import opened Text

  /** The white space and line terminators `parseInt` skips before the number. */
  predicate IsJsWhitespace(c: char) {
    || c == '\t' || c == '\n' || c == '\U{000B}' || c == '\U{000C}' || c == '\r' || c == ' '
    || c == '\U{00A0}' || c == '\U{1680}' || ('\U{2000}' <= c <= '\U{200A}')
    || c == '\U{2028}' || c == '\U{2029}' || c == '\U{202F}' || c == '\U{205F}'
    || c == '\U{3000}' || c == '\U{FEFF}'
  }

  /** `s` without its leading white space: what is removed is all white space, and what is left does not start with any. */
  function TrimStart(s: string): (t: string)
    ensures |t| <= |s| && t == s[|s| - |t|..]
    ensures forall i :: 0 <= i < |s| - |t| ==> IsJsWhitespace(s[i])
    ensures t == [] || !IsJsWhitespace(t[0])
    decreases |s|
  {
    if |s| > 0 && IsJsWhitespace(s[0]) then TrimStart(s[1..]) else s
  }

  predicate IsRadixDigit(c: char, radix: nat) {
    if radix == 16 then IsHexDigit(c) else IsDecimalDigit(c)
  }

  /** The longest prefix of `s` made of digits of the radix (10 or 16). */
  function LeadingDigits(s: string, radix: nat): (z: string)
    ensures |z| <= |s| && z == s[..|z|]
    ensures forall i :: 0 <= i < |z| ==> IsRadixDigit(z[i], radix)
    ensures |z| < |s| ==> !IsRadixDigit(s[|z|], radix)
    decreases |s|
  {
    if |s| > 0 && IsRadixDigit(s[0], radix) then [s[0]] + LeadingDigits(s[1..], radix) else []
  }

  /** The value of a digit string, most significant digit first. */
  function DigitsValue(z: string, radix: nat): nat
    requires forall i :: 0 <= i < |z| ==> IsHexDigit(z[i])
    decreases |z|
  {
    if z == [] then 0 else DigitsValue(z[..|z| - 1], radix) * radix + HexDigitValue(z[|z| - 1])
  }

  /** `Number.parseInt(s)`: skip white space, take a sign, take a `0x` prefix as radix 16, then the longest run of digits. */
  function ParseInt(s: string): Option<int> {
    var t := TrimStart(s);
    var negative := |t| > 0 && t[0] == '-';
    var u := if |t| > 0 && (t[0] == '-' || t[0] == '+') then t[1..] else t;
    var hex := |u| >= 2 && u[0] == '0' && (u[1] == 'x' || u[1] == 'X');
    var radix := if hex then 16 else 10;
    var z := LeadingDigits(if hex then u[2..] else u, radix);
    if z == [] then None
    else
      var n: int := DigitsValue(z, radix);
      Some(if negative then -n else n)
  }

  function DecimalDigit(d: nat): (c: char)
    requires d < 10
    ensures IsDecimalDigit(c) && HexDigitValue(c) == d
  {
    ('0' as int + d) as char
  }

  /** `String(n)` for a natural number: decimal digits, no leading zero. */
  function NatToDecimal(n: nat): (s: string)
    ensures |s| >= 1 && AllDecimal(s)
    ensures s[0] == '0' <==> n == 0
    decreases n
  {
    if n < 10 then [DecimalDigit(n)] else NatToDecimal(n / 10) + [DecimalDigit(n % 10)]
  }

  /** `String(x)` for what `parseInt` returns: NaN, or an integer with a leading `-` when negative. */
  function NumberToString(x: Option<int>): string {
    match x
    case None => "NaN"
    case Some(n) => if n < 0 then "-" + NatToDecimal(-n) else NatToDecimal(n)
  }

  lemma {:induction false} DigitsValueOfNatToDecimal(n: nat)
    ensures DigitsValue(NatToDecimal(n), 10) == n
    decreases n
  {
    if n >= 10 {
      DigitsValueOfNatToDecimal(n / 10);
      var s := NatToDecimal(n);
      assert s[..|s| - 1] == NatToDecimal(n / 10);
    }
  }

  lemma {:induction false} LeadingDigitsOfDigits(s: string)
    requires AllDecimal(s)
    ensures LeadingDigits(s, 10) == s
    decreases |s|
  {
    if |s| > 0 {
      LeadingDigitsOfDigits(s[1..]);
    }
  }

  /** A non-empty decimal digit string parses as its value (leading zeros included). */
  lemma ParseIntOfDigits(s: string)
    requires s != [] && AllDecimal(s)
    ensures ParseInt(s) == Some(DigitsValue(s, 10))
  {
    assert !IsJsWhitespace(s[0]) && TrimStart(s) == s;
    assert s[0] != '-' && s[0] != '+';
    assert !(|s| >= 2 && (s[1] == 'x' || s[1] == 'X'));
    LeadingDigitsOfDigits(s);
  }

  /** Printing a natural number and parsing it back gives the number. */
  lemma ParseIntOfNatToDecimal(n: nat)
    ensures ParseInt(NatToDecimal(n)) == Some(n)
  {
    ParseIntOfDigits(NatToDecimal(n));
    DigitsValueOfNatToDecimal(n);
  }

  /** A digit string without leading zeros is the decimal spelling of its own value. */
  lemma {:induction false} NatToDecimalOfDigitsValue(s: string)
    requires s != [] && AllDecimal(s) && (s[0] == '0' ==> |s| == 1)
    ensures NatToDecimal(DigitsValue(s, 10)) == s
    decreases |s|
  {
    var n := DigitsValue(s, 10);
    if |s| > 1 {
      var front := s[..|s| - 1];
      NatToDecimalOfDigitsValue(front);
      DigitsValuePositive(front);
      assert n / 10 == DigitsValue(front, 10) && n % 10 == HexDigitValue(s[|s| - 1]);
    }
  }

  lemma DigitsValuePositive(s: string)
    requires s != [] && AllDecimal(s) && s[0] != '0'
    ensures DigitsValue(s, 10) >= 1
    decreases |s|
  {
    if |s| > 1 {
      DigitsValuePositive(s[..|s| - 1]);
    }
  }
}
