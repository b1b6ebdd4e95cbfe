/**
 * The `#RRGGBB` notation of the advanced colour picker: `hexToRgb`
 * parses it (with an optional `#`, digits in either case) and `rgbToHex`
 * prints it with lower-case, zero-padded digits.
 */
module ColorCodec {
  import opened Text

  /** A colour channel as canvas pixel data and two hex digits deliver it. */
  type Channel = x: int | 0 <= x <= 255

  datatype Rgb = Rgb(r: Channel, g: Channel, b: Channel)

  /** What `hexToRgb` answers for a string it does not recognise: pure red. */
  const Fallback: Rgb := Rgb(255, 0, 0)

  /** The pattern `/^#?([a-f\d]{2})([a-f\d]{2})([a-f\d]{2})$/i`. */
  predicate MatchesHexPattern(s: string) {
    || (|s| == 6 && AllHex(s))
    || (|s| == 7 && s[0] == '#' && AllHex(s[1..]))
  }

  /** The six digits the pattern captures. */
  function HexBody(s: string): (d: string)
    requires MatchesHexPattern(s)
    ensures |d| == 6 && AllHex(d)
  {
    if |s| == 7 then s[1..] else s
  }

  /** `Number.parseInt(pair, 16)` of a two-digit pair. */
  function PairValue(hi: char, lo: char): Channel
    requires IsHexDigit(hi) && IsHexDigit(lo)
  {
    16 * HexDigitValue(hi) + HexDigitValue(lo)
  }

  function HexToRgb(s: string): Rgb {
    if MatchesHexPattern(s) then
      var d := HexBody(s);
      Rgb(PairValue(d[0], d[1]), PairValue(d[2], d[3]), PairValue(d[4], d[5]))
    else
      Fallback
  }

  /** `n.toString(16)` for a natural number: base-16 digits, lower case, no padding. */
  function ToHexString(n: nat): (s: string)
    ensures |s| >= 1 && AllLowerHex(s)
    ensures n < 16 <==> |s| == 1
    decreases n
  {
    if n < 16 then [LowerHexDigit(n)] else ToHexString(n / 16) + [LowerHexDigit(n % 16)]
  }

  /** One channel as `rgbToHex` prints it: `toString(16)` padded with `0` to two digits. */
  function ChannelHex(x: Channel): (h: string)
    ensures |h| == 2 && AllLowerHex(h)
    ensures PairValue(h[0], h[1]) == x
  {
    var hex := ToHexString(x);
    assert x >= 16 ==> hex == ToHexString(x / 16) + [LowerHexDigit(x % 16)];
    if |hex| == 1 then "0" + hex else hex
  }

  function RgbToHex(c: Rgb): (s: string)
    ensures |s| == 7 && s[0] == '#' && AllLowerHex(s[1..])
    ensures MatchesHexPattern(s)
  {
    "#" + ChannelHex(c.r) + ChannelHex(c.g) + ChannelHex(c.b)
  }

  /** The lower-case, `#`-prefixed spelling of a string the pattern accepts. */
  function CanonicalHex(s: string): (t: string)
    requires MatchesHexPattern(s)
    ensures |t| == 7 && t[0] == '#'
  {
    "#" + LowerHexString(HexBody(s))
  }

  /** Printing a colour and parsing it back gives the same colour. */
  lemma HexToRgbOfRgbToHex(c: Rgb)
    ensures HexToRgb(RgbToHex(c)) == c
  {
    var s := RgbToHex(c);
    var d := HexBody(s);
    assert d == ChannelHex(c.r) + ChannelHex(c.g) + ChannelHex(c.b);
    assert d[0..2] == ChannelHex(c.r) && d[2..4] == ChannelHex(c.g) && d[4..6] == ChannelHex(c.b);
  }

  lemma PairValueOfLower(hi: char, lo: char)
    requires IsHexDigit(hi) && IsHexDigit(lo)
    ensures PairValue(LowerHex(hi), LowerHex(lo)) == PairValue(hi, lo)
  {
  }

  /** Two lower-case pairs with the same value are the same two characters. */
  lemma ChannelHexUnique(x: Channel, hi: char, lo: char)
    requires IsLowerHexDigit(hi) && IsLowerHexDigit(lo)
    requires PairValue(hi, lo) == x
    ensures ChannelHex(x) == [hi, lo]
  {
    var h := ChannelHex(x);
    assert HexDigitValue(h[0]) == HexDigitValue(hi) by {
      assert 16 * HexDigitValue(h[0]) + HexDigitValue(h[1]) == 16 * HexDigitValue(hi) + HexDigitValue(lo);
    }
    LowerDigitByValue(h[0], hi);
    LowerDigitByValue(h[1], lo);
  }

  lemma LowerDigitByValue(a: char, b: char)
    requires IsLowerHexDigit(a) && IsLowerHexDigit(b)
    requires HexDigitValue(a) == HexDigitValue(b)
    ensures a == b
  {
  }

  /** Parsing an accepted string and printing it gives its canonical spelling. */
  lemma RgbToHexOfHexToRgb(s: string)
    requires MatchesHexPattern(s)
    ensures RgbToHex(HexToRgb(s)) == CanonicalHex(s)
  {
    var d := HexBody(s);
    var l := LowerHexString(d);
    var c := HexToRgb(s);
    PairValueOfLower(d[0], d[1]);
    PairValueOfLower(d[2], d[3]);
    PairValueOfLower(d[4], d[5]);
    ChannelHexUnique(c.r, l[0], l[1]);
    ChannelHexUnique(c.g, l[2], l[3]);
    ChannelHexUnique(c.b, l[4], l[5]);
    assert l == [l[0], l[1]] + [l[2], l[3]] + [l[4], l[5]];
  }

  /** Anything outside the pattern yields pure red; inside it, every channel is a parsed pair. */
  lemma HexToRgbCases(s: string)
    ensures !MatchesHexPattern(s) ==> HexToRgb(s) == Fallback
    ensures MatchesHexPattern(s) ==> HexToRgb(s) == HexToRgb(CanonicalHex(s))
  {
    if MatchesHexPattern(s) {
      var d := HexBody(s);
      var l := LowerHexString(d);
      PairValueOfLower(d[0], d[1]);
      PairValueOfLower(d[2], d[3]);
      PairValueOfLower(d[4], d[5]);
      assert CanonicalHex(s)[1..] == l;
    }
  }
}
