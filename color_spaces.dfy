/**
 * The derived views the advanced colour picker shows for its current colour:
 * HSV (`rgbToHsv`), HSL (`rgbToHsl`, as in section 7 of CSS Color Module
 * Level 4) and CMYK (`rgbToCmyk`). The source computes in IEEE doubles; here
 * the arithmetic is exact `real`, and `Math.round` on the non-negative values
 * that occur is `Round`.
 */
module ColorSpaces {
  import opened ColorCodec

  datatype Hsv = Hsv(h: real, s: real, v: real)
  datatype Hsl = Hsl(h: int, s: int, l: int)
  datatype Cmyk = Cmyk(c: int, m: int, y: int, k: int)

  function Max(a: real, b: real): real { if a >= b then a else b }
  function Min(a: real, b: real): real { if a <= b then a else b }

  /** `Math.max(r, g, b)` */
  function Max3(a: real, b: real, c: real): (m: real)
    ensures m >= a && m >= b && m >= c && (m == a || m == b || m == c)
  {
    Max(Max(a, b), c)
  }

  /** `Math.min(r, g, b)` */
  function Min3(a: real, b: real, c: real): (m: real)
    ensures m <= a && m <= b && m <= c && (m == a || m == b || m == c)
  {
    Min(Min(a, b), c)
  }

  /** `Math.round` on a non-negative value: halves go up. */
  function Round(x: real): (n: int)
    requires x >= 0.0
    ensures n >= 0 && n as real - 0.5 <= x < n as real + 0.5
  {
    (x + 0.5).Floor
  }

  /** A channel as the fraction of 255 the source divides it to. */
  function Unit(x: Channel): (u: real)
    ensures 0.0 <= u <= 1.0
  {
    x as real / 255.0
  }

  function MaxChannel(c: Rgb): Channel {
    if c.r >= c.g && c.r >= c.b then c.r else if c.g >= c.b then c.g else c.b
  }

  function MinChannel(c: Rgb): Channel {
    if c.r <= c.g && c.r <= c.b then c.r else if c.g <= c.b then c.g else c.b
  }

  /** Dividing by 255 keeps order, so the extremes of the fractions are the fractions of the extreme channels. */
  lemma UnitOfExtremes(c: Rgb)
    ensures Max3(Unit(c.r), Unit(c.g), Unit(c.b)) == Unit(MaxChannel(c))
    ensures Min3(Unit(c.r), Unit(c.g), Unit(c.b)) == Unit(MinChannel(c))
  {
  }

  predicate Achromatic(c: Rgb) {
    c.r == c.g == c.b
  }

  /**
   * The hue in sixths of a turn before the final `h /= 6`: the `switch (max)`
   * takes the first of r, g, b equal to the maximum. Defined for d > 0 only,
   * as the source reaches it only when max != min.
   */
  function HueSixths(r: real, g: real, b: real, mx: real, d: real): real
    requires d > 0.0
  {
    if mx == r then (g - b) / d + (if g < b then 6.0 else 0.0)
    else if mx == g then (b - r) / d + 2.0
    else (r - g) / d + 4.0
  }

  function RgbToHsv(c: Rgb): Hsv {
    var r, g, b := Unit(c.r), Unit(c.g), Unit(c.b);
    var mx := Max3(r, g, b);
    var mn := Min3(r, g, b);
    var d := mx - mn;
    var s := if mx == 0.0 then 0.0 else d / mx;
    var h := if mx != mn then HueSixths(r, g, b, mx, d) / 6.0 else 0.0;
    Hsv(h * 360.0, s * 100.0, mx * 100.0)
  }

  function RgbToHsl(c: Rgb): Hsl {
    var r, g, b := Unit(c.r), Unit(c.g), Unit(c.b);
    var mx := Max3(r, g, b);
    var mn := Min3(r, g, b);
    var l := (mx + mn) / 2.0;
    var d := mx - mn;
    var s := if mx == mn then 0.0 else if l > 0.5 then d / (2.0 - mx - mn) else d / (mx + mn);
    var h := if mx != mn then HueSixths(r, g, b, mx, d) / 6.0 else 0.0;
    assert mx != mn ==> s >= 0.0 by {
      if mx != mn { DivNonNegative(d, if l > 0.5 then 2.0 - mx - mn else mx + mn); }
    }
    assert h >= 0.0 by { if mx != mn { HueSixthsRange(r, g, b, mx, mn); } }
    Hsl(Round(h * 360.0), Round(s * 100.0), Round(l * 100.0))
  }

  /** One of c, m, y: `Math.round(((x - k) / (1 - k)) * 100) || 0`. */
  function InkPercent(x: real, k: real): int
    requires k <= x && k < 1.0
  {
    DivNonNegative(x - k, 1.0 - k);
    Round((x - k) / (1.0 - k) * 100.0)
  }

  function RgbToCmyk(rgb: Rgb): Cmyk {
    if rgb.r == 0 && rgb.g == 0 && rgb.b == 0 then
      Cmyk(0, 0, 0, 100)
    else
      var c := 1.0 - Unit(rgb.r);
      var m := 1.0 - Unit(rgb.g);
      var y := 1.0 - Unit(rgb.b);
      var k := Min3(c, m, y);
      Cmyk(InkPercent(c, k), InkPercent(m, k), InkPercent(y, k), Round(k * 100.0))
  }

  // ----- arithmetic facts used below -----

  lemma DivNonNegative(a: real, d: real)
    requires a >= 0.0 && d > 0.0
    ensures a / d >= 0.0
  {
  }

  lemma DivAtMostOne(a: real, d: real)
    requires -d <= a <= d && d > 0.0
    ensures -1.0 <= a / d <= 1.0
  {
    assert a / d * d == a;
  }

  /** The un-divided hue lies in [0, 6). */
  lemma HueSixthsRange(r: real, g: real, b: real, mx: real, mn: real)
    requires mx == Max3(r, g, b) && mn == Min3(r, g, b) && mx > mn
    ensures 0.0 <= HueSixths(r, g, b, mx, mx - mn) < 6.0
  {
    var d := mx - mn;
    if mx == r {
      DivAtMostOne(g - b, d);
      if g < b {
        assert (g - b) / d < 0.0 by { assert (g - b) / d * d == g - b; }
      }
    } else if mx == g {
      DivAtMostOne(b - r, d);
    } else {
      DivAtMostOne(r - g, d);
    }
  }

  /** HSV ranges: hue in [0, 360), saturation and value in [0, 100], value = 100 max / 255. */
  lemma RgbToHsvRanges(c: Rgb)
    ensures var hsv := RgbToHsv(c);
      && 0.0 <= hsv.h < 360.0
      && 0.0 <= hsv.s <= 100.0
      && 0.0 <= hsv.v <= 100.0
      && hsv.v == MaxChannel(c) as real * 100.0 / 255.0
  {
    var r, g, b := Unit(c.r), Unit(c.g), Unit(c.b);
    var mx := Max3(r, g, b);
    var mn := Min3(r, g, b);
    UnitOfExtremes(c);
    if mx != mn {
      HueSixthsRange(r, g, b, mx, mn);
    }
    if mx != 0.0 {
      DivNonNegative(mx - mn, mx);
      DivAtMostOne(mx - mn, mx);
    }
  }

  /** Saturation is zero exactly for greys; hue is then zero. */
  lemma RgbToHsvAchromatic(c: Rgb)
    ensures RgbToHsv(c).s == 0.0 <==> Achromatic(c)
    ensures Achromatic(c) ==> RgbToHsv(c).h == 0.0
  {
    var r, g, b := Unit(c.r), Unit(c.g), Unit(c.b);
    var mx := Max3(r, g, b);
    var mn := Min3(r, g, b);
    if mx != 0.0 && mx != mn {
      assert (mx - mn) / mx * mx == mx - mn;
    }
  }

  lemma RgbToHsvExamples()
    ensures RgbToHsv(Rgb(255, 0, 0)) == Hsv(0.0, 100.0, 100.0)
    ensures RgbToHsv(Rgb(0, 0, 0)) == Hsv(0.0, 0.0, 0.0)
    ensures RgbToHsv(Rgb(255, 255, 255)) == Hsv(0.0, 0.0, 100.0)
    ensures RgbToHsv(Rgb(0, 0, 255)) == Hsv(240.0, 100.0, 100.0)
  {
  }

  /** HSL: greys have h = s = 0 and l = round(50 (max + min) / 255); every output is in range. */
  lemma RgbToHslRanges(c: Rgb)
    ensures var hsl := RgbToHsl(c);
      && 0 <= hsl.h <= 360
      && 0 <= hsl.s <= 100
      && 0 <= hsl.l <= 100
      && hsl.l == Round((MaxChannel(c) + MinChannel(c)) as real * 50.0 / 255.0)
      && (Achromatic(c) ==> hsl.h == 0 && hsl.s == 0)
  {
    var r, g, b := Unit(c.r), Unit(c.g), Unit(c.b);
    var mx := Max3(r, g, b);
    var mn := Min3(r, g, b);
    var l := (mx + mn) / 2.0;
    var d := mx - mn;
    UnitOfExtremes(c);
    if mx != mn {
      HueSixthsRange(r, g, b, mx, mn);
      if l > 0.5 {
        DivAtMostOne(d, 2.0 - mx - mn);
        DivNonNegative(d, 2.0 - mx - mn);
      } else {
        DivAtMostOne(d, mx + mn);
        DivNonNegative(d, mx + mn);
      }
    }
    var hsl := RgbToHsl(c);
    assert hsl.l == Round(l * 100.0);
  }

  /** HSL and HSV agree on the hue, up to the rounding HSL applies. */
  lemma HslHueIsRoundedHsvHue(c: Rgb)
    ensures RgbToHsv(c).h >= 0.0
    ensures RgbToHsl(c).h == Round(RgbToHsv(c).h)
  {
    RgbToHsvRanges(c);
  }

  lemma RgbToHslExamples()
    ensures RgbToHsl(Rgb(255, 255, 255)) == Hsl(0, 0, 100)
    ensures RgbToHsl(Rgb(0, 0, 0)) == Hsl(0, 0, 0)
    ensures RgbToHsl(Rgb(255, 0, 0)) == Hsl(0, 100, 50)
  {
  }

  /** Pure black is the special case (0, 0, 0, 100); white is (0, 0, 0, 0). */
  lemma RgbToCmykExamples()
    ensures RgbToCmyk(Rgb(0, 0, 0)) == Cmyk(0, 0, 0, 100)
    ensures RgbToCmyk(Rgb(255, 255, 255)) == Cmyk(0, 0, 0, 0)
  {
  }

  /**
   * Away from black: every ink in [0, 100], k = round(100 (1 - max / 255)),
   * and each channel equal to the maximum gets no ink.
   */
  lemma RgbToCmykRanges(rgb: Rgb)
    requires !(rgb.r == 0 && rgb.g == 0 && rgb.b == 0)
    ensures var cmyk := RgbToCmyk(rgb);
      && 0 <= cmyk.c <= 100 && 0 <= cmyk.m <= 100 && 0 <= cmyk.y <= 100 && 0 <= cmyk.k <= 100
      && cmyk.k == Round(100.0 * (1.0 - MaxChannel(rgb) as real / 255.0))
      && (rgb.r == MaxChannel(rgb) ==> cmyk.c == 0)
      && (rgb.g == MaxChannel(rgb) ==> cmyk.m == 0)
      && (rgb.b == MaxChannel(rgb) ==> cmyk.y == 0)
  {
    var c := 1.0 - Unit(rgb.r);
    var m := 1.0 - Unit(rgb.g);
    var y := 1.0 - Unit(rgb.b);
    var k := Min3(c, m, y);
    UnitOfExtremes(rgb);
    assert k == 1.0 - Unit(MaxChannel(rgb));
    InkPercentRange(c, k);
    InkPercentRange(m, k);
    InkPercentRange(y, k);
  }

  lemma InkPercentRange(x: real, k: real)
    requires 0.0 <= k <= x <= 1.0 && k < 1.0
    ensures 0 <= InkPercent(x, k) <= 100
    ensures x == k ==> InkPercent(x, k) == 0
  {
    DivAtMostOne(x - k, 1.0 - k);
    DivNonNegative(x - k, 1.0 - k);
  }

  /** The black ink is the complement of the HSV value, for every colour including black. */
  lemma CmykKeyIsComplementOfValue(c: Rgb)
    ensures 100.0 - RgbToHsv(c).v >= 0.0
    ensures RgbToCmyk(c).k == Round(100.0 - RgbToHsv(c).v)
  {
    RgbToHsvRanges(c);
    if !(c.r == 0 && c.g == 0 && c.b == 0) {
      RgbToCmykRanges(c);
    }
  }

  /** A grey gets no coloured ink. */
  lemma RgbToCmykGrey(c: Rgb)
    requires Achromatic(c)
    ensures RgbToCmyk(c).c == 0 && RgbToCmyk(c).m == 0 && RgbToCmyk(c).y == 0
  {
    if c.r != 0 {
      RgbToCmykRanges(c);
    }
  }
}
