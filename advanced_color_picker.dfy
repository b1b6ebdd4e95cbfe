/**
 * The pointer state of the advanced colour picker: a crosshair on the
 * gradient surface and a handle on the hue slider, driven by mouse presses,
 * moves and releases, and re-initialised whenever the host pushes a new
 * `value`. Surfaces are given by their bounding rectangles; a missing
 * rectangle stands for a wrapper element that is not mounted. Sampling the
 * painted canvas is the parameter `sample`.
 */
module AdvancedColorPicker {
  import opened Text
  import opened ColorCodec
  import opened ColorSpaces

  datatype Position = Position(x: real, y: real)

  /** What `getBoundingClientRect` reports for a surface. */
  datatype Rect = Rect(left: real, top: real, width: real, height: real)

  /** `Math.max(0, Math.min(v, limit))` */
  function Clamp(v: real, limit: real): (r: real)
    ensures r >= 0.0
    ensures limit >= 0.0 ==> r <= limit
    ensures 0.0 <= v <= limit ==> r == v
  {
    Max(0.0, Min(v, limit))
  }

  /** The crosshair position for a pointer at (clientX, clientY) over the gradient surface. */
  function CrosshairAt(clientX: real, clientY: real, rect: Rect): (p: Position)
    ensures p.x >= 0.0 && p.y >= 0.0
    ensures rect.width >= 0.0 ==> p.x <= rect.width
    ensures rect.height >= 0.0 ==> p.y <= rect.height
  {
    Position(Clamp(clientX - rect.left, rect.width), Clamp(clientY - rect.top, rect.height))
  }

  /** The slider handle offset for a pointer at clientX over the hue slider. */
  function SliderOffsetAt(clientX: real, rect: Rect): (x: real)
    ensures x >= 0.0
    ensures rect.width >= 0.0 ==> x <= rect.width
  {
    Clamp(clientX - rect.left, rect.width)
  }

  /** `(x / width) * 360` */
  function HueAt(x: real, width: real): real
    requires width > 0.0
  {
    x / width * 360.0
  }

  /** The hue the slider selects for a pointer at clientX. */
  function SliderHueAt(clientX: real, rect: Rect): real
    requires rect.width > 0.0
  {
    HueAt(SliderOffsetAt(clientX, rect), rect.width)
  }

  /** Clamping is monotone in the pointer coordinate. */
  lemma ClampMonotone(v1: real, v2: real, limit: real)
    requires v1 <= v2
    ensures Clamp(v1, limit) <= Clamp(v2, limit)
  {
  }

  /** The hue is a degree in [0, 360], reached at the left and right edges, and grows with the pointer. */
  lemma SliderHueRangeAndMonotone(clientX1: real, clientX2: real, rect: Rect)
    requires rect.width > 0.0
    requires clientX1 <= clientX2
    ensures 0.0 <= SliderHueAt(clientX1, rect) <= 360.0
    ensures SliderHueAt(clientX1, rect) <= SliderHueAt(clientX2, rect)
    ensures clientX1 <= rect.left ==> SliderHueAt(clientX1, rect) == 0.0
    ensures clientX2 >= rect.left + rect.width ==> SliderHueAt(clientX2, rect) == 360.0
  {
    var w := rect.width;
    var x1, x2 := SliderOffsetAt(clientX1, rect), SliderOffsetAt(clientX2, rect);
    ClampMonotone(clientX1 - rect.left, clientX2 - rect.left, w);
    DivMonotone(x1, x2, w);
    UnitRatio(x1, w);
    UnitRatio(x2, w);
  }

  /** An offset on a surface of positive width is a fraction of that width in [0, 1]. */
  lemma UnitRatio(x: real, w: real)
    requires 0.0 <= x <= w && w > 0.0
    ensures 0.0 <= x / w <= 1.0
    ensures x == 0.0 ==> x / w == 0.0
    ensures x == w ==> x / w == 1.0
  {
    DivMonotone(0.0, x, w);
    DivMonotone(x, w, w);
  }

  lemma DivMonotone(a: real, b: real, w: real)
    requires a <= b && w > 0.0
    ensures a / w <= b / w
  {
    assert b / w - a / w == (b - a) / w;
  }

  /** A pointer outside the surface selects the same point as the nearest point on its border. */
  lemma CrosshairClampsOutside(clientX: real, clientY: real, rect: Rect)
    requires rect.width >= 0.0 && rect.height >= 0.0
    requires clientX <= rect.left && clientY <= rect.top
    ensures CrosshairAt(clientX, clientY, rect) == CrosshairAt(rect.left, rect.top, rect) == Position(0.0, 0.0)
  {
  }

  /** The slider offset for a hue when the host pushes a value: `(h / 360) * clientWidth`. */
  function SliderOffsetForHue(hue: real, clientWidth: nat): (x: real)
    ensures hue >= 0.0 ==> x >= 0.0
  {
    var x := hue / 360.0 * clientWidth as real;
    assert hue >= 0.0 ==> x >= 0.0 by {
      if hue >= 0.0 { NonNegativeProduct(hue / 360.0, clientWidth as real); }
    }
    x
  }

  lemma NonNegativeProduct(a: real, b: real)
    requires a >= 0.0 && b >= 0.0
    ensures a * b >= 0.0
  {
  }

  /**
   * The slider offset for a hue in [0, 360) lies on the slider, and when the
   * slider's bounding width equals its `clientWidth`, a press at that offset
   * selects the same hue again.
   */
  lemma SliderOffsetForHueInverse(hue: real, clientWidth: nat, rect: Rect)
    requires 0.0 <= hue < 360.0 && clientWidth > 0
    requires rect.width == clientWidth as real
    ensures var x := SliderOffsetForHue(hue, clientWidth);
      && 0.0 <= x < clientWidth as real
      && SliderOffsetAt(rect.left + x, rect) == x
      && SliderHueAt(rect.left + x, rect) == hue
  {
    var w := clientWidth as real;
    var a := hue / 360.0;
    var x := a * w;
    assert 0.0 <= a < 1.0;
    NonNegativeProduct(a, w);
    assert x < w by { assert w - x == (1.0 - a) * w; NonNegativeProduct(1.0 - a, w); assert (1.0 - a) * w != 0.0; }
    assert SliderOffsetAt(rect.left + x, rect) == x by { assert rect.left + x - rect.left == x; }
    ScaleThenDivide(a, w);
    assert HueAt(x, w) == a * 360.0 == hue;
    assert SliderOffsetForHue(hue, clientWidth) == x;
    assert SliderHueAt(rect.left + x, rect) == HueAt(x, w);
  }

  lemma ScaleThenDivide(a: real, w: real)
    requires w > 0.0
    ensures a * w / w == a
  {
  }

  /** The HEX text field passes a typed value on only when it is `#` and six hex digits. */
  function HexFieldInput(newValue: string): (emitted: Option<string>)
    ensures emitted.Some? <==> |newValue| == 7 && newValue[0] == '#' && AllHex(newValue[1..])
    ensures emitted.Some? ==> emitted.value == newValue && MatchesHexPattern(newValue)
  {
    if |newValue| == 7 && newValue[0] == '#' && AllHex(newValue[1..]) then Some(newValue) else None
  }

  class Picker {
    var isDragging: bool
    var isSliderDragging: bool
    var position: Position
    var sliderPosition: real
    var currentHue: real
    var currentColor: Rgb
    /** The `value` the load effect last ran for; `None` before the first run. */
    var loadedValue: Option<string>

    /** Positions are never left of or above their surface and the hue is a degree in [0, 360]. */
    ghost predicate Valid()
      reads this
    {
      && position.x >= 0.0 && position.y >= 0.0
      && sliderPosition >= 0.0
      && 0.0 <= currentHue <= 360.0
    }

    constructor ()
      ensures Valid()
      ensures !isDragging && !isSliderDragging
      ensures position == Position(0.0, 0.0) && sliderPosition == 0.0 && currentHue == 0.0
      ensures currentColor == Fallback && loadedValue.None?
    {
      isDragging, isSliderDragging := false, false;
      loadedValue := None;
      position := Position(0.0, 0.0);
      sliderPosition, currentHue := 0.0, 0.0;
      currentColor := Fallback;
    }

    /** Move the crosshair and take the colour under it; the result is what `onChange` receives. */
    method PickAt(clientX: real, clientY: real, rect: Rect, sample: Position -> Rgb) returns (emitted: string)
      requires Valid()
      modifies this`position, this`currentColor
      ensures Valid()
      ensures position == CrosshairAt(clientX, clientY, rect)
      ensures currentColor == sample(position)
      ensures emitted == RgbToHex(currentColor)
    {
      var p := CrosshairAt(clientX, clientY, rect);
      position := p;
      var color := sample(p);
      currentColor := color;
      emitted := RgbToHex(color);
    }

    /** Move the slider handle and set the hue from it; nothing is emitted. */
    method SlideTo(clientX: real, rect: Rect)
      requires Valid()
      requires rect.width > 0.0
      modifies this`sliderPosition, this`currentHue
      ensures Valid()
      ensures sliderPosition == SliderOffsetAt(clientX, rect)
      ensures currentHue == SliderHueAt(clientX, rect)
    {
      SliderHueRangeAndMonotone(clientX, clientX, rect);
      var x := SliderOffsetAt(clientX, rect);
      sliderPosition := x;
      currentHue := HueAt(x, rect.width);
    }

    method GradientMouseDown(clientX: real, clientY: real, rect: Option<Rect>, sample: Position -> Rgb)
      returns (emitted: Option<string>)
      requires Valid()
      modifies this`isDragging, this`position, this`currentColor
      ensures Valid()
      ensures isDragging && isSliderDragging == old(isSliderDragging)
      ensures sliderPosition == old(sliderPosition) && currentHue == old(currentHue)
      ensures rect.None? ==> position == old(position) && currentColor == old(currentColor) && emitted.None?
      ensures rect.Some? ==>
        && position == CrosshairAt(clientX, clientY, rect.value)
        && currentColor == sample(position)
        && emitted == Some(RgbToHex(currentColor))
    {
      isDragging := true;
      emitted := None;
      if rect.Some? {
        var hex := PickAt(clientX, clientY, rect.value, sample);
        emitted := Some(hex);
      }
    }

    method SliderMouseDown(clientX: real, rect: Option<Rect>)
      requires Valid()
      requires rect.Some? ==> rect.value.width > 0.0
      modifies this`isSliderDragging, this`sliderPosition, this`currentHue
      ensures Valid()
      ensures isSliderDragging && isDragging == old(isDragging)
      ensures position == old(position) && currentColor == old(currentColor)
      ensures rect.None? ==> sliderPosition == old(sliderPosition) && currentHue == old(currentHue)
      ensures rect.Some? ==>
        && sliderPosition == SliderOffsetAt(clientX, rect.value)
        && currentHue == SliderHueAt(clientX, rect.value)
    {
      isSliderDragging := true;
      if rect.Some? {
        SlideTo(clientX, rect.value);
      }
    }

    /**
     * A window-level mouse move. Each drag applies only while its flag is
     * set and its wrapper is mounted; with both flags set both apply.
     */
    method MouseMove(clientX: real, clientY: real, gradientRect: Option<Rect>, sliderRect: Option<Rect>,
                     sample: Position -> Rgb)
      returns (emitted: Option<string>)
      requires Valid()
      requires isSliderDragging && sliderRect.Some? ==> sliderRect.value.width > 0.0
      modifies this`position, this`currentColor, this`sliderPosition, this`currentHue
      ensures Valid()
      ensures isDragging == old(isDragging) && isSliderDragging == old(isSliderDragging)
      ensures if old(isDragging) && gradientRect.Some? then
          && position == CrosshairAt(clientX, clientY, gradientRect.value)
          && currentColor == sample(position)
          && emitted == Some(RgbToHex(currentColor))
        else
          position == old(position) && currentColor == old(currentColor) && emitted.None?
      ensures if old(isSliderDragging) && sliderRect.Some? then
          && sliderPosition == SliderOffsetAt(clientX, sliderRect.value)
          && currentHue == SliderHueAt(clientX, sliderRect.value)
        else
          sliderPosition == old(sliderPosition) && currentHue == old(currentHue)
    {
      emitted := None;
      if isDragging && gradientRect.Some? {
        var hex := PickAt(clientX, clientY, gradientRect.value, sample);
        emitted := Some(hex);
      }
      if isSliderDragging && sliderRect.Some? {
        SlideTo(clientX, sliderRect.value);
      }
    }

    method MouseUp()
      requires Valid()
      modifies this`isDragging, this`isSliderDragging
      ensures Valid()
      ensures !isDragging && !isSliderDragging
    {
      isDragging, isSliderDragging := false, false;
    }

    /**
     * The host renders with `value`. The load effect runs only when `value`
     * differs from the one it last ran for: colour and hue then come from
     * the value, the slider follows the hue when its wrapper is mounted
     * (`sliderClientWidth`), and the crosshair stays where it was. With an
     * unchanged `value` nothing happens.
     */
    method LoadValue(value: string, sliderClientWidth: Option<nat>)
      requires Valid()
      modifies this`currentHue, this`currentColor, this`sliderPosition, this`loadedValue
      ensures Valid()
      ensures loadedValue == Some(value)
      ensures old(loadedValue) == Some(value) ==>
        currentColor == old(currentColor) && currentHue == old(currentHue) && sliderPosition == old(sliderPosition)
      ensures old(loadedValue) != Some(value) ==>
        && currentColor == HexToRgb(value)
        && currentHue == RgbToHsv(currentColor).h
        && (sliderClientWidth.None? ==> sliderPosition == old(sliderPosition))
        && (sliderClientWidth.Some? ==> sliderPosition == SliderOffsetForHue(currentHue, sliderClientWidth.value))
    {
      if loadedValue == Some(value) {
        return;
      }
      loadedValue := Some(value);
      var rgb := HexToRgb(value);
      var hsv := RgbToHsv(rgb);
      RgbToHsvRanges(rgb);
      currentHue := hsv.h;
      currentColor := rgb;
      if sliderClientWidth.Some? {
        sliderPosition := SliderOffsetForHue(hsv.h, sliderClientWidth.value);
      }
    }
  }

  /**
   * A press on the gradient whose emitted value the host renders straight
   * back: the colour survives the round trip through its hex spelling. The
   * hue follows the picked colour when the emitted hex differs from the
   * value last loaded; when it is the same, the load effect does not run
   * and the hue stays as it was.
   */
  method PressThenEcho(p: Picker, clientX: real, clientY: real, rect: Rect, sample: Position -> Rgb,
                       sliderClientWidth: Option<nat>)
    requires p.Valid()
    modifies p
    ensures p.Valid()
    ensures p.position == CrosshairAt(clientX, clientY, rect)
    ensures p.currentColor == sample(p.position)
    ensures p.loadedValue == Some(RgbToHex(p.currentColor))
    ensures old(p.loadedValue) != p.loadedValue ==> p.currentHue == RgbToHsv(p.currentColor).h
    ensures old(p.loadedValue) == p.loadedValue ==> p.currentHue == old(p.currentHue)
  {
    var emitted := p.GradientMouseDown(clientX, clientY, Some(rect), sample);
    var picked := p.currentColor;
    HexToRgbOfRgbToHex(picked);
    p.LoadValue(emitted.value, sliderClientWidth);
  }
}
