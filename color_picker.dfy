/**
 * The toolbar's colour picker: seven preset swatches and a custom hex field
 * that accepts `#RGB` or `#RRGGBB`, with or without the `#`, in either case.
 */
module ColorPicker {
  import opened Text
  import ColorCodec

  const Presets: seq<string> := ["#FF5733", "#33FF57", "#3357FF", "#FF33F5", "#F5B700", "#8B33FF", "#000000"]

  /** `/^#([A-Fa-f0-9]{6}|[A-Fa-f0-9]{3})$/` */
  predicate ValidateHex(s: string) {
    |s| >= 1 && s[0] == '#' && (|s| - 1 == 6 || |s| - 1 == 3) && AllHex(s[1..])
  }

  /** The `#` prefix is added only when it is missing. */
  function WithHash(s: string): (t: string)
    ensures |t| >= 1 && t[0] == '#'
    ensures StartsWith(s, "#") ==> t == s
    ensures !StartsWith(s, "#") ==> t == "#" + s
  {
    if StartsWith(s, "#") then s else "#" + s
  }

  lemma WithHashIdempotent(s: string)
    ensures WithHash(WithHash(s)) == WithHash(s)
  {
  }

  /** The input without one leading `#`, if it has one. */
  function StripHash(s: string): string {
    if |s| >= 1 && s[0] == '#' then s[1..] else s
  }

  /** The custom field accepts an input exactly when, after at most one leading `#`, it is three or six hex digits. */
  lemma CustomInputAccepted(s: string)
    ensures ValidateHex(WithHash(s)) <==> (|StripHash(s)| == 3 || |StripHash(s)| == 6) && AllHex(StripHash(s))
  {
    if !StartsWith(s, "#") {
      assert WithHash(s)[1..] == s;
    }
  }

  /** A valid six-digit colour is one the advanced picker's parser accepts. */
  lemma LongFormParses(s: string)
    requires ValidateHex(s) && |s| == 7
    ensures ColorCodec.MatchesHexPattern(s)
  {
  }

  /** A valid three-digit colour is not accepted by the advanced picker's parser: it reads it as the fallback red. */
  lemma ShortFormFallsBack(s: string)
    requires ValidateHex(s) && |s| == 4
    ensures ColorCodec.HexToRgb(s) == ColorCodec.Fallback
  {
  }

  /** What a preset swatch sends to `onChange` when clicked. */
  function PresetClick(preset: string, disabled: bool): Option<string> {
    if disabled then None else Some(preset)
  }

  /** A swatch is highlighted when the current value is its string, exactly. */
  predicate Highlighted(value: string, preset: string) {
    value == preset
  }

  /**
   * Every preset is a seven-character `#RRGGBB` string. What a click emits
   * passes both validators, and once the host renders it back as `value`,
   * the clicked swatch is the highlighted one.
   */
  lemma PresetsAreLongHex(i: nat, disabled: bool)
    requires i < |Presets|
    ensures ValidateHex(Presets[i]) && |Presets[i]| == 7 && ColorCodec.MatchesHexPattern(Presets[i])
    ensures PresetClick(Presets[i], disabled).Some? ==>
      var v := PresetClick(Presets[i], disabled).value;
      && ValidateHex(v) && ColorCodec.MatchesHexPattern(v)
      && Highlighted(v, Presets[i])
      && forall j :: 0 <= j < |Presets| && Highlighted(v, Presets[j]) ==> j == i
  {
  }

  /** At most one swatch is highlighted at a time. */
  lemma AtMostOneHighlighted(value: string, i: nat, j: nat)
    requires i < |Presets| && j < |Presets|
    requires Highlighted(value, Presets[i]) && Highlighted(value, Presets[j])
    ensures i == j
  {
  }

  class CustomColor {
    var customColor: string
    var isValidHex: bool

    /** The validity flag always describes the current input. */
    ghost predicate Valid()
      reads this
    {
      isValidHex == ValidateHex(WithHash(customColor))
    }

    constructor ()
      ensures Valid()
      ensures customColor == "#000000" && isValidHex
    {
      customColor := "#000000";
      isValidHex := true;
      assert AllHex("#000000"[1..]);
    }

    /** The raw input is stored unchanged; the flag is recomputed from it. */
    method HandleCustomColorChange(newColor: string)
      modifies this`customColor, this`isValidHex
      ensures Valid()
      ensures customColor == newColor
      ensures isValidHex == ValidateHex(WithHash(newColor))
    {
      customColor := newColor;
      var colorWithHash := WithHash(newColor);
      isValidHex := ValidateHex(colorWithHash);
    }

    /** Emits the `#`-prefixed input when it is valid and the picker is enabled; what it emits always validates. */
    method ApplyCustomColor(disabled: bool) returns (emitted: Option<string>)
      requires Valid()
      ensures emitted.Some? <==> isValidHex && !disabled
      ensures emitted.Some? ==> emitted.value == WithHash(customColor) && ValidateHex(emitted.value)
    {
      emitted := None;
      if isValidHex && !disabled {
        emitted := Some(WithHash(customColor));
      }
    }
  }
}
